/**
 * Usernames: the text helpers the account registry compares and filters
 * usernames with. Culture-specific case rules are replaced by one
 * case-folding function used for every case-insensitive comparison.
 */
module Usernames {
  import opened Wrappers

  /** Folds one character to the case used for comparison (ASCII upper case). */
  function FoldChar(c: char): char {
    if 'a' <= c <= 'z' then (c as int - 32) as char else c
  }

  /** Folds a username; two usernames are equal ignoring case when their folds are equal. */
  function Fold(s: string): (f: string)
    ensures |f| == |s|
    ensures forall i :: 0 <= i < |s| ==> f[i] == FoldChar(s[i])
  {
    if s == [] then [] else [FoldChar(s[0])] + Fold(s[1..])
  }

  predicate EqualsIgnoreCase(a: string, b: string) {
    Fold(a) == Fold(b)
  }

  /** Folding an already folded username changes nothing. */
  lemma FoldIdempotent(s: string)
    ensures Fold(Fold(s)) == Fold(s)
  {
  }

  /** A username differs from its own fold only in letter case. */
  lemma FoldEqualsIgnoreCase(s: string)
    ensures EqualsIgnoreCase(Fold(s), s)
  {
    FoldIdempotent(s);
  }

  /** The characters that `char.IsWhiteSpace` accepts: the space separators,
      the line and paragraph separators, U+0009..U+000D and U+0085. */
  predicate IsWhiteSpace(c: char) {
    || c == ' ' || c == '\t' || c == '\n' || c == '\U{B}' || c == '\U{C}' || c == '\r'
    || c == '\U{85}' || c == '\U{A0}' || c == '\U{1680}'
    || ('\U{2000}' <= c <= '\U{200A}')
    || c == '\U{2028}' || c == '\U{2029}' || c == '\U{202F}' || c == '\U{205F}' || c == '\U{3000}'
  }

  /** `string.IsNullOrWhiteSpace` on a non-null string: empty, or whitespace only. */
  predicate IsBlank(s: string) {
    forall i :: 0 <= i < |s| ==> IsWhiteSpace(s[i])
  }

  /** `Utility.GetText(element, defaultValue)`: the element's text, or the default
      when the element is absent. */
  function GetText(element: Option<string>, defaultValue: string): string {
    element.GetOr(defaultValue)
  }

  /** The placeholder username the record extractor falls back to. */
  const MissingUsername: string := "empty"

  /** An absent username element yields a record under the placeholder,
      which is not blank and so is kept. */
  lemma MissingUsernameIsNotBlank()
    ensures !IsBlank(GetText(None, MissingUsername))
  {
    assert GetText(None, MissingUsername)[0] == 'e';
  }
}
