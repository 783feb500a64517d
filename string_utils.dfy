/**
 * The text test used by the repository's optional filters: Spring's
 * `StringUtils.hasText`, which accepts a string that is non-null, non-empty
 * and holds at least one character that Java's `Character.isWhitespace`
 * does not classify as whitespace.
 */
module StringUtils {
  import opened Wrappers

  /**
   * Java's `Character.isWhitespace`: the Unicode space, line and paragraph
   * separators except the non-breaking ones (U+00A0, U+2007, U+202F), plus
   * the controls U+0009..U+000D and U+001C..U+001F.
   */
  predicate IsWhitespace(c: char) {
    || c == ' '
    || ('\t' <= c <= '\r')
    || ('\U{1C}' <= c <= '\U{1F}')
    || c == '\U{1680}'
    || ('\U{2000}' <= c <= '\U{2006}')
    || ('\U{2008}' <= c <= '\U{200A}')
    || c == '\U{2028}'
    || c == '\U{2029}'
    || c == '\U{205F}'
    || c == '\U{3000}'
  }

  /** Index of the first non-whitespace character at or after `from`, or `|s|` if there is none. */
  function FirstText(s: string, from: nat): (k: nat)
    requires from <= |s|
    ensures from <= k <= |s|
    ensures forall j :: from <= j < k ==> IsWhitespace(s[j])
    ensures k < |s| ==> !IsWhitespace(s[k])
    decreases |s| - from
  {
    if from == |s| then from
    else if !IsWhitespace(s[from]) then from
    else FirstText(s, from + 1)
  }

  /** `StringUtils.hasText`: present, non-empty, and not whitespace only. */
  predicate HasText(s: Option<string>) {
    s.Some? && |s.value| > 0 && FirstText(s.value, 0) < |s.value|
  }

  /** `hasText` holds exactly when some character of a present string is not whitespace. */
  lemma HasTextIff(s: Option<string>)
    ensures HasText(s) <==> s.Some? && exists i :: 0 <= i < |s.value| && !IsWhitespace(s.value[i])
  {
    if s.Some? && (exists i :: 0 <= i < |s.value| && !IsWhitespace(s.value[i])) {
      var i :| 0 <= i < |s.value| && !IsWhitespace(s.value[i]);
      assert FirstText(s.value, 0) <= i;
    }
  }

  /** Null, the empty string and whitespace-only strings all fail `hasText`. */
  lemma BlankHasNoText(s: string)
    ensures (forall i :: 0 <= i < |s| ==> IsWhitespace(s[i])) ==> !HasText(Some(s))
    ensures !HasText(None) && !HasText(Some(""))
  {
    HasTextIff(Some(s));
  }
}
