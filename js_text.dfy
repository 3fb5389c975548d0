/**
 * The JavaScript string primitives the chat client relies on, over strings
 * modelled as sequences of characters.
 */
module JsText {

  function Max(a: int, b: int): int { if a < b then b else a }

  function Min(a: int, b: int): int { if a < b then a else b }

  /** `s.lastIndexOf(c)`: the position of the last `c` in `s`, or -1 when there is none. */
  function LastIndexOf(s: string, c: char): (r: int)
    ensures -1 <= r < |s|
    ensures r == -1 <==> c !in s
    ensures 0 <= r ==> s[r] == c && c !in s[r + 1..]
  {
    LastIndexBelow(s, c, |s|)
  }

  /** The last position below `k` that holds `c`, or -1. */
  function LastIndexBelow(s: string, c: char, k: nat): (r: int)
    requires k <= |s|
    ensures -1 <= r < k
    ensures 0 <= r ==> s[r] == c
    ensures forall j :: r < j < k ==> s[j] != c
  {
    if k == 0 then -1
    else if s[k - 1] == c then k - 1
    else LastIndexBelow(s, c, k - 1)
  }

  /**
   * `s.slice(k)`: a start beyond the end gives the empty string, and a negative
   * start counts back from the end, clamped at the beginning.
   */
  function SliceFrom(s: string, k: int): (r: string)
    ensures 0 <= k <= |s| ==> r == s[k..]
    ensures |s| < k ==> r == []
    ensures k < 0 ==> |r| == Min(-k, |s|) && r == s[|s| - |r|..]
  {
    var start := if k < 0 then Max(|s| + k, 0) else Min(k, |s|);
    s[start..]
  }

  /** The characters the regular-expression class `\s` matches. */
  predicate IsJsWhitespace(c: char)
  {
    c == '\t' || c == '\n' || c == '\U{000B}' || c == '\U{000C}' || c == '\r' || c == ' '
    || c == '\U{00A0}' || c == '\U{1680}' || ('\U{2000}' <= c <= '\U{200A}')
    || c == '\U{2028}' || c == '\U{2029}' || c == '\U{202F}' || c == '\U{205F}'
    || c == '\U{3000}' || c == '\U{FEFF}'
  }

  predicate IsAsciiLetter(c: char)
  {
    'a' <= c <= 'z' || 'A' <= c <= 'Z'
  }

  /**
   * Case folding as a non-Unicode `/i` regular expression does it for the
   * ASCII patterns of the client: only ASCII capitals fold, because no other
   * character folds onto an ASCII letter in that mode.
   */
  function LowerChar(c: char): (r: char)
    ensures 'A' <= c <= 'Z' ==> 'a' <= r <= 'z' && r as int == c as int + 32
    ensures !('A' <= c <= 'Z') ==> r == c
  {
    if 'A' <= c <= 'Z' then (c as int + 32) as char else c
  }

  /** `s` ends with `suffix` when both are compared under ASCII case folding. */
  predicate EndsWithIgnoreCase(s: string, suffix: string)
  {
    |suffix| <= |s| && forall k :: 0 <= k < |suffix| ==> LowerChar(s[|s| - |suffix| + k]) == LowerChar(suffix[k])
  }
}
