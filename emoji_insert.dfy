/**
 * `insertEmoji`: the value's trailing `:`-token, as the regular expression
 * `/:[^\s]*$/` finds it, is replaced by the chosen glyph and one space.
 */
module EmojiInsert {
  import opened Wrappers
  import opened JsText

  /** A ':' at `p` with no whitespace after it up to the end: a place where the pattern matches. */
  predicate IsTrailingToken(s: string, p: nat)
  {
    p < |s| && s[p] == ':' && forall k :: p < k < |s| ==> !IsJsWhitespace(s[k])
  }

  /** The leftmost such place, which is where a non-global `replace` applies. */
  predicate IsMatchStart(s: string, p: nat)
  {
    IsTrailingToken(s, p) && forall q :: 0 <= q < p ==> !IsTrailingToken(s, q)
  }

  /** Where the longest whitespace-free run ending below `j` begins. */
  function RunStartBelow(s: string, j: nat): (k: nat)
    requires j <= |s|
    ensures k <= j
    ensures forall m :: k <= m < j ==> !IsJsWhitespace(s[m])
    ensures 0 < k ==> IsJsWhitespace(s[k - 1])
  {
    if j == 0 || IsJsWhitespace(s[j - 1]) then j else RunStartBelow(s, j - 1)
  }

  /** The first ':' at or after `k`. */
  function FirstColonFrom(s: string, k: nat): (r: Option<nat>)
    requires k <= |s|
    ensures r.Some? ==> k <= r.value < |s| && s[r.value] == ':'
    ensures r.Some? ==> forall m :: k <= m < r.value ==> s[m] != ':'
    ensures r.None? ==> forall m :: k <= m < |s| ==> s[m] != ':'
    decreases |s| - k
  {
    if k == |s| then None else if s[k] == ':' then Some(k) else FirstColonFrom(s, k + 1)
  }

  /**
   * Where the pattern's match begins: the first ':' of the value's longest
   * whitespace-free suffix, when that suffix has one.
   */
  function TokenStart(s: string): (r: Option<nat>)
    ensures r.Some? ==> IsMatchStart(s, r.value)
    ensures r.None? ==> forall q: nat :: !IsTrailingToken(s, q)
  {
    var k := RunStartBelow(s, |s|);
    var r := FirstColonFrom(s, k);
    assert forall q :: 0 <= q < k ==> !IsTrailingToken(s, q) by {
      forall q | 0 <= q < k ensures !IsTrailingToken(s, q) {
        if q < k - 1 {
          assert IsJsWhitespace(s[k - 1]);
        }
      }
    }
    r
  }

  /**
   * The new value after choosing `emoji`: everything before the match's ':' is
   * kept as it is and the match is replaced by the glyph and a space; a value
   * the pattern does not match is left unchanged.
   */
  function InsertEmoji(value: string, emoji: string): (r: string)
    ensures (forall p: nat :: !IsTrailingToken(value, p)) ==> r == value
    ensures forall p: nat :: IsMatchStart(value, p) ==> r == value[..p] + emoji + " "
  {
    match TokenStart(value)
    case None => value
    case Some(p) =>
      assert forall q: nat :: IsMatchStart(value, q) ==> q == p by {
        forall q: nat | IsMatchStart(value, q) ensures q == p {
          assert !(q < p) && !(p < q);
        }
      }
      value[..p] + emoji + " "
  }

  /**
   * The usual case: a token typed after a space (or at the very start) is
   * replaced as a whole, and the text before it is kept.
   */
  lemma InsertReplacesTokenAfterSpace(pre: string, query: string, emoji: string)
    requires pre == [] || IsJsWhitespace(pre[|pre| - 1])
    requires forall k :: 0 <= k < |query| ==> !IsJsWhitespace(query[k])
    ensures InsertEmoji(pre + ":" + query, emoji) == pre + emoji + " "
  {
    var s := pre + ":" + query;
    assert s[..|pre|] == pre;
    assert IsTrailingToken(s, |pre|) by {
      assert forall k :: |pre| < k < |s| ==> s[k] == query[k - |pre| - 1];
    }
    forall q | 0 <= q < |pre| ensures !IsTrailingToken(s, q) {
      if q < |pre| - 1 {
        assert IsJsWhitespace(s[|pre| - 1]);
      } else {
        assert s[q] == pre[|pre| - 1];
      }
    }
    assert IsMatchStart(s, |pre|);
  }

  lemma InsertAfterSpaceExample(emoji: string)
    ensures InsertEmoji("hello :sm", emoji) == "hello " + emoji + " "
  {
    InsertReplacesTokenAfterSpace("hello ", "sm", emoji);
    assert "hello " + ":" + "sm" == "hello :sm";
  }

  /** The match begins at the first ':' of the trailing run, not at the last one. */
  lemma InsertFromFirstColonExample(emoji: string)
    ensures InsertEmoji("a:b:c", emoji) == "a" + emoji + " "
  {
    var s := "a:b:c";
    assert IsMatchStart(s, 1) by {
      assert !IsTrailingToken(s, 0) by { assert s[0] != ':'; }
    }
  }

  lemma NoTokenExample(emoji: string)
    ensures InsertEmoji("a: b", emoji) == "a: b"
  {
    var t := "a: b";
    forall q: nat ensures !IsTrailingToken(t, q) {
      if q < 2 { assert IsJsWhitespace(t[2]); }
      else if q < |t| { assert t[q] != ':'; }
    }
  }
}
