/**
 * The input handler of the emoji autocomplete: from the field's value and
 * its cursor it decides whether the text just before the cursor is a `:query`
 * token to look up. The emoji test on a character (the Unicode Emoji property
 * or the zero-width joiner) is a parameter `isEmoji`.
 */
module EmojiTrigger {
  import opened Wrappers
  import opened JsText

  /**
   * The character just before or just after the cursor passes the emoji test.
   * A missing neighbour counts as no emoji: there the client tests the string
   * "undefined", which holds no emoji character.
   */
  predicate CursorNextToEmoji(value: string, cursor: nat, isEmoji: char -> bool)
    requires cursor <= |value|
    ensures CursorNextToEmoji(value, cursor, isEmoji) <==>
      exists j :: cursor - 1 <= j <= cursor && 0 <= j < |value| && isEmoji(value[j])
  {
    (0 < cursor && isEmoji(value[cursor - 1])) || (cursor < |value| && isEmoji(value[cursor]))
  }

  /** What one input event decides: hide the results, or search for a query. */
  datatype Outcome = Dismiss | Search(query: string)

  /**
   * The decision exactly as the handler computes it: `lastIndexOf` may give
   * -1, and `slice(-1)` then takes the last character before the cursor.
   */
  function InputOutcome(value: string, cursor: nat, isEmoji: char -> bool): (r: Outcome)
    requires cursor <= |value|
    ensures r.Search? ==> ':' in value && !CursorNextToEmoji(value, cursor, isEmoji)
    ensures r.Search? ==> |r.query| <= cursor && value[cursor - |r.query|..cursor] == r.query
    ensures ':' !in value || CursorNextToEmoji(value, cursor, isEmoji) ==> r == Dismiss
  {
    var before := value[..cursor];
    var lastColon := LastIndexOf(before, ':');
    if ':' in value && !CursorNextToEmoji(value, cursor, isEmoji) && ' ' !in SliceFrom(before, lastColon)
    then Search(SliceFrom(before, lastColon + 1))
    else Dismiss
  }

  /** `p` holds the last ':' before the cursor. */
  predicate IsLastColon(value: string, cursor: nat, p: int)
    requires cursor <= |value|
  {
    0 <= p < cursor && value[p] == ':' && ':' !in value[p + 1..cursor]
  }

  /**
   * The trigger the handler is meant to compute: when a ':' comes before the
   * cursor, the cursor has no emoji beside it and no space lies between the
   * last such ':' and the cursor, the query is the text strictly between them.
   */
  function TriggerQuery(value: string, cursor: nat, isEmoji: char -> bool): (r: Option<string>)
    requires cursor <= |value|
    ensures r.Some? ==>
      && !CursorNextToEmoji(value, cursor, isEmoji)
      && |r.value| < cursor
      && IsLastColon(value, cursor, cursor - |r.value| - 1)
      && value[cursor - |r.value|..cursor] == r.value
      && ' ' !in r.value
    ensures r.None? ==>
      || CursorNextToEmoji(value, cursor, isEmoji)
      || ':' !in value[..cursor]
      || forall p :: IsLastColon(value, cursor, p) ==> ' ' in value[p + 1..cursor]
  {
    var before := value[..cursor];
    var lastColon := LastIndexOf(before, ':');
    LastColonIsUnique(value, cursor);
    assert 0 <= lastColon ==> value[lastColon + 1..cursor] == before[lastColon + 1..];
    if lastColon < 0 || CursorNextToEmoji(value, cursor, isEmoji) || ' ' in before[lastColon + 1..] then None
    else Some(before[lastColon + 1..])
  }

  /** The last ':' before the cursor is the one `lastIndexOf` finds. */
  lemma LastColonIsUnique(value: string, cursor: nat)
    requires cursor <= |value|
    ensures forall p :: IsLastColon(value, cursor, p) ==> p == LastIndexOf(value[..cursor], ':')
  {
    var before := value[..cursor];
    var lastColon := LastIndexOf(before, ':');
    forall p | IsLastColon(value, cursor, p) ensures p == lastColon {
      assert before[p] == ':';
    }
  }

  /**
   * Whenever a ':' comes before the cursor, the handler as written decides
   * exactly what the trigger says.
   */
  lemma InputOutcomeAgreesWithTrigger(value: string, cursor: nat, isEmoji: char -> bool)
    requires cursor <= |value|
    requires ':' in value[..cursor]
    ensures InputOutcome(value, cursor, isEmoji)
         == match TriggerQuery(value, cursor, isEmoji)
            case Some(q) => Search(q)
            case None => Dismiss
  {
    var before := value[..cursor];
    var lastColon := LastIndexOf(before, ':');
    assert ':' in value by { assert value[..cursor] <= value; }
    assert SliceFrom(before, lastColon) == [':'] + before[lastColon + 1..];
  }

  /**
   * As written, a ':' after the cursor with none before it still starts a
   * search, for the whole text before the cursor, spaces included.
   */
  lemma ColonAfterCursorSearchesAllText()
    ensures InputOutcome("a b:", 3, c => false) == Search("a b")
    ensures TriggerQuery("a b:", 3, c => false) == None
  {
    var before := "a b:"[..3];
    assert before == "a b";
    assert ':' !in before;
    assert SliceFrom(before, -1) == "b";
  }

  /**
   * As written, for every value whose only ':'s come after the cursor and
   * whose cursor has no emoji beside it, the handler searches for the whole
   * text before the cursor unless its last character is a space; the trigger
   * it is meant to compute gives no query there.
   */
  lemma ColonOnlyAfterCursorSearchesBefore(value: string, cursor: nat, isEmoji: char -> bool)
    requires cursor <= |value|
    requires ':' in value && ':' !in value[..cursor] && !CursorNextToEmoji(value, cursor, isEmoji)
    ensures InputOutcome(value, cursor, isEmoji)
         == if 0 < cursor && value[cursor - 1] == ' ' then Dismiss else Search(value[..cursor])
    ensures TriggerQuery(value, cursor, isEmoji).None?
  {
    var before := value[..cursor];
    assert LastIndexOf(before, ':') == -1;
    assert SliceFrom(before, 0) == before;
    if 0 < cursor {
      assert SliceFrom(before, -1) == [value[cursor - 1]];
    } else {
      assert SliceFrom(before, -1) == [];
    }
  }

  /** With several ':'s before the cursor, the query is what follows the last of them. */
  lemma LastColonQueryExample()
    ensures TriggerQuery("a:b:c", 5, c => false) == Some("c")
  {
    var v := "a:b:c";
    assert v[..5] == v;
    assert LastIndexOf(v, ':') == 3 by {
      assert v[4..] == "c";
    }
    assert v[4..] == "c";
  }
}
