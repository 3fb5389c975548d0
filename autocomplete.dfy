/**
 * The emoji autocomplete as the client runs it: variables that its event
 * handlers update in place. Each handler is proved to move the state exactly
 * as the corresponding function of `Navigator` says.
 */
module Autocomplete {
  import opened Wrappers
  import opened EmojiTrigger
  import opened EmojiInsert
  import opened Navigator

  /**
   * The loop that fills the results box: one span per result, in order, and
   * the highlight on the first one; with no results nothing is highlighted.
   */
  method RenderResults(glyphs: seq<string>) returns (spans: seq<string>, highlighted: int)
    ensures spans == glyphs
    ensures highlighted == if glyphs == [] then -1 else 0
  {
    spans := [];
    highlighted := -1;
    for k := 0 to |glyphs|
      invariant spans == glyphs[..k]
      invariant highlighted == if k == 0 then -1 else 0
    {
      if k == 0 {
        highlighted := 0;
      }
      spans := spans + [glyphs[k]];
    }
  }

  class EmojiAutocomplete {
    var selectionMode: bool   // isEmojiSelectionMode
    var shown: bool           // the results box is displayed
    var index: int            // currentEmojiIndex
    var results: seq<string>  // emojiResults, as glyphs
    var spans: seq<string>    // the glyphs of the results box's spans
    var value: string         // the text field's value

    ghost function Model(): Picker
      reads this
    {
      Picker(selectionMode, shown, index, results, spans, value)
    }

    ghost predicate Valid()
      reads this
    {
      Navigator.Valid(Model())
    }

    constructor (value: string)
      ensures Valid() && Model() == Initial(value)
    {
      selectionMode, shown, index := false, false, -1;
      results, spans := [], [];
      this.value := value;
    }

    /** The input handler: the query sent to the search index, if any. */
    method OnInput(newValue: string, cursor: nat, isEmoji: char -> bool) returns (search: Option<string>)
      requires Valid() && cursor <= |newValue|
      modifies this
      ensures Valid()
      ensures InputResult(Model(), search) == Input(old(Model()), newValue, cursor, isEmoji)
    {
      value := newValue;
      match TriggerQuery(newValue, cursor, isEmoji)
      case Some(query) =>
        search := Search(query);
      case None =>
        shown := false;
        selectionMode := false;
        search := None;
    }

    /** `emojiSearch` up to the call of the search index. */
    method Search(query: string) returns (search: Option<string>)
      modifies this
      ensures InputResult(Model(), search) == EmojiSearch(old(Model()), query)
      ensures old(Valid()) ==> Valid()
    {
      if query == [] {
        shown := false;
        selectionMode := false;
        search := None;
      } else {
        search := Some(query);
      }
    }

    /** The search index answers: the results replace the previous ones. */
    method OnResults(glyphs: seq<string>)
      modifies this
      ensures Valid()
      ensures Model() == ResultsArrived(old(Model()), glyphs)
    {
      results := glyphs;
      spans, index := RenderResults(glyphs);
      if glyphs != [] {
        shown := true;
        selectionMode := true;
      } else {
        shown := false;
        selectionMode := false;
      }
    }

    /** A click on the span at `i`. */
    method OnClick(i: int)
      requires 0 <= i < |spans|
      modifies this
      ensures Model() == Click(old(Model()), i)
    {
      value := InsertEmoji(value, spans[i]);
      shown := false;
      selectionMode := false;
    }

    /** The keydown handler of the autocomplete. */
    method OnKeyDown(key: Key)
      requires Valid()
      modifies this
      ensures Valid()
      ensures Model() == KeyDown(old(Model()), key)
    {
      selectionMode := shown && |spans| > 0;
      if selectionMode && IsSelectionKey(key) {
        if key == ArrowDown || key == ArrowRight {
          index := (index + 1) % |spans|;
        } else if key == ArrowUp || key == ArrowLeft {
          index := (index - 1 + |spans|) % |spans|;
        } else if key == Enter || key == Tab {
          OnClick(index);
          selectionMode := false;
        }
      }
    }
  }
}
