/**
 * The emoji picker's state as values: the selection flag, whether the results
 * box is displayed, the highlighted index, the results and the spans rendered
 * for them, and the text field's value. Each event of the client is a
 * function from the state before to the state after.
 */
module Navigator {
  import opened Wrappers
  import opened EmojiTrigger
  import opened EmojiInsert
  import opened JsText

  /** The `key` value of any key the handler does not name. */
  type OtherKeyName = s: string | s !in {"ArrowDown", "ArrowUp", "ArrowLeft", "ArrowRight", "Enter", "Tab"} witness "a"

  /** The keys the keydown handler distinguishes. */
  datatype Key = ArrowDown | ArrowUp | ArrowLeft | ArrowRight | Enter | Tab | OtherKey(name: OtherKeyName)

  /** The keys the handler acts on in selection mode; the left and right arrows are not among them. */
  predicate IsSelectionKey(key: Key)
    ensures key.ArrowLeft? || key.ArrowRight? || key.OtherKey? ==> !IsSelectionKey(key)
  {
    key.ArrowDown? || key.ArrowUp? || key.Enter? || key.Tab?
  }

  /** A key the handler does not name is none of the keys it tests for. */
  lemma OtherKeyIsUnnamed(key: Key)
    requires key.OtherKey?
    ensures key.name != "Enter" && key.name != "Tab" && key.name != "ArrowDown" && key.name != "ArrowUp"
    ensures key.name != "ArrowLeft" && key.name != "ArrowRight"
  {
  }

  /** One step down the results with wrap-around; the operands are never negative, so `%` agrees with the client's. */
  function Forward(i: int, n: int): (r: int)
    requires 0 <= i < n
    ensures 0 <= r < n
    ensures r == if i == n - 1 then 0 else i + 1
  {
    (i + 1) % n
  }

  /** One step up the results with wrap-around. */
  function Backward(i: int, n: int): (r: int)
    requires 0 <= i < n
    ensures 0 <= r < n
    ensures r == if i == 0 then n - 1 else i - 1
  {
    (i - 1 + n) % n
  }

  lemma BackwardUndoesForward(i: int, n: int)
    requires 0 <= i < n
    ensures Backward(Forward(i, n), n) == i
    ensures Forward(Backward(i, n), n) == i
  {
  }

  /** The index reached from the first result after `steps` steps down. */
  function ForwardSteps(n: int, steps: nat): (r: int)
    requires 0 < n
    ensures 0 <= r < n
  {
    if steps == 0 then 0 else Forward(ForwardSteps(n, steps - 1), n)
  }

  lemma {:induction false} MulAtLeast(x: int, n: int)
    requires 1 <= x && 0 < n
    ensures n <= x * n
    decreases x
  {
    if x > 1 {
      MulAtLeast(x - 1, n);
      assert x * n == (x - 1) * n + n;
    }
  }

  /** A quotient and a remainder in range determine the remainder `%` gives. */
  lemma ModOfDecomposition(a: int, n: int, q: int, r: int)
    requires 0 < n && 0 <= r < n && a == q * n + r
    ensures a % n == r
  {
    var q', r' := a / n, a % n;
    assert a == q' * n + r';
    if q' < q {
      assert q * n - q' * n == (q - q') * n;
      MulAtLeast(q - q', n);
    } else if q < q' {
      assert q' * n - q * n == (q' - q) * n;
      MulAtLeast(q' - q, n);
    }
  }

  /** The remainder of a successor steps up by one and wraps at `n`. */
  lemma ModOfSuccessor(a: nat, n: int)
    requires 0 < n
    ensures (a + 1) % n == if a % n == n - 1 then 0 else a % n + 1
  {
    var q, r := a / n, a % n;
    assert a == q * n + r;
    if r == n - 1 {
      assert a + 1 == (q + 1) * n + 0;
      ModOfDecomposition(a + 1, n, q + 1, 0);
    } else {
      ModOfDecomposition(a + 1, n, q, r + 1);
    }
  }

  /** After `steps` steps down from the first of `n` results the index is `steps mod n`. */
  lemma {:induction false} ForwardStepsIsModulo(n: int, steps: nat)
    requires 0 < n
    ensures ForwardSteps(n, steps) == steps % n
  {
    if steps > 0 {
      ForwardStepsIsModulo(n, steps - 1);
      ModOfSuccessor(steps - 1, n);
    }
  }

  /** The picker's state. */
  datatype Picker = Picker(
    selectionMode: bool,   // isEmojiSelectionMode
    shown: bool,           // the results box is displayed
    index: int,            // currentEmojiIndex
    results: seq<string>,  // emojiResults, as glyphs
    spans: seq<string>,    // the glyphs of the spans in the results box
    value: string          // the text field's value
  )

  /**
   * What every reachable state satisfies: the box shows one span per result,
   * the index is -1 exactly when there are no results and otherwise points at
   * one, a displayed box is never empty, and the selection flag is on exactly
   * while the box is displayed.
   */
  predicate Valid(p: Picker)
  {
    && p.spans == p.results
    && -1 <= p.index < |p.results|
    && (p.index == -1 <==> p.results == [])
    && (p.shown ==> p.results != [])
    && p.selectionMode == p.shown
  }

  /** The state when the page has loaded. */
  function Initial(value: string): (p: Picker)
    ensures Valid(p) && !p.selectionMode && !p.shown && p.results == [] && p.value == value
  {
    Picker(false, false, -1, [], [], value)
  }

  /**
   * A search's results arrive: they replace the previous ones, whatever query
   * they answer; a non-empty list is displayed with its first entry
   * highlighted and selection on, an empty one hides the box and turns
   * selection off.
   */
  function ResultsArrived(p: Picker, glyphs: seq<string>): (q: Picker)
    ensures Valid(q)
    ensures q.results == glyphs && q.spans == glyphs && q.value == p.value
    ensures glyphs != [] ==> q.selectionMode && q.shown && q.index == 0
    ensures glyphs == [] ==> !q.selectionMode && !q.shown && q.index == -1
  {
    var index := if glyphs == [] then -1 else 0;
    Picker(glyphs != [], glyphs != [], index, glyphs, glyphs, p.value)
  }

  /** The state after an input event, and the query sent to the search index, if any. */
  datatype InputResult = InputResult(state: Picker, search: Option<string>)

  /**
   * An input event: a non-empty trigger query is sent to the search index and
   * nothing else changes until its results arrive; no trigger, or an empty
   * query, hides the box and turns selection off without searching.
   */
  function Input(p: Picker, value: string, cursor: nat, isEmoji: char -> bool): (r: InputResult)
    requires cursor <= |value|
    ensures r.search.Some? <==> TriggerQuery(value, cursor, isEmoji).Some? && TriggerQuery(value, cursor, isEmoji).value != []
    ensures r.search.Some? ==> r.search == TriggerQuery(value, cursor, isEmoji) && r.state == p.(value := value)
    ensures r.search.None? ==> r.state == p.(value := value, selectionMode := false, shown := false)
    ensures Valid(p) ==> Valid(r.state)
  {
    var p1 := p.(value := value);
    match TriggerQuery(value, cursor, isEmoji)
    case Some(query) => EmojiSearch(p1, query)
    case None => InputResult(p1.(shown := false, selectionMode := false), None)
  }

  /** `emojiSearch` up to the call of the search index: an empty query only turns selection off. */
  function EmojiSearch(p: Picker, query: string): (r: InputResult)
    ensures query == [] ==> r == InputResult(p.(shown := false, selectionMode := false), None)
    ensures query != [] ==> r == InputResult(p, Some(query))
    ensures Valid(p) ==> Valid(r.state)
  {
    if query == [] then InputResult(p.(shown := false, selectionMode := false), None)
    else InputResult(p, Some(query))
  }

  /**
   * A click on the span at `i`: its glyph is inserted into the value, the box
   * is hidden and selection is off; the results and the index stay.
   */
  function Click(p: Picker, i: int): (q: Picker)
    requires 0 <= i < |p.spans|
    ensures q.value == InsertEmoji(p.value, p.spans[i])
    ensures !q.shown && !q.selectionMode
    ensures q.index == p.index && q.results == p.results && q.spans == p.spans
    ensures Valid(p) ==> Valid(q)
  {
    p.(value := InsertEmoji(p.value, p.spans[i]), shown := false, selectionMode := false)
  }

  /**
   * A keydown event. While the box is displayed, Down and Up move the
   * highlight with wrap-around, and Enter or Tab commit the highlighted glyph
   * as a click would; any other key, and any key while the box is hidden,
   * leaves the state as it is.
   */
  function KeyDown(p: Picker, key: Key): (q: Picker)
    requires Valid(p)
    ensures Valid(q)
    ensures !p.shown || !IsSelectionKey(key) ==> q == p
    ensures p.shown && key.ArrowDown? ==> q == p.(index := Forward(p.index, |p.results|))
    ensures p.shown && key.ArrowUp? ==> q == p.(index := Backward(p.index, |p.results|))
    ensures p.shown && (key.Enter? || key.Tab?) ==> q == Click(p, p.index)
  {
    var p1 := p.(selectionMode := p.shown && |p.spans| > 0);
    if p1.selectionMode && IsSelectionKey(key) then
      if key.ArrowDown? || key.ArrowRight? then p1.(index := Forward(p1.index, |p1.spans|))
      else if key.ArrowUp? || key.ArrowLeft? then p1.(index := Backward(p1.index, |p1.spans|))
      else Click(p1, p1.index).(selectionMode := false)
    else p1
  }

  /** Down then Up over displayed results gives back the state before, and so does Up then Down. */
  lemma DownThenUpRestores(p: Picker)
    requires Valid(p) && p.shown
    ensures KeyDown(KeyDown(p, ArrowDown), ArrowUp) == p
    ensures KeyDown(KeyDown(p, ArrowUp), ArrowDown) == p
  {
    BackwardUndoesForward(p.index, |p.results|);
  }

  /** The state after pressing the same key `n` times. */
  function Presses(p: Picker, key: Key, n: nat): (q: Picker)
    requires Valid(p)
    ensures Valid(q)
  {
    if n == 0 then p else KeyDown(Presses(p, key, n - 1), key)
  }

  /**
   * Once results have arrived, `n` presses of Down highlight the entry at
   * `n mod k` of the `k` results, and leave everything else as it was.
   */
  lemma {:induction false} DownPressesAfterArrival(p: Picker, glyphs: seq<string>, n: nat)
    requires glyphs != []
    ensures Presses(ResultsArrived(p, glyphs), ArrowDown, n)
         == ResultsArrived(p, glyphs).(index := n % |glyphs|)
  {
    var a := ResultsArrived(p, glyphs);
    DownPressesFromFirst(a, n);
    ForwardStepsIsModulo(|glyphs|, n);
  }

  lemma {:induction false} DownPressesFromFirst(a: Picker, n: nat)
    requires Valid(a) && a.shown && a.index == 0
    ensures Presses(a, ArrowDown, n) == a.(index := ForwardSteps(|a.results|, n))
  {
    if n > 0 {
      DownPressesFromFirst(a, n - 1);
    }
  }

  /** Enter with no results, or with the box hidden, changes nothing. */
  lemma CommitWithoutResultsIsNoOp(p: Picker)
    requires Valid(p) && (p.results == [] || !p.shown)
    ensures KeyDown(p, Enter) == p && KeyDown(p, Tab) == p
  {
  }

  /** A search's arrival followed by Enter inserts the first result and ends selection. */
  lemma EnterAfterArrivalInsertsFirst(p: Picker, glyphs: seq<string>)
    requires glyphs != []
    ensures KeyDown(ResultsArrived(p, glyphs), Enter).value == InsertEmoji(p.value, glyphs[0])
    ensures !KeyDown(ResultsArrived(p, glyphs), Enter).selectionMode
  {
  }

  /**
   * The glyph goes where the value's trailing token is, not where the cursor
   * is: with the cursor after ":sm" at the start of ":sm hello" the query is
   * "sm", yet committing the glyph leaves the value unchanged.
   */
  lemma CommitInsertsAtEndNotAtCursor(p: Picker, glyph: string)
    ensures Input(p, ":sm hello", 3, c => false).search == Some("sm")
    ensures var s := Input(p, ":sm hello", 3, c => false).state;
            KeyDown(ResultsArrived(s, [glyph]), Enter).value == ":sm hello"
  {
    QueryBeforeCursorExample();
    NoTrailingTokenExample(glyph);
  }

  /** With the cursor after ":sm" the query is "sm", whatever follows the cursor. */
  lemma QueryBeforeCursorExample()
    ensures TriggerQuery(":sm hello", 3, c => false) == Some("sm")
  {
    var v := ":sm hello";
    var before := v[..3];
    assert before == ":sm";
    assert LastIndexOf(before, ':') == 0 by {
      assert before[1..] == "sm";
    }
    assert before[1..] == "sm";
    assert !CursorNextToEmoji(v, 3, c => false);
  }

  /** ":sm hello" ends in no ':'-token, so inserting leaves it alone. */
  lemma NoTrailingTokenExample(glyph: string)
    ensures InsertEmoji(":sm hello", glyph) == ":sm hello"
  {
    var v := ":sm hello";
    forall q: nat ensures !IsTrailingToken(v, q) {
      if q < 3 { assert IsJsWhitespace(v[3]); }
      else if q < |v| { assert v[q] != ':'; }
    }
  }
}
