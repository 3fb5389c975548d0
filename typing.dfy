/**
 * The typing indicator: the set of users currently typing, kept in the
 * order a JavaScript `Set` keeps (first insertion first), and the line shown
 * for it.
 */
module Typing {
  import opened Wrappers

  predicate NoDuplicates(names: seq<string>)
  {
    forall i, j :: 0 <= i < j < |names| ==> names[i] != names[j]
  }

  /** `set.add(name)`: a new name goes last, a present one changes nothing. */
  function Add(names: seq<string>, name: string): (r: seq<string>)
    ensures forall x :: x in r <==> x in names || x == name
    ensures names <= r
    ensures NoDuplicates(names) ==> NoDuplicates(r)
  {
    if name in names then names else names + [name]
  }

  /** The position of the first occurrence of `name`. */
  function IndexOf(names: seq<string>, name: string): (k: nat)
    requires name in names
    ensures k < |names| && names[k] == name && name !in names[..k]
  {
    if names[0] == name then 0 else 1 + IndexOf(names[1..], name)
  }

  /** `set.delete(name)`: the name leaves from where it stood, the others keep their order. */
  function Delete(names: seq<string>, name: string): (r: seq<string>)
    ensures forall x :: x in r <==> x in names && x != name
    ensures NoDuplicates(names) ==> NoDuplicates(r)
    ensures NoDuplicates(names) && name in names ==> |r| == |names| - 1
    ensures name !in names ==> r == names
    ensures NoDuplicates(names) && name in names ==>
      r == names[..IndexOf(names, name)] + names[IndexOf(names, name) + 1..]
  {
    if names == [] then []
    else
      var rest := Delete(names[1..], name);
      if names[0] == name then
        DeleteHead(names, name, rest);
        rest
      else
        DeleteAfterHead(names, name, rest);
        [names[0]] + rest
  }

  /** `r` is `names` with `name` deleted, as the contract of `Delete` says. */
  ghost predicate IsDeletion(names: seq<string>, name: string, r: seq<string>)
  {
    && (forall x :: x in r <==> x in names && x != name)
    && (NoDuplicates(names) ==> NoDuplicates(r))
    && (NoDuplicates(names) && name in names ==> |r| == |names| - 1)
    && (name !in names ==> r == names)
    && (NoDuplicates(names) && name in names ==>
          r == names[..IndexOf(names, name)] + names[IndexOf(names, name) + 1..])
  }

  /** Without duplicates, the tail holds neither the head nor, so, any duplicate. */
  lemma TailOfNoDuplicates(names: seq<string>)
    requires names != [] && NoDuplicates(names)
    ensures NoDuplicates(names[1..]) && names[0] !in names[1..]
  {
    forall k | 0 <= k < |names[1..]| ensures names[1..][k] != names[0] {
      assert names[k + 1] != names[0];
    }
  }

  /** Deleting the head name: the deletion from the tail is the deletion from the whole. */
  lemma DeleteHead(names: seq<string>, name: string, rest: seq<string>)
    requires names != [] && names[0] == name && IsDeletion(names[1..], name, rest)
    ensures IsDeletion(names, name, rest)
  {
    if NoDuplicates(names) {
      TailOfNoDuplicates(names);
    }
  }

  /** Keeping a head that is not the name in front of the deletion from the tail. */
  lemma DeleteAfterHead(names: seq<string>, name: string, rest: seq<string>)
    requires names != [] && names[0] != name && IsDeletion(names[1..], name, rest)
    ensures IsDeletion(names, name, [names[0]] + rest)
  {
    var tail := names[1..];
    assert names == [names[0]] + tail;
    if NoDuplicates(names) {
      TailOfNoDuplicates(names);
      if name in names {
        var j := IndexOf(tail, name);
        assert IndexOf(names, name) == j + 1;
        assert names[..j + 1] == [names[0]] + tail[..j];
        assert names[j + 2..] == tail[j + 1..];
      }
    }
  }

  /** Adding a name that was absent and deleting it again gives back the same set, in the same order. */
  lemma {:induction false} DeleteUndoesAdd(names: seq<string>, name: string)
    requires name !in names
    ensures Delete(Add(names, name), name) == names
  {
    if names != [] {
      DeleteUndoesAdd(names[1..], name);
      assert (names + [name])[1..] == names[1..] + [name];
    }
  }

  /** `Array.from(set).join(", ")`. */
  function Join(names: seq<string>): string
  {
    if names == [] then []
    else if |names| == 1 then names[0]
    else names[0] + ", " + Join(names[1..])
  }

  /** A name added to a non-empty set appears after a comma at the end of the joined names. */
  lemma {:induction false} JoinAppend(names: seq<string>, name: string)
    requires names != []
    ensures Join(names + [name]) == Join(names) + ", " + name
  {
    if |names| > 1 {
      assert (names + [name])[1..] == names[1..] + [name];
      JoinAppend(names[1..], name);
    } else {
      assert (names + [name])[1..] == [name];
    }
  }

  /**
   * The indicator: hidden when nobody types, otherwise the names with "is"
   * for one user and "are" for several.
   */
  function IndicatorText(names: seq<string>): (r: Option<string>)
    ensures r.None? <==> names == []
    ensures |names| == 1 ==> r == Some(names[0] + " is typing...")
    ensures 2 <= |names| ==> r == Some(Join(names) + " are typing...")
  {
    assert Join(names) + " is" + " typing..." == Join(names) + " is typing...";
    assert Join(names) + " are" + " typing..." == Join(names) + " are typing...";
    if |names| > 0 then Some(Join(names) + (if |names| == 1 then " is" else " are") + " typing...")
    else None
  }

  /** A second typist turns "x is typing..." into "x, y are typing...". */
  lemma {:induction false} SecondTypist(first: string, second: string)
    requires first != second
    ensures IndicatorText(Add([first], second)) == Some(first + ", " + second + " are typing...")
  {
    JoinAppend([first], second);
    assert Join([first] + [second]) + " are" + " typing..." == first + ", " + second + " are typing...";
  }

  class TypingIndicator {
    var currentlyTyping: seq<string>

    ghost predicate Valid()
      reads this
    {
      NoDuplicates(currentlyTyping)
    }

    constructor ()
      ensures Valid() && currentlyTyping == []
    {
      currentlyTyping := [];
    }

    /** A `typing` event for `username`; the indicator's text, or nothing when it is hidden. */
    method OnTyping(username: string, typing: bool) returns (text: Option<string>)
      requires Valid()
      modifies this
      ensures Valid()
      ensures currentlyTyping == if typing then Add(old(currentlyTyping), username)
                                 else Delete(old(currentlyTyping), username)
      ensures text == IndicatorText(currentlyTyping)
    {
      if typing {
        currentlyTyping := Add(currentlyTyping, username);
      } else {
        currentlyTyping := Delete(currentlyTyping, username);
      }
      text := IndicatorText(currentlyTyping);
    }
  }
}
