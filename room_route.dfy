/**
 * The room a page belongs to, read from the address bar's path with the
 * pattern `^/server/(\d+)$` when the script loads.
 */
module RoomRoute {
  import opened Wrappers
  import opened Decimal

  const ServerPrefix: string := "/server/"

  /** The path is `/server/` followed by one or more decimal digits and nothing else. */
  predicate IsRoomPath(path: string)
  {
    |ServerPrefix| < |path| && path[..|ServerPrefix|] == ServerPrefix
    && forall k :: |ServerPrefix| <= k < |path| ==> IsDigit(path[k])
  }

  /** The first digit-free position at or after `k`, walking the path left to right. */
  function DigitRunEnd(s: string, k: nat): (j: nat)
    requires k <= |s|
    ensures k <= j <= |s|
    ensures forall m :: k <= m < j ==> IsDigit(s[m])
    ensures j < |s| ==> !IsDigit(s[j])
    decreases |s| - k
  {
    if k == |s| || !IsDigit(s[k]) then k else DigitRunEnd(s, k + 1)
  }

  /**
   * The room id of a path: the captured digit string exactly when the whole
   * path matches the pattern, and nothing otherwise.
   */
  function ParseRoomId(path: string): (r: Option<string>)
    ensures r.Some? <==> IsRoomPath(path)
    ensures r.Some? ==> path == ServerPrefix + r.value && r.value != [] && AllDigits(r.value)
  {
    var n := |ServerPrefix|;
    if |path| <= n || path[..n] != ServerPrefix then None
    else if DigitRunEnd(path, n) == n || DigitRunEnd(path, n) < |path| then None
    else
      assert path == path[..n] + path[n..];
      Some(path[n..])
  }

  /** Every non-empty digit string id is recovered from the path `/server/` + id. */
  lemma RoomIdOfServerPath(id: string)
    requires id != [] && AllDigits(id)
    ensures ParseRoomId(ServerPrefix + id) == Some(id)
  {
    var path := ServerPrefix + id;
    assert path[..|ServerPrefix|] == ServerPrefix;
    assert path[|ServerPrefix|..] == id;
    assert forall k :: |ServerPrefix| <= k < |path| ==> path[k] == id[k - |ServerPrefix|];
  }

  /** What the page does on load about its room. */
  datatype Action = JoinRoom(roomId: string) | FetchHistory(roomId: string)

  /**
   * A matching path joins its room and then loads that room's history; any
   * other path leaves the room unset and does neither.
   */
  function OnLoad(path: string): (actions: seq<Action>)
    ensures IsRoomPath(path) ==> actions == [JoinRoom(path[|ServerPrefix|..]), FetchHistory(path[|ServerPrefix|..])]
    ensures !IsRoomPath(path) ==> actions == []
  {
    match ParseRoomId(path)
    case Some(id) =>
      assert id == path[|ServerPrefix|..];
      [JoinRoom(id), FetchHistory(id)]
    case None => []
  }

  lemma ExamplePaths()
    ensures ParseRoomId("/server/42") == Some("42")
    ensures ParseRoomId("/server/") == None
    ensures ParseRoomId("/server/42/") == None
    ensures ParseRoomId("/server/4a") == None
    ensures ParseRoomId("/servers/42") == None
  {
    RoomIdOfServerPath("42");
    assert !IsRoomPath("/server/42/") by { assert !IsDigit("/server/42/"[10]); }
    assert !IsRoomPath("/server/4a") by { assert !IsDigit("/server/4a"[9]); }
    assert !IsRoomPath("/servers/42") by { assert "/servers/42"[..8][7] != ServerPrefix[7]; }
  }
}
