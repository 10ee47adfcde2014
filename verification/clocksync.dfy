/** Clock synchronisation of the main page: the offset between the
    server's clock and the browser's wall clock, replaced by a successful
    request to the time endpoint, and the corrected instant the clock
    display shows. The wall-clock reading `Date.now()` is the parameter
    `nowMs`; the response of the request is the parameter `resp`. */
module ClockSync {
  import opened Optional

  /** A JavaScript number holding whole milliseconds, or NaN. */
  datatype Millis = Finite(ms: int) | NaN

  /** The offset when the page loads. */
  const InitialOffset := Finite(0)

  /** How the request to the time endpoint ended: a response whose status
      is not OK, an exception (network failure, a body that is not JSON),
      or a JSON body, of which only `Number(data.server_unix_ms)` matters:
      a whole number of milliseconds, or None when it is NaN. */
  datatype Response = NotOk | Threw | Received(serverMs: Option<int>)

  /** The new offset and whether the page reports the sync as done. */
  datatype SyncResult = SyncResult(offset: Millis, synced: bool)

  /** `syncServerTime` as written: any JSON body counts as a success and
      its offset is `serverMs - nowMs`, with `nowMs` read after the
      response arrived. A body whose field is not a number therefore
      stores NaN. A non-OK status or an exception keeps the offset. */
  function SyncAsWritten(offset: Millis, resp: Response, nowMs: int): (r: SyncResult)
    ensures r.synced <==> resp.Received?
    ensures !resp.Received? ==> r.offset == offset
    ensures resp.Received? && resp.serverMs.Some? ==> r.offset == Finite(resp.serverMs.value - nowMs)
    ensures resp.Received? && resp.serverMs.None? ==> r.offset == NaN
  {
    match resp
    case Received(Some(server)) => SyncResult(Finite(server - nowMs), true)
    case Received(None) => SyncResult(NaN, true)
    case _ => SyncResult(offset, false)
  }

  /** `syncServerTime` with a field that is not a number treated like the
      other failures: the offset is replaced only by a numeric server
      time, and left as it was otherwise. */
  function Sync(offset: Millis, resp: Response, nowMs: int): (r: SyncResult)
    ensures r.synced <==> resp.Received? && resp.serverMs.Some?
    ensures r.synced ==> r.offset == Finite(resp.serverMs.value - nowMs)
    ensures !r.synced ==> r.offset == offset
  {
    match resp
    case Received(Some(server)) => SyncResult(Finite(server - nowMs), true)
    case _ => SyncResult(offset, false)
  }

  /** The two agree on every response except a body with a non-numeric
      field. */
  lemma SyncAgreesOnNumbers(offset: Millis, resp: Response, nowMs: int)
    requires !(resp.Received? && resp.serverMs.None?)
    ensures Sync(offset, resp, nowMs) == SyncAsWritten(offset, resp, nowMs)
  {
  }

  /** The instant `updateTimeDisplay` formats: `Date.now() + offsetMs`;
      None stands for the invalid date a NaN offset produces. */
  function DisplayInstant(nowMs: int, offset: Millis): (r: Option<int>)
    ensures offset.Finite? <==> r.Some?
    ensures offset.Finite? ==> r.value - nowMs == offset.ms
  {
    match offset
    case Finite(ms) => Some(nowMs + ms)
    case NaN => None
  }

  /** After a successful sync the display runs on the server's clock:
      at any later local reading it shows the server time plus the local
      time passed since the response. */
  lemma DisplayFollowsServer(offset: Millis, server: int, syncedAt: int, nowMs: int)
    ensures DisplayInstant(nowMs, Sync(offset, Received(Some(server)), syncedAt).offset)
         == Some(server + (nowMs - syncedAt))
  {
  }

  /** Syncs applied in order, each with the local reading at its arrival. */
  function SyncAll(offset: Millis, resps: seq<(Response, int)>): Millis
    decreases |resps|
  {
    if resps == [] then offset
    else SyncAll(Sync(offset, resps[0].0, resps[0].1).offset, resps[1..])
  }

  /** A finite offset stays finite through any sequence of syncs, so the
      display always has a valid instant. */
  lemma {:induction false} SyncAllFinite(offset: Millis, resps: seq<(Response, int)>)
    requires offset.Finite?
    ensures SyncAll(offset, resps).Finite?
    decreases |resps|
  {
    if resps != [] {
      SyncAllFinite(Sync(offset, resps[0].0, resps[0].1).offset, resps[1..]);
    }
  }

  /** Whether a response replaces the offset in the corrected sync. */
  predicate Succeeds(resp: Response) {
    resp.Received? && resp.serverMs.Some?
  }

  /** With no successful sync the offset stays the starting one. */
  lemma {:induction false} SyncAllNoSuccess(offset: Millis, resps: seq<(Response, int)>)
    requires forall i :: 0 <= i < |resps| ==> !Succeeds(resps[i].0)
    ensures SyncAll(offset, resps) == offset
    decreases |resps|
  {
    if resps != [] {
      assert !Succeeds(resps[0].0);
      var tail := resps[1..];
      forall i | 0 <= i < |tail|
        ensures !Succeeds(tail[i].0)
      {
        assert tail[i] == resps[i + 1];
      }
      SyncAllNoSuccess(offset, tail);
    }
  }

  /** After any sequence of syncs the offset is the one set by the last
      successful sync, the `k`-th, whatever failures follow it. */
  lemma {:induction false} SyncAllLastSuccess(offset: Millis, resps: seq<(Response, int)>, k: nat)
    requires k < |resps| && Succeeds(resps[k].0)
    requires forall j :: k < j < |resps| ==> !Succeeds(resps[j].0)
    ensures SyncAll(offset, resps) == Finite(resps[k].0.serverMs.value - resps[k].1)
    decreases |resps|
  {
    var next := Sync(offset, resps[0].0, resps[0].1).offset;
    var tail := resps[1..];
    if k == 0 {
      forall i | 0 <= i < |tail|
        ensures !Succeeds(tail[i].0)
      {
        assert tail[i] == resps[i + 1];
      }
      SyncAllNoSuccess(next, tail);
    } else {
      assert tail[k - 1] == resps[k];
      forall j | k - 1 < j < |tail|
        ensures !Succeeds(tail[j].0)
      {
        assert tail[j] == resps[j + 1];
      }
      SyncAllLastSuccess(next, tail, k - 1);
    }
  }

  /** As written, a body without a numeric `server_unix_ms` reports
      success and leaves a NaN offset, after which the display has no
      valid instant. */
  lemma NonNumericFieldPoisonsOffset(nowMs: int, later: int)
    ensures SyncAsWritten(InitialOffset, Received(None), nowMs) == SyncResult(NaN, true)
    ensures DisplayInstant(later, SyncAsWritten(InitialOffset, Received(None), nowMs).offset) == None
  {
  }
}
