/** Whole transfers with the client's timer running (src/co_sdo_client.c). The timer measures
    from the request of the transfer, not from its last progress. */
module SdoTimeout {
  import opened Dictionary
  import opened Values
  import opened SdoFrames
  import opened SdoTransfer
  import opened SdoDownload
  import C = SdoClient
  import S = SdoServer

  function Deadline(c: C.ClientJob): nat {
    c.timestamp + 1000 * SDO_TIMEOUT
  }

  /** co_sdo_client_timer; its abort is sent under the client's own node-ID and does not reach
      the server. */
  function Poll(sys: System, now: nat): System {
    if sys.client.active && now >= Deadline(sys.client) then
      sys.(client := C.Finish(sys.client, C.STATUS_ERROR))
    else sys
  }

  /** Exchanges at these times, each after a look at the timer. */
  function Polled(env: Env, sys: System, times: seq<nat>): System
    requires OdOk(env.od)
    decreases |times|
  {
    if times == [] then sys
    else Polled(env, Exchange(env, Poll(sys, times[0]), times[0]), times[1..])
  }

  predicate Ascending(times: seq<nat>) {
    forall i, j | 0 <= i < j < |times| :: times[i] <= times[j]
  }

  lemma ExchangeKeepsTimestamp(env: Env, sys: System, now: nat)
    requires OdOk(env.od)
    ensures Exchange(env, sys, now).client.timestamp == sys.client.timestamp
    ensures !sys.client.active ==> Exchange(env, sys, now) == sys
  {
    hide OdOk, S.Step, EncodeRequest, EncodeReply, DecodeRequest, DecodeReply;
  }

  lemma {:induction false} StaysFinished(env: Env, sys: System, times: seq<nat>)
    requires OdOk(env.od) && !sys.client.active
    ensures Polled(env, sys, times) == sys && Exchanges(env, sys, times) == sys
    decreases |times|
  {
    hide OdOk, Exchange;
    if times != [] {
      ExchangeKeepsTimestamp(env, sys, times[0]);
      StaysFinished(env, sys, times[1..]);
    }
  }

  /** Before the deadline the timer does nothing. */
  lemma {:induction false} InTime(env: Env, sys: System, times: seq<nat>)
    requires OdOk(env.od) && forall i | 0 <= i < |times| :: times[i] < Deadline(sys.client)
    ensures Polled(env, sys, times) == Exchanges(env, sys, times)
    decreases |times|
  {
    hide OdOk, Exchange;
    if times != [] {
      ExchangeKeepsTimestamp(env, sys, times[0]);
      InTime(env, Exchange(env, sys, times[0]), times[1..]);
    }
  }

  /** A client that gave up. */
  predicate GivenUp(c: C.ClientJob, before: C.ClientJob) {
    !c.active && c.result == C.STATUS_ERROR && c.timestamp == before.timestamp
  }

  /** A transfer that would still need an exchange at or after the deadline is given up, however
      often it has been answered. */
  lemma {:induction false} TooLate(env: Env, sys: System, times: seq<nat>)
    requires OdOk(env.od) && times != [] && Ascending(times) && times[|times| - 1] >= Deadline(sys.client)
    requires Exchanges(env, sys, times[..|times| - 1]).client.active
    ensures GivenUp(Polled(env, sys, times).client, sys.client)
    decreases |times|
  {
    hide OdOk, Exchange;
    var n := |times| - 1;
    if !sys.client.active {
      StaysFinished(env, sys, times[..n]);
    } else if times[0] >= Deadline(sys.client) {
      var given := Poll(sys, times[0]);
      ExchangeKeepsTimestamp(env, given, times[0]);
      StaysFinished(env, given, times[1..]);
    } else {
      ExchangeKeepsTimestamp(env, sys, times[0]);
      assert times[..n][1..] == times[1..][..n - 1];
      TooLate(env, Exchange(env, sys, times[0]), times[1..]);
    }
  }

  lemma BeginKeeps(c: C.ClientJob, s0: S.Server)
    ensures Begin(c, s0).client.timestamp == c.timestamp
  {
  }

  /** An upload of a value that can be read succeeds exactly if its last exchange comes before
      the deadline; it is then as without a timer. */
  lemma UploadSurvivesIff(env: Env, c: C.ClientJob, s0: S.Server, o: Obj, e: Entry, times: seq<nat>)
    requires OdOk(env.od) && StoreOk(env.od, s0.store.mem) && Ready(c, C.Read)
    requires Find(env.od, Key(c.index, c.subindex)) == Some((o, e)) && e.readable && o.index == c.index
    requires if ByteLength(e.bitlength) <= 8 then ReadCode(env, s0.store, o, c.subindex) == 0 else !o.access
    requires Ascending(times) && |times| == Rounds(ByteLength(e.bitlength))
    ensures var end := Polled(env, Begin(c, s0), times);
            var bytes := ObjectBytes(env, s0.store, o, e, c.subindex);
            var inTime := times[|times| - 1] < c.timestamp + 100_000;
            && !end.client.active
            && (end.client.result != C.STATUS_ERROR <==> inTime)
            && (inTime ==> UploadDone(end, c, s0.store, bytes))
  {
    hide OdOk, StoreOk, Find, ReadCode, ObjectBytes, Exchange, Exchanges, Polled, Begin, Limit;
    var n := |times| - 1;
    BeginKeeps(c, s0);
    UploadEndToEnd(env, c, s0, o, e, times);
    UploadEndToEnd(env, c, s0, o, e, times[..n]);
    if times[n] < Deadline(c) {
      InTime(env, Begin(c, s0), times);
    } else {
      TooLate(env, Begin(c, s0), times);
    }
  }

  /** The same for a download: before the deadline it ends as without a timer, after it the
      client reports an error. */
  lemma DownloadSurvivesIff(env: Env, c: C.ClientJob, s0: S.Server, o: Obj, e: Entry, times: seq<nat>)
    requires OdOk(env.od) && StoreOk(env.od, s0.store.mem) && Ready(c, C.Write)
    requires Find(env.od, Key(c.index, c.subindex)) == Some((o, e)) && e.writable
    requires Ascending(times) && |times| == DownloadRounds(o, e, |c.buffer|)
    ensures var end := Polled(env, Begin(c, s0), times);
            var plain := Exchanges(env, Begin(c, s0), times);
            var inTime := times[|times| - 1] < c.timestamp + 100_000;
            && (end.client.result != C.STATUS_ERROR <==> inTime && plain.client.result != C.STATUS_ERROR)
            && (inTime ==> end == plain)
  {
    hide OdOk, StoreOk, Find, Exchange, Exchanges, Polled, Begin, DownloadDone, Underneath;
    var n := |times| - 1;
    BeginKeeps(c, s0);
    DownloadEndToEnd(env, c, s0, o, e, times[..n]);
    if times[n] < Deadline(c) {
      InTime(env, Begin(c, s0), times);
    } else {
      TooLate(env, Begin(c, s0), times);
    }
  }
}
