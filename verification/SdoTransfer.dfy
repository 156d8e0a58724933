/** Whole transfers: the client and the server, written independently, run against each other
    over a lossless channel carrying the encoded frames. */
module SdoTransfer {
  import opened Bytes
  import opened Dictionary
  import opened Values
  import opened SdoFrames
  import C = SdoClient
  import S = SdoServer

  /** A client, a server, and the request on its way. */
  datatype System = System(client: C.ClientJob, server: S.Server, request: Option<Frame>)

  /** Start a transfer: the first request is on its way. */
  function Begin(c: C.ClientJob, s: S.Server): System {
    var (c', r) := C.Issue(c);
    System(c', s, Some(EncodeRequest(r)))
  }

  /** The server handles the request, the client handles the reply. */
  function Exchange(env: Env, sys: System, now: nat): System
    requires OdOk(env.od)
  {
    if sys.request.None? || !sys.client.active then sys
    else
      var (s, reply) := S.Step(env, sys.server, DecodeRequest(sys.request.value), now);
      match reply
      case None => System(sys.client, s, None)
      case Some(r) =>
        var (c, out) := C.Step(sys.client, DecodeReply(EncodeReply(r)));
        System(c, s, if out.Send? then Some(EncodeRequest(out.request)) else None)
  }

  /** One exchange for each time in `times`. */
  function Exchanges(env: Env, sys: System, times: seq<nat>): System
    requires OdOk(env.od)
    decreases |times|
  {
    if times == [] then sys else Exchanges(env, Exchange(env, sys, times[0]), times[1..])
  }

  /** Frames are transparent: an exchange is a step of the server and a step of the client. */
  lemma ExchangeSteps(env: Env, c: C.ClientJob, s: S.Server, r: ClientRequest, now: nat)
    requires OdOk(env.od) && c.active && S.Step(env, s, r, now).1.Some?
    ensures var (s', reply) := S.Step(env, s, r, now);
            var (c', out) := C.Step(c, reply.value);
            Exchange(env, System(c, s, Some(EncodeRequest(r))), now)
            == System(c', s', if out.Send? then Some(EncodeRequest(out.request)) else None)
  {
    RequestRoundTrip(r);
    ReplyRoundTrip(S.Step(env, s, r, now).1.value);
    hide OdOk, S.Step, C.Step, EncodeRequest, EncodeReply, DecodeRequest, DecodeReply;
  }

  /** How many segments carry `n` bytes. */
  function Segments(n: nat): nat {
    (n + 6) / 7
  }

  function Odd(k: nat): bool {
    k % 2 == 1
  }

  /** A client about to transfer a whole buffer. */
  predicate Ready(c: C.ClientJob, kind: C.ClientKind) {
    c.kind == kind && c.pos == 0 && c.remain == |c.buffer|
  }

  // ----- upload

  /** The bytes of a value as an upload reads them. */
  function ObjectBytes(env: Env, st: Store, o: Obj, e: Entry, subindex: nat): Data {
    var size := ByteLength(e.bitlength);
    if size <= 8 then ToLe(Number(env, st, o, e, subindex), size) else Memory(st, Key(o.index, subindex))
  }

  /** The server has `bytes[7 * k..]` left to send. */
  ghost predicate Sending(s: S.Server, st: Store, bytes: Data, k: nat) {
    && s.store == st && s.job.toggle == Odd(k)
    && 7 * k < |bytes| && s.job.remain == |bytes| - 7 * k
    && S.CursorOk(s)
    && S.Fetch(s, |bytes| - 7 * k) == bytes[7 * k..]
  }

  /** The client has received `k` segments and wants no more than `limit` bytes. */
  ghost predicate Receiving(c: C.ClientJob, c0: C.ClientJob, bytes: Data, limit: nat, k: nat) {
    var done := Min(7 * k, limit);
    && limit <= |bytes| && limit <= |c0.buffer|
    && c == c0.(active := true, buffer := bytes[..done] + c0.buffer[done..],
                pos := done, remain := limit - done, total := done, toggle := Odd(k))
  }

  ghost predicate Received(c: C.ClientJob, c0: C.ClientJob, bytes: Data, limit: nat) {
    && limit <= |bytes| && limit <= |c0.buffer| && c.buffer == bytes[..limit] + c0.buffer[limit..]
    && !c.active && c.result == limit && c.calls == c0.calls + 1
  }

  /** The `k`-th segment of an upload. */
  function Segment(bytes: Data, k: nat): Reply
    requires 7 * k < |bytes|
  {
    var n := Min(|bytes| - 7 * k, 7);
    UploadData(Odd(k), 7 - n, |bytes| - 7 * k <= 7, Resize(bytes[7 * k..7 * k + n], 7))
  }

  lemma SendSegment(s: S.Server, st: Store, bytes: Data, k: nat, now: nat)
    requires Sending(s, st, bytes, k)
    ensures var (s', r) := S.UploadSegmentStep(s, Odd(k), now);
            && r == Some(Segment(bytes, k))
            && if 7 * (k + 1) < |bytes| then Sending(s', st, bytes, k + 1)
               else s'.job.kind == S.Idle && s'.store == st
  {
    hide S.Fetch, Resize, S.CursorOk, S.RegionBytes, Odd;
    FetchPart(s, bytes, k, Min(|bytes| - 7 * k, 7));
    OddNext(k);
    if 7 * (k + 1) < |bytes| {
      SendingOn(s, S.UploadSegmentStep(s, Odd(k), now).0, st, bytes, k);
    }
  }

  lemma OddNext(k: nat)
    ensures Odd(k + 1) == !Odd(k)
  {
  }

  /** A full segment further on. */
  lemma SendingOn(s: S.Server, t: S.Server, st: Store, bytes: Data, k: nat)
    requires Sending(s, st, bytes, k) && 7 * (k + 1) < |bytes|
    requires t.store == st && t.job.region == s.job.region && t.job.value == s.job.value
    requires t.job.toggle == Odd(k + 1) && t.job.pos == s.job.pos + 7 && t.job.remain == s.job.remain - 7
    ensures Sending(t, st, bytes, k + 1)
  {
    hide S.Fetch, Odd;
    FetchPart(s, bytes, k, 7);
    assert S.RegionBytes(t) == S.RegionBytes(s);
  }

  lemma FetchPart(s: S.Server, bytes: Data, k: nat, n: nat)
    requires 7 * k + n <= |bytes| && s.job.remain == |bytes| - 7 * k && S.CursorOk(s)
    requires S.Fetch(s, |bytes| - 7 * k) == bytes[7 * k..]
    ensures S.Fetch(s, n) == bytes[7 * k..7 * k + n]
    ensures forall t: S.Server | S.RegionBytes(t) == S.RegionBytes(s) && t.job.pos == s.job.pos + n ::
        S.Fetch(t, |bytes| - 7 * k - n) == bytes[7 * k + n..]
  {
    var d, pos, left := S.RegionBytes(s), s.job.pos, |bytes| - 7 * k;
    assert d[pos..pos + left] == bytes[7 * k..];
    SliceOfSlice(d, pos, pos + left, n);
    SliceOfTail(bytes, 7 * k, n);
    assert pos + n + (left - n) == pos + left;
  }

  lemma StepOnSegment(c: C.ClientJob, bytes: Data, k: nat)
    requires c.active && c.toggle == Odd(k) && 7 * k < |bytes|
    ensures var n := Min(|bytes| - 7 * k, 7);
            var d := C.Receive(c, bytes[7 * k..7 * k + Min(c.remain, n)]).(toggle := Odd(k + 1));
            C.Step(c, Segment(bytes, k))
            == if |bytes| - 7 * k <= 7 then (C.Finish(d, d.total), C.Silent)
               else (d, C.Send(UploadSegment(Odd(k + 1))))
  {
    var n := Min(|bytes| - 7 * k, 7);
    PrefixOfSegment(bytes, 7 * k, n, Min(c.remain, n));
    hide C.Receive, Resize;
  }

  lemma ReceiveSegment(c: C.ClientJob, c0: C.ClientJob, bytes: Data, limit: nat, k: nat)
    requires Receiving(c, c0, bytes, limit, k) && 7 * k < |bytes|
    ensures var (c', out) := C.Step(c, Segment(bytes, k));
            if 7 * (k + 1) < |bytes|
            then Receiving(c', c0, bytes, limit, k + 1) && out == C.Send(UploadSegment(Odd(k + 1)))
            else Received(c', c0, bytes, limit) && out == C.Silent
  {
    hide C.Receive, Segment, C.Step, Odd;
    StepOnSegment(c, bytes, k);
    TakeSegment(c, c0, bytes, limit, k);
  }

  lemma TakeSegment(c: C.ClientJob, c0: C.ClientJob, bytes: Data, limit: nat, k: nat)
    requires Receiving(c, c0, bytes, limit, k) && 7 * k < |bytes|
    ensures var n := Min(|bytes| - 7 * k, 7);
            var end := Min(7 * k + n, limit);
            C.Receive(c, bytes[7 * k..7 * k + Min(c.remain, n)])
            == c0.(active := true, buffer := bytes[..end] + c0.buffer[end..], pos := end, remain := limit - end,
                   total := end, toggle := Odd(k))
  {
    hide C.Receive, Odd;
    var m := Min(c.remain, Min(|bytes| - 7 * k, 7));
    var done := Min(7 * k, limit);
    SameSlice(bytes, 7 * k, done, m);
    ReceiveNext(c, bytes, c0.buffer, done, m);
  }

  lemma SameSlice(bytes: Data, a: nat, b: nat, m: nat)
    requires a + m <= |bytes| && b <= a && (m > 0 ==> a == b)
    ensures bytes[a..a + m] == bytes[b..b + m]
  {
  }

  lemma PrefixOfSegment(bytes: Data, start: nat, n: nat, m: nat)
    requires m <= n <= 7 && start + n <= |bytes|
    ensures Resize(bytes[start..start + n], 7)[..m] == bytes[start..start + m]
  {
  }

  lemma ExtendPrefix(bytes: Data, buffer: Data, done: nat, m: nat)
    requires done + m <= |bytes| && done + m <= |buffer|
    ensures Patch(bytes[..done] + buffer[done..], done, bytes[done..done + m]) == bytes[..done + m] + buffer[done + m..]
  {
  }

  /** Receiving the next `m` bytes after the first `done`. */
  lemma ReceiveNext(c: C.ClientJob, bytes: Data, buffer: Data, done: nat, m: nat)
    requires done + m <= |bytes| && done + m <= |buffer| && m <= c.remain
    requires c.buffer == bytes[..done] + buffer[done..] && c.pos == done
    ensures C.Receive(c, bytes[done..done + m])
         == c.(buffer := bytes[..done + m] + buffer[done + m..], pos := done + m, remain := c.remain - m,
               total := c.total + m)
  {
    hide Patch;
    ExtendPrefix(bytes, buffer, done, m);
  }

  /** `k` segments of an upload are through and more are to come. */
  ghost predicate Uploading(sys: System, c0: C.ClientJob, st: Store, bytes: Data, limit: nat, k: nat) {
    && sys.request == Some(EncodeRequest(UploadSegment(Odd(k))))
    && Sending(sys.server, st, bytes, k) && Receiving(sys.client, c0, bytes, limit, k)
  }

  ghost predicate Uploaded(sys: System, c0: C.ClientJob, st: Store, bytes: Data, limit: nat) {
    && sys.request == None && Received(sys.client, c0, bytes, limit)
    && sys.server.job.kind == S.Idle && sys.server.store == st
  }

  lemma SegmentsLeft(sys: System, c0: C.ClientJob, st: Store, bytes: Data, limit: nat, k: nat)
    requires Uploading(sys, c0, st, bytes, limit, k)
    ensures k < Segments(|bytes|) && sys.client.active
    ensures sys.request == Some(EncodeRequest(UploadSegment(Odd(k))))
  {
  }

  lemma UploadRound(env: Env, sys: System, c0: C.ClientJob, st: Store, bytes: Data, limit: nat, k: nat, now: nat)
    requires OdOk(env.od) && Uploading(sys, c0, st, bytes, limit, k)
    ensures var next := Exchange(env, sys, now);
            if k + 1 < Segments(|bytes|) then Uploading(next, c0, st, bytes, limit, k + 1)
            else Uploaded(next, c0, st, bytes, limit)
  {
    hide OdOk, Sending, Receiving, Received, EncodeRequest, Exchange, C.Step, S.UploadSegmentStep, Segment;
    SegmentsLeft(sys, c0, st, bytes, limit, k);
    SendSegment(sys.server, st, bytes, k, now);
    ReceiveSegment(sys.client, c0, bytes, limit, k);
    ExchangeSteps(env, sys.client, sys.server, UploadSegment(Odd(k)), now);
  }

  /** From the `k`-th segment on, exactly the remaining segments finish an upload. */
  lemma {:induction false} UploadSegments(env: Env, sys: System, c0: C.ClientJob, st: Store, bytes: Data, limit: nat,
                                          k: nat, times: seq<nat>)
    requires OdOk(env.od) && Uploading(sys, c0, st, bytes, limit, k)
    requires k + |times| <= Segments(|bytes|)
    ensures var end := Exchanges(env, sys, times);
            if k + |times| == Segments(|bytes|) then Uploaded(end, c0, st, bytes, limit)
            else Uploading(end, c0, st, bytes, limit, k + |times|)
    decreases |times|
  {
    hide OdOk, Uploading, Uploaded, Exchange, Segments;
    SegmentsLeft(sys, c0, st, bytes, limit, k);
    if times != [] {
      UploadRound(env, sys, c0, st, bytes, limit, k, times[0]);
      if k + 1 < Segments(|bytes|) {
        UploadSegments(env, Exchange(env, sys, times[0]), c0, st, bytes, limit, k + 1, times[1..]);
      } else {
        assert times[1..] == [];
      }
    }
  }

  lemma SelectsForUpload(env: Env, s0: S.Server, index: U16, subindex: Byte, o: Obj, e: Entry, now: nat)
    requires OdOk(env.od) && Find(env.od, Key(index, subindex)) == Some((o, e)) && e.readable
    ensures EntryOk(e)
    ensures S.Step(env, s0, UploadInit(index, subindex), now)
         == S.UploadSelected(env, s0.(job := S.Start(s0.job, S.Upload, index, subindex, now)), o, e)
  {
    hide S.UploadSelected;
    FindSpec(env.od, Key(index, subindex));
  }

  /** An upload begins by selecting the value, which is sent at once up to four bytes and
      lined up for segments otherwise. */
  lemma UploadBegins(env: Env, s0: S.Server, index: U16, subindex: Byte, o: Obj, e: Entry, now: nat)
    requires OdOk(env.od) && StoreOk(env.od, s0.store.mem)
    requires Find(env.od, Key(index, subindex)) == Some((o, e)) && e.readable && o.index == index
    requires if ByteLength(e.bitlength) <= 8 then ReadCode(env, s0.store, o, subindex) == 0 else !o.access
    ensures var bytes := ObjectBytes(env, s0.store, o, e, subindex);
            var (s, r) := S.Step(env, s0, UploadInit(index, subindex), now);
            && |bytes| == ByteLength(e.bitlength) >= 1
            && s.store == s0.store
            && if |bytes| <= 4
               then s.job.kind == S.Idle
                    && r == Some(UploadExpedited(index, subindex, true, 4 - |bytes|, s.job.value[..4]))
                    && s.job.value[..|bytes|] == bytes
               else Sending(s, s0.store, bytes, 0)
                    && r == Some(UploadStart(index, subindex, |bytes| % 0x1_0000_0000))
  {
    hide OdOk, Find, GetValue, S.Step, Number, ReadCode;
    SelectsForUpload(env, s0, index, subindex, o, e, now);
    if ByteLength(e.bitlength) <= 8 {
      ReadsBytes(env, s0.store, o, e, subindex, ByteLength(e.bitlength));
    }
  }

  /** The bytes a client ends up with: as many as the server announces and its buffer holds. */
  function Limit(length: nat, capacity: nat): (limit: nat)
    ensures limit <= length && limit <= capacity
    ensures length < 0x1_0000_0000 ==> limit == Min(length, capacity)
  {
    Min(capacity, if length <= 4 then length else length % 0x1_0000_0000)
  }

  /** Exchanges an upload or a download of `length` bytes takes. */
  function Rounds(length: nat): nat {
    if length <= 4 then 1 else 1 + Segments(length)
  }

  /** The buffer of `c` filled with the value, its size reported once, and the server idle with
      its dictionary as it was. */
  ghost predicate UploadDone(end: System, c: C.ClientJob, st: Store, bytes: Data) {
    var limit := Limit(|bytes|, |c.buffer|);
    && !end.client.active && end.client.calls == c.calls + 1
    && end.client.result == limit
    && end.client.buffer == bytes[..limit] + c.buffer[limit..]
    && end.server.job.kind == S.Idle && end.server.store == st
  }

  lemma StepOnExpedited(c: C.ClientJob, size: nat, value: U64)
    requires c.active && 1 <= size <= 4
    ensures var d := C.Receive(c, value[..Min(c.remain, size)]);
            C.Step(c, UploadExpedited(c.index, c.subindex, true, 4 - size, value[..4]))
            == (C.Finish(d, d.total), C.Silent)
  {
    hide C.Receive;
    assert value[..4][..Min(c.remain, size)] == value[..Min(c.remain, size)];
  }

  lemma ClientTakesExpedited(c: C.ClientJob, bytes: Data, value: U64)
    requires Ready(c, C.Read) && c.active && c.total == 0 && 1 <= |bytes| <= 4 && value[..|bytes|] == bytes
    ensures var (c', out) := C.Step(c, UploadExpedited(c.index, c.subindex, true, 4 - |bytes|, value[..4]));
            out == C.Silent && Received(c', c, bytes, Limit(|bytes|, |c.buffer|))
  {
    hide C.Receive, C.Step;
    var m := Min(|c.buffer|, |bytes|);
    StepOnExpedited(c, |bytes|, value);
    assert value[..m] == value[..|bytes|][..m] == bytes[0..0 + m];
    assert bytes[..0] + c.buffer[0..] == c.buffer;
    ReceiveNext(c, bytes, c.buffer, 0, m);
  }

  lemma ClientTakesStart(c: C.ClientJob, bytes: Data)
    requires Ready(c, C.Read) && c.active
    ensures var (c', out) := C.Step(c, UploadStart(c.index, c.subindex, |bytes| % 0x1_0000_0000));
            && out == C.Send(UploadSegment(false))
            && (|bytes| > 4 ==> Receiving(c', c, bytes, Limit(|bytes|, |c.buffer|), 0))
  {
    assert bytes[..0] + c.buffer[0..] == c.buffer;
  }

  lemma FirstUploadRound(env: Env, c: C.ClientJob, s0: S.Server, o: Obj, e: Entry, now: nat)
    requires OdOk(env.od) && StoreOk(env.od, s0.store.mem) && Ready(c, C.Read)
    requires Find(env.od, Key(c.index, c.subindex)) == Some((o, e)) && e.readable && o.index == c.index
    requires if ByteLength(e.bitlength) <= 8 then ReadCode(env, s0.store, o, c.subindex) == 0 else !o.access
    ensures var bytes := ObjectBytes(env, s0.store, o, e, c.subindex);
            var c0 := C.Issue(c).0;
            var limit := Limit(|bytes|, |c.buffer|);
            var next := Exchange(env, Begin(c, s0), now);
            && |bytes| == ByteLength(e.bitlength) >= 1
            && if |bytes| <= 4 then Uploaded(next, c0, s0.store, bytes, limit)
               else Uploading(next, c0, s0.store, bytes, limit, 0)
  {
    hide OdOk, Find, ReadCode, S.Step, C.Step, Exchange, ObjectBytes, Received, Receiving, Sending, EncodeRequest;
    var bytes := ObjectBytes(env, s0.store, o, e, c.subindex);
    var c0 := C.Issue(c).0;
    UploadBegins(env, s0, c.index, c.subindex, o, e, now);
    var (s, r) := S.Step(env, s0, UploadInit(c.index, c.subindex), now);
    if |bytes| <= 4 {
      ClientTakesExpedited(c0, bytes, s.job.value);
    } else {
      ClientTakesStart(c0, bytes);
    }
    ExchangeSteps(env, c0, s0, UploadInit(c.index, c.subindex), now);
  }

  /** An upload delivers the value. For a value of `L` bytes and a buffer of `B`, the first
      min(L, B) bytes of the buffer end equal to the value, the rest is untouched, the result is
      min(L, B), and it takes exactly one exchange if L <= 4 and 1 + ceil(L / 7) otherwise; the
      dictionary is not changed. (A size of 2^32 bytes or more is announced modulo 2^32.) */
  lemma UploadEndToEnd(env: Env, c: C.ClientJob, s0: S.Server, o: Obj, e: Entry, times: seq<nat>)
    requires OdOk(env.od) && StoreOk(env.od, s0.store.mem) && Ready(c, C.Read)
    requires Find(env.od, Key(c.index, c.subindex)) == Some((o, e)) && e.readable && o.index == c.index
    requires if ByteLength(e.bitlength) <= 8 then ReadCode(env, s0.store, o, c.subindex) == 0 else !o.access
    ensures var bytes := ObjectBytes(env, s0.store, o, e, c.subindex);
            var end := Exchanges(env, Begin(c, s0), times);
            && |bytes| == ByteLength(e.bitlength)
            && (|times| < Rounds(|bytes|) ==> end.client.active)
            && (|times| == Rounds(|bytes|) ==> UploadDone(end, c, s0.store, bytes))
  {
    hide OdOk, StoreOk, Find, ReadCode, Exchange, ObjectBytes, Uploaded, Uploading, UploadDone, Limit;
    var bytes := ObjectBytes(env, s0.store, o, e, c.subindex);
    var limit := Limit(|bytes|, |c.buffer|);
    FirstUploadRound(env, c, s0, o, e, if times == [] then 0 else times[0]);
    if times != [] {
      var next := Exchange(env, Begin(c, s0), times[0]);
      if |bytes| <= 4 {
        UploadedSpec(next, c, s0.store, bytes);
        assert |times| == 1 ==> times[1..] == [];
      } else if |times| <= Rounds(|bytes|) {
        UploadSegments(env, next, C.Issue(c).0, s0.store, bytes, limit, 0, times[1..]);
        var end := Exchanges(env, next, times[1..]);
        if |times| == Rounds(|bytes|) {
          UploadedSpec(end, c, s0.store, bytes);
        } else {
          SegmentsLeft(end, C.Issue(c).0, s0.store, bytes, limit, |times| - 1);
        }
      }
    }
  }

  lemma UploadedSpec(sys: System, c: C.ClientJob, st: Store, bytes: Data)
    requires Ready(c, C.Read) && Uploaded(sys, C.Issue(c).0, st, bytes, Limit(|bytes|, |c.buffer|))
    ensures UploadDone(sys, c, st, bytes)
  {
  }
}
