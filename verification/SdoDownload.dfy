/** Whole downloads of any size, and the one family of sizes for which a download is never
    completed. */
module SdoDownload {
  import opened Bytes
  import opened Dictionary
  import opened SdoFrames
  import opened SdoTransfer
  import C = SdoClient
  import S = SdoServer

  /** What the server writes over: its own value up to 64 bits, left by earlier jobs, and the
      storage of the dictionary above. */
  function Underneath(s0: S.Server, o: Obj, e: Entry, subindex: nat): Data {
    if ByteLength(e.bitlength) <= 8 then s0.job.value else Memory(s0.store, Key(o.index, subindex))
  }

  /** The first `n` bytes of `data` over `was`. */
  function Over(was: Data, data: Data, n: nat): (r: Data)
    requires n <= |data| && n <= |was|
    ensures |r| == |was|
  {
    data[..n] + was[n..]
  }

  function InPlace(st: Store, o: Obj, subindex: nat, data: Data): Store {
    st.(mem := st.mem[Key(o.index, subindex) := data])
  }

  /** What a client may send: at most as many bytes as the object has are taken. */
  function Taken(e: Entry, data: Data): nat {
    Min(|data|, ByteLength(e.bitlength))
  }

  /** What a completed segmented download of `data` does to the dictionary. */
  function Stored(env: Env, st: Store, o: Obj, e: Entry, subindex: nat, was: Data, data: Data): (U32, Store)
    requires |was| == if ByteLength(e.bitlength) <= 8 then 8 else ByteLength(e.bitlength)
  {
    var landed := Over(was, data, Taken(e, data));
    if ByteLength(e.bitlength) <= 8 then SetValue(env, st, o, e, subindex, landed)
    else (0, Notify(InPlace(st, o, subindex, landed), o, e, subindex))
  }

  /** The size the server reads from an expedited request; a request for no bytes at all reads
      as one for four. */
  function ExpeditedLength(data: Data): nat {
    if |data| == 0 then 4 else |data|
  }

  /** What an expedited download does: its size must be the object's. */
  function StoredAtOnce(env: Env, st: Store, o: Obj, e: Entry, subindex: nat, data: Data): (U32, Store) {
    if ExpeditedLength(data) != ByteLength(e.bitlength) then (ABORT_LENGTH, st)
    else SetValue(env, st, o, e, subindex, Resize(data, 8))
  }

  /** The `k`-th segment of a download. */
  function Segment(data: Data, k: nat): ClientRequest
    requires 7 * k < |data|
  {
    var n := Min(|data| - 7 * k, 7);
    DownloadSegment(Odd(k), 7 - n, n < 7, Resize(data[7 * k..7 * k + n], 7))
  }

  /** The server has taken the first `7 * k` bytes, as far as the object goes. */
  ghost predicate Storing(s: S.Server, st: Store, o: Obj, e: Entry, subindex: Byte, was: Data, data: Data, k: nat) {
    var size := ByteLength(e.bitlength);
    var done := Min(7 * k, size);
    && s.job.kind == S.Download && s.job.index == o.index && s.job.subindex == subindex
    && s.job.toggle == Odd(k) && 7 * k <= |data|
    && s.job.pos == done && s.job.remain == size - done
    && s.job.cached == (size <= 8)
    && |was| == (if size <= 8 then 8 else size)
    && S.RegionBytes(s) == Over(was, data, done)
    && if size <= 8 then s.job.region == S.Value && s.store == st
       else s.job.region == S.Object(Key(o.index, subindex)) && s.store == InPlace(st, o, subindex, S.RegionBytes(s))
  }

  /** The client has sent segments 0..k. */
  ghost predicate Supplying(c: C.ClientJob, c0: C.ClientJob, k: nat) {
    var sent := Min(7 * (k + 1), |c0.buffer|);
    c == c0.(active := true, pos := sent, remain := |c0.buffer| - sent, total := sent, toggle := Odd(k))
  }

  ghost predicate Downloading(sys: System, c0: C.ClientJob, st: Store, o: Obj, e: Entry, was: Data, k: nat) {
    && 7 * k < |c0.buffer|
    && sys.request == Some(EncodeRequest(Segment(c0.buffer, k)))
    && Storing(sys.server, st, o, e, c0.subindex, was, c0.buffer, k)
    && Supplying(sys.client, c0, k)
  }

  /** The last segment carries the "no more" flag exactly when it is short, so the server learns
      that the transfer is over only if the size is not a multiple of seven. */
  predicate Completes(length: nat) {
    length <= 4 || length % 7 != 0
  }

  /** A client that has had its answer. */
  predicate Answered(end: C.ClientJob, c: C.ClientJob, abort: U32) {
    && !end.active && end.calls == c.calls + 1 && end.buffer == c.buffer
    && end.result == if abort == 0 then |c.buffer| else C.STATUS_ERROR
  }

  /** A value too long for the access function of its object. */
  predicate Refused(o: Obj, e: Entry) {
    o.access && ByteLength(e.bitlength) > 8
  }

  /** How a download ends. A completed one leaves the value stored and notified, or its refusal,
      and the server idle; otherwise the client reports the full size all the same while the
      server is still waiting: a value of up to 64 bits is lost, and a longer one is in place but
      not notified. */
  ghost predicate DownloadDone(env: Env, end: System, c: C.ClientJob, st: Store, o: Obj, e: Entry, was: Data)
    requires |was| == if ByteLength(e.bitlength) <= 8 then 8 else ByteLength(e.bitlength)
  {
    if Refused(o, e) then
      Answered(end.client, c, ABORT_GENERAL) && end.server.job.kind == S.Idle && end.server.store == st
    else if Completes(|c.buffer|) then
      var (abort, stored) := if |c.buffer| <= 4 then StoredAtOnce(env, st, o, e, c.subindex, c.buffer)
                             else Stored(env, st, o, e, c.subindex, was, c.buffer);
      Answered(end.client, c, abort) && end.server.job.kind == S.Idle && end.server.store == stored
    else
      && Answered(end.client, c, 0) && end.server.job.kind == S.Download
      && end.server.store == if ByteLength(e.bitlength) <= 8 then st
                             else InPlace(st, o, c.subindex, Over(was, c.buffer, Taken(e, c.buffer)))
  }

  /** Exchanges a download takes. */
  function DownloadRounds(o: Obj, e: Entry, length: nat): nat {
    if Refused(o, e) then 1 else Rounds(length)
  }

  // ----- the client's side

  lemma SupplyFirst(c: C.ClientJob, r: Reply)
    requires c.active && Ready(c, C.Write) && c.total == 0 && |c.buffer| > 0 && r.DownloadStart?
    ensures var (c', out) := C.Step(c, r);
            out == C.Send(Segment(c.buffer, 0)) && Supplying(c', c, 0)
  {
    hide Resize;
  }

  lemma SupplyNext(c: C.ClientJob, c0: C.ClientJob, k: nat)
    requires Supplying(c, c0, k) && 7 * k < |c0.buffer|
    ensures var (c', out) := C.Step(c, DownloadNext(Odd(k)));
            if 7 * (k + 1) < |c0.buffer| then
              out == C.Send(Segment(c0.buffer, k + 1)) && Supplying(c', c0, k + 1)
            else
              && out == C.Silent && !c'.active && c'.calls == c0.calls + 1
              && c'.buffer == c0.buffer && c'.result == |c0.buffer|
  {
    hide Resize;
  }

  // ----- the server's side

  lemma PatchOver(was: Data, data: Data, done: nat, n: nat)
    requires done + n <= |data| && done + n <= |was|
    ensures Patch(Over(was, data, done), done, data[done..done + n]) == Over(was, data, done + n)
  {
  }

  lemma PatchNothing(d: Data, pos: nat)
    requires pos <= |d|
    ensures Patch(d, pos, []) == d
  {
  }

  /** One segment is taken as far as there is room. */
  lemma StoreSegment(s: S.Server, st: Store, o: Obj, e: Entry, subindex: Byte, was: Data, data: Data, k: nat, now: nat)
    requires Storing(s, st, o, e, subindex, was, data, k) && 7 * k < |data|
    ensures var n := Min(|data| - 7 * k, 7);
            var size := Min(n, s.job.remain);
            var done := Min(7 * k + n, ByteLength(e.bitlength));
            var p := S.Put(s, data[7 * k..7 * k + size]);
            var t := p.(job := S.Advance(p.job.(toggle := !s.job.toggle), size, now));
            && S.RegionBytes(t) == Over(was, data, done)
            && t.job == s.job.(value := t.job.value, toggle := Odd(k + 1), pos := done,
                               remain := ByteLength(e.bitlength) - done, timestamp := now)
            && t.store == if ByteLength(e.bitlength) <= 8 then st else InPlace(st, o, subindex, S.RegionBytes(t))
  {
    hide Patch, Over, ByteLength, Odd, S.RegionBytes, S.Put;
    var size := Min(Min(|data| - 7 * k, 7), s.job.remain);
    OddNext(k);
    PutWithin(s, data[7 * k..7 * k + size]);
    NextPart(was, data, 7 * k, ByteLength(e.bitlength), size);
  }

  /** The next `size` bytes over what has been taken, nothing once there is no more room. */
  lemma NextPart(was: Data, data: Data, at: nat, room: nat, size: nat)
    requires room <= |was| && at + size <= |data| && (at + size <= room || (size == 0 && room <= at))
    ensures Patch(Over(was, data, Min(at, room)), Min(at, room), data[at..at + size])
         == Over(was, data, Min(at + size, room))
  {
    hide Patch, Over;
    if size == 0 {
      PatchNothing(Over(was, data, Min(at, room)), Min(at, room));
    } else {
      PatchOver(was, data, at, size);
    }
  }

  /** A copy that stays in the memory pointed to. */
  lemma PutWithin(s: S.Server, data: Data)
    requires s.job.pos + |data| <= |S.RegionBytes(s)|
    ensures var p := S.Put(s, data);
            forall t: S.Server | t.store == p.store && t.job.region == s.job.region && t.job.value == p.job.value ::
              S.RegionBytes(t) == Patch(S.RegionBytes(s), s.job.pos, data)
    ensures S.Put(s, data).store
         == if s.job.region.Object?
            then s.store.(mem := s.store.mem[s.job.region.key := Patch(S.RegionBytes(s), s.job.pos, data)])
            else s.store
  {
    hide Patch;
  }

  lemma SegmentBytes(data: Data, k: nat, n: nat, size: nat)
    requires size <= n <= 7 && 7 * k + n <= |data|
    ensures Resize(data[7 * k..7 * k + n], 7)[..size] == data[7 * k..7 * k + size]
  {
  }

  lemma StoreMore(env: Env, s: S.Server, st: Store, o: Obj, e: Entry, subindex: Byte, was: Data, data: Data, k: nat,
                  now: nat)
    requires Storing(s, st, o, e, subindex, was, data, k) && 7 * (k + 1) <= |data|
    ensures var r := Segment(data, k);
            var (s', reply) := S.DownloadSegmentStep(env, s, r.toggle, r.unused, r.last, r.data, now);
            && reply == Some(DownloadNext(Odd(k))) && Storing(s', st, o, e, subindex, was, data, k + 1)
  {
    hide S.Put, S.RegionBytes, Over, ByteLength;
    StoreSegment(s, st, o, e, subindex, was, data, k, now);
    SegmentBytes(data, k, 7, Min(7, s.job.remain));
  }

  lemma StoreLast(env: Env, s: S.Server, st: Store, o: Obj, e: Entry, subindex: Byte, was: Data, data: Data, k: nat,
                  now: nat)
    requires OdOk(env.od) && Find(env.od, Key(o.index, subindex)) == Some((o, e))
    requires Storing(s, st, o, e, subindex, was, data, k) && 7 * k < |data| < 7 * (k + 1)
    ensures var r := Segment(data, k);
            var (s', reply) := S.DownloadSegmentStep(env, s, r.toggle, r.unused, r.last, r.data, now);
            var (abort, stored) := Stored(env, st, o, e, subindex, was, data);
            && s'.job.kind == S.Idle && s'.store == stored
            && reply == Some(if abort == 0 then DownloadNext(Odd(k)) else AbortReply(o.index, subindex, abort))
  {
    hide OdOk, EntryFind, ObjFind, S.Put, SetValue, Over, ByteLength;
    StoreSegment(s, st, o, e, subindex, was, data, k, now);
    var n := |data| - 7 * k;
    var size := Min(n, s.job.remain);
    SegmentBytes(data, k, n, size);
    var p := S.Put(s, data[7 * k..7 * k + size]);
    var t := p.(job := S.Advance(p.job.(toggle := !s.job.toggle), size, now));
    assert S.Commit(env, t) == Stored(env, st, o, e, subindex, was, data);
  }

  // ----- rounds

  lemma DownloadRound(env: Env, sys: System, c: C.ClientJob, st: Store, o: Obj, e: Entry, was: Data, k: nat, now: nat)
    requires OdOk(env.od) && Find(env.od, Key(o.index, c.subindex)) == Some((o, e)) && |c.buffer| > 4 && !Refused(o, e)
    requires Downloading(sys, C.Issue(c).0, st, o, e, was, k)
    ensures var next := Exchange(env, sys, now);
            && k < Segments(|c.buffer|)
            && if k + 1 < Segments(|c.buffer|) then Downloading(next, C.Issue(c).0, st, o, e, was, k + 1)
               else DownloadDone(env, next, c, st, o, e, was)
  {
    if 7 * (k + 1) <= |c.buffer| {
      FullRound(env, sys, c, st, o, e, was, k, now);
    } else {
      ShortRound(env, sys, c, st, o, e, was, k, now);
    }
  }

  lemma FullRound(env: Env, sys: System, c: C.ClientJob, st: Store, o: Obj, e: Entry, was: Data, k: nat, now: nat)
    requires OdOk(env.od) && |c.buffer| > 4 && !Refused(o, e)
    requires Downloading(sys, C.Issue(c).0, st, o, e, was, k) && 7 * (k + 1) <= |c.buffer|
    ensures var next := Exchange(env, sys, now);
            && k < Segments(|c.buffer|)
            && if k + 1 < Segments(|c.buffer|) then Downloading(next, C.Issue(c).0, st, o, e, was, k + 1)
               else DownloadDone(env, next, c, st, o, e, was)
  {
    hide OdOk, Find, EncodeRequest, Exchange, C.Step, S.DownloadSegmentStep, Segment, Storing, DownloadDone;
    var c0 := C.Issue(c).0;
    SupplyNext(sys.client, c0, k);
    StoreMore(env, sys.server, st, o, e, c.subindex, was, c.buffer, k, now);
    ExchangeSegment(env, sys.client, sys.server, c.buffer, k, now);
    if 7 * (k + 1) == |c.buffer| {
      StillOpen(env, Exchange(env, sys, now), c, st, o, e, was, k + 1);
    }
  }

  /** After a last segment that is full the client has finished and the server has not. */
  lemma StillOpen(env: Env, end: System, c: C.ClientJob, st: Store, o: Obj, e: Entry, was: Data, k: nat)
    requires !Refused(o, e) && |c.buffer| == 7 * k > 4 && Answered(end.client, c, 0)
    requires Storing(end.server, st, o, e, c.subindex, was, c.buffer, k)
    ensures DownloadDone(env, end, c, st, o, e, was)
  {
    hide Over, ByteLength, Stored, StoredAtOnce, S.RegionBytes;
  }

  lemma ShortRound(env: Env, sys: System, c: C.ClientJob, st: Store, o: Obj, e: Entry, was: Data, k: nat, now: nat)
    requires OdOk(env.od) && Find(env.od, Key(o.index, c.subindex)) == Some((o, e)) && |c.buffer| > 4 && !Refused(o, e)
    requires Downloading(sys, C.Issue(c).0, st, o, e, was, k) && 7 * (k + 1) > |c.buffer|
    ensures k + 1 == Segments(|c.buffer|) && DownloadDone(env, Exchange(env, sys, now), c, st, o, e, was)
  {
    hide OdOk, Find, EncodeRequest, Exchange, C.Step, S.DownloadSegmentStep, Stored, Segment, Over, ByteLength;
    hide S.RegionBytes;
    SupplyNext(sys.client, C.Issue(c).0, k);
    AbortsEnd(sys.client);
    StoreLast(env, sys.server, st, o, e, c.subindex, was, c.buffer, k, now);
    ExchangeSegment(env, sys.client, sys.server, c.buffer, k, now);
  }

  lemma ExchangeSegment(env: Env, c: C.ClientJob, s: S.Server, data: Data, k: nat, now: nat)
    requires OdOk(env.od) && c.active && 7 * k < |data|
    requires var r := Segment(data, k); S.DownloadSegmentStep(env, s, r.toggle, r.unused, r.last, r.data, now).1.Some?
    ensures var r := Segment(data, k);
            var (s', reply) := S.DownloadSegmentStep(env, s, r.toggle, r.unused, r.last, r.data, now);
            var (c', out) := C.Step(c, reply.value);
            Exchange(env, System(c, s, Some(EncodeRequest(r))), now)
            == System(c', s', if out.Send? then Some(EncodeRequest(out.request)) else None)
  {
    hide OdOk, Exchange, C.Step, S.DownloadSegmentStep;
    ExchangeSteps(env, c, s, Segment(data, k), now);
  }

  lemma AbortsEnd(c: C.ClientJob)
    requires c.active
    ensures forall r: Reply | r.AbortReply? :: C.Step(c, r) == (C.Finish(c, C.STATUS_ERROR), C.Silent)
  {
  }

  lemma SelectsForDownload(env: Env, s0: S.Server, r: ClientRequest, o: Obj, e: Entry, now: nat)
    requires OdOk(env.od) && r.DownloadInit? && Find(env.od, Key(r.index, r.subindex)) == Some((o, e)) && e.writable
    ensures EntryOk(e) && o.index == r.index
    ensures S.Step(env, s0, r, now)
         == S.DownloadSelected(env, s0.(job := S.Start(s0.job, S.Download, r.index, r.subindex, now)), o, e,
                               r.expedited, ExpeditedSize(r.sized, r.unused), r.data)
  {
    hide S.DownloadSelected;
    FindSpec(env.od, Key(r.index, r.subindex));
  }

  lemma SetAtOnce(env: Env, s: S.Server, o: Obj, e: Entry, data: Data)
    requires |data| <= 4 && !Refused(o, e)
    ensures var (t, reply) := S.DownloadSelected(env, s, o, e, true, ExpeditedLength(data), Resize(data, 4));
            var (abort, stored) := StoredAtOnce(env, s.store, o, e, s.job.subindex, data);
            && t.job.kind == S.Idle && t.store == stored
            && reply == Some(if abort == 0 then DownloadStart(s.job.index, s.job.subindex)
                             else AbortReply(s.job.index, s.job.subindex, abort))
  {
    hide SetValue, ByteLength;
    assert Resize(Resize(data, 4), 8) == Resize(data, 8);
  }

  /** Up to four bytes travel with the first request. */
  lemma SmallDownloadRound(env: Env, c: C.ClientJob, s0: S.Server, o: Obj, e: Entry, now: nat)
    requires OdOk(env.od) && StoreOk(env.od, s0.store.mem) && Ready(c, C.Write)
    requires Find(env.od, Key(c.index, c.subindex)) == Some((o, e)) && e.writable
    requires |c.buffer| <= 4 && !Refused(o, e)
    ensures |Underneath(s0, o, e, c.subindex)| == if ByteLength(e.bitlength) <= 8 then 8 else ByteLength(e.bitlength)
    ensures var end := Exchange(env, Begin(c, s0), now);
            var (abort, stored) := StoredAtOnce(env, s0.store, o, e, c.subindex, c.buffer);
            Answered(end.client, c, abort) && end.server.job.kind == S.Idle && end.server.store == stored
  {
    hide OdOk, StoreOk, Find, S.Step, Exchange, EncodeRequest, StoredAtOnce, S.DownloadSelected;
    UnderneathSize(env, s0, o, e, c);
    var (c0, r) := C.Issue(c);
    SelectsForDownload(env, s0, r, o, e, now);
    SetAtOnce(env, s0.(job := S.Start(s0.job, S.Download, r.index, r.subindex, now)), o, e, c.buffer);
    assert C.Peek(c, |c.buffer|) == c.buffer;
    ExchangeSteps(env, c0, s0, r, now);
  }

  lemma UnderneathSize(env: Env, s0: S.Server, o: Obj, e: Entry, c: C.ClientJob)
    requires OdOk(env.od) && StoreOk(env.od, s0.store.mem) && Find(env.od, Key(c.index, c.subindex)) == Some((o, e))
    ensures o.index == c.index
    ensures |Underneath(s0, o, e, c.subindex)| == if ByteLength(e.bitlength) <= 8 then 8 else ByteLength(e.bitlength)
  {
    FindSpec(env.od, Key(c.index, c.subindex));
  }

  lemma RefusedRound(env: Env, c: C.ClientJob, s0: S.Server, o: Obj, e: Entry, now: nat)
    requires OdOk(env.od) && Ready(c, C.Write)
    requires Find(env.od, Key(c.index, c.subindex)) == Some((o, e)) && e.writable && Refused(o, e)
    ensures var end := Exchange(env, Begin(c, s0), now);
            Answered(end.client, c, ABORT_GENERAL) && end.server.job.kind == S.Idle && end.server.store == s0.store
  {
    hide OdOk, Find, S.Step, Exchange, EncodeRequest, SetValue, ByteLength;
    var (c0, r) := C.Issue(c);
    SelectsForDownload(env, s0, r, o, e, now);
    ExchangeSteps(env, c0, s0, r, now);
  }

  lemma LargeDownloadRound(env: Env, c: C.ClientJob, s0: S.Server, o: Obj, e: Entry, now: nat)
    requires OdOk(env.od) && StoreOk(env.od, s0.store.mem) && Ready(c, C.Write)
    requires Find(env.od, Key(c.index, c.subindex)) == Some((o, e)) && e.writable
    requires |c.buffer| > 4 && !Refused(o, e)
    ensures var was := Underneath(s0, o, e, c.subindex);
            Downloading(Exchange(env, Begin(c, s0), now), C.Issue(c).0, s0.store, o, e, was, 0)
  {
    hide OdOk, StoreOk, Find, S.Step, Exchange, EncodeRequest, SetValue, ByteLength;
    UnderneathSize(env, s0, o, e, c);
    var (c0, r) := C.Issue(c);
    SelectsForDownload(env, s0, r, o, e, now);
    var (s, reply) := S.Step(env, s0, r, now);
    SupplyFirst(c0, reply.value);
    var was := Underneath(s0, o, e, c.subindex);
    assert Over(was, c.buffer, 0) == was;
    SameMemory(env, s0, o, e, c);
    ExchangeSteps(env, c0, s0, r, now);
  }

  lemma SameMemory(env: Env, s0: S.Server, o: Obj, e: Entry, c: C.ClientJob)
    requires OdOk(env.od) && StoreOk(env.od, s0.store.mem) && Find(env.od, Key(c.index, c.subindex)) == Some((o, e))
    ensures InPlace(s0.store, o, c.subindex, Memory(s0.store, Key(o.index, c.subindex))) == s0.store
  {
    FindSpec(env.od, Key(c.index, c.subindex));
  }

  lemma FirstDownloadRound(env: Env, c: C.ClientJob, s0: S.Server, o: Obj, e: Entry, now: nat)
    requires OdOk(env.od) && StoreOk(env.od, s0.store.mem) && Ready(c, C.Write)
    requires Find(env.od, Key(c.index, c.subindex)) == Some((o, e)) && e.writable
    ensures o.index == c.index
    ensures |Underneath(s0, o, e, c.subindex)| == if ByteLength(e.bitlength) <= 8 then 8 else ByteLength(e.bitlength)
    ensures var next := Exchange(env, Begin(c, s0), now);
            var was := Underneath(s0, o, e, c.subindex);
            if DownloadRounds(o, e, |c.buffer|) == 1 then DownloadDone(env, next, c, s0.store, o, e, was)
            else |c.buffer| > 4 && !Refused(o, e) && Downloading(next, C.Issue(c).0, s0.store, o, e, was, 0)
  {
    UnderneathSize(env, s0, o, e, c);
    hide OdOk, StoreOk, Find, Exchange, Begin, Downloading, C.Issue, StoredAtOnce, Stored, Answered, Refused;
    if Refused(o, e) {
      RefusedRound(env, c, s0, o, e, now);
    } else if |c.buffer| <= 4 {
      SmallDownloadRound(env, c, s0, o, e, now);
    } else {
      LargeDownloadRound(env, c, s0, o, e, now);
    }
  }

  lemma {:induction false} DownloadSegments(env: Env, sys: System, c: C.ClientJob, st: Store, o: Obj, e: Entry,
                                            was: Data, k: nat, times: seq<nat>)
    requires OdOk(env.od) && Find(env.od, Key(o.index, c.subindex)) == Some((o, e)) && |c.buffer| > 4 && !Refused(o, e)
    requires |was| == if ByteLength(e.bitlength) <= 8 then 8 else ByteLength(e.bitlength)
    requires Downloading(sys, C.Issue(c).0, st, o, e, was, k)
    requires k + |times| <= Segments(|c.buffer|)
    ensures var end := Exchanges(env, sys, times);
            if k + |times| == Segments(|c.buffer|) then DownloadDone(env, end, c, st, o, e, was)
            else Downloading(end, C.Issue(c).0, st, o, e, was, k + |times|)
    decreases |times|
  {
    hide OdOk, Find, Downloading, DownloadDone, Exchange, Segments, Refused, ByteLength;
    StillActive(sys, C.Issue(c).0, st, o, e, was, k);
    if times != [] {
      DownloadRound(env, sys, c, st, o, e, was, k, times[0]);
      if k + 1 < Segments(|c.buffer|) {
        DownloadSegments(env, Exchange(env, sys, times[0]), c, st, o, e, was, k + 1, times[1..]);
      } else {
        assert times[1..] == [];
      }
    }
  }

  lemma StillActive(sys: System, c0: C.ClientJob, st: Store, o: Obj, e: Entry, was: Data, k: nat)
    requires Downloading(sys, c0, st, o, e, was, k)
    ensures sys.client.active && k < Segments(|c0.buffer|)
  {
  }

  /** A download of a buffer of any size to any writable value takes one exchange up to four
      bytes, or if it is refused, and 1 + ceil(n / 7) otherwise, and then ends as `DownloadDone`
      says. */
  lemma DownloadEndToEnd(env: Env, c: C.ClientJob, s0: S.Server, o: Obj, e: Entry, times: seq<nat>)
    requires OdOk(env.od) && StoreOk(env.od, s0.store.mem) && Ready(c, C.Write)
    requires Find(env.od, Key(c.index, c.subindex)) == Some((o, e)) && e.writable
    ensures var was := Underneath(s0, o, e, c.subindex);
            var end := Exchanges(env, Begin(c, s0), times);
            && |was| == (if ByteLength(e.bitlength) <= 8 then 8 else ByteLength(e.bitlength))
            && (|times| < DownloadRounds(o, e, |c.buffer|) ==> end.client.active)
            && (|times| == DownloadRounds(o, e, |c.buffer|) ==> DownloadDone(env, end, c, s0.store, o, e, was))
  {
    hide OdOk, StoreOk, Find, Exchange, Downloading, DownloadDone, Refused, ByteLength, Underneath;
    FirstDownloadRound(env, c, s0, o, e, if times == [] then 0 else times[0]);
    if times != [] {
      var next := Exchange(env, Begin(c, s0), times[0]);
      var was := Underneath(s0, o, e, c.subindex);
      if DownloadRounds(o, e, |c.buffer|) == 1 {
        assert |times| == 1 ==> times[1..] == [];
      } else if |times| <= Rounds(|c.buffer|) {
        DownloadSegments(env, next, c, s0.store, o, e, was, 0, times[1..]);
        if |times| < Rounds(|c.buffer|) {
          StillActive(Exchanges(env, next, times[1..]), C.Issue(c).0, s0.store, o, e, was, |times| - 1);
        }
      }
    }
  }

  /** A client is told a download succeeded although the server's job is still open, and nothing
      was set or notified, exactly when the size is a multiple of seven other than zero. */
  lemma DownloadCompletesIff(env: Env, c: C.ClientJob, s0: S.Server, o: Obj, e: Entry, times: seq<nat>)
    requires OdOk(env.od) && StoreOk(env.od, s0.store.mem) && Ready(c, C.Write)
    requires Find(env.od, Key(c.index, c.subindex)) == Some((o, e)) && e.writable
    requires |times| == DownloadRounds(o, e, |c.buffer|)
    ensures var end := Exchanges(env, Begin(c, s0), times);
            end.client.result == |c.buffer| ==>
              && (end.server.job.kind == S.Idle <==> |c.buffer| % 7 != 0 || |c.buffer| == 0)
              && end.server.store.notified
                 == s0.store.notified
                    + if e.notify && (|c.buffer| % 7 != 0 || |c.buffer| == 0) then [Key(c.index, c.subindex)] else []
  {
    hide OdOk, StoreOk, Exchanges, Find, Begin, Rounds;
    FindSpec(env.od, Key(c.index, c.subindex));
    DownloadEndToEnd(env, c, s0, o, e, times);
  }

  /** A segmented download of another size than the object's is confirmed all the same. What it
      leaves is the client's bytes exactly if the sizes agree: a longer one is cut, and a shorter
      one is followed by what was underneath, which for a value of up to 64 bits is what an
      earlier job left in the server. */
  lemma StoresClientBytesIff(env: Env, c: C.ClientJob, s0: S.Server, o: Obj, e: Entry, times: seq<nat>)
    requires OdOk(env.od) && StoreOk(env.od, s0.store.mem) && Ready(c, C.Write)
    requires Find(env.od, Key(c.index, c.subindex)) == Some((o, e)) && e.writable && !o.access
    requires ByteLength(e.bitlength) > 8 || Width(e.datatyp) != 0
    requires |c.buffer| > 4 && |c.buffer| % 7 != 0 && |times| == Rounds(|c.buffer|)
    ensures var end := Exchanges(env, Begin(c, s0), times);
            var size := ByteLength(e.bitlength);
            var n := Min(|c.buffer|, size);
            var left := Memory(end.server.store, Key(c.index, c.subindex));
            && end.client.result == |c.buffer|
            && |left| == size <= |Underneath(s0, o, e, c.subindex)|
            && left == c.buffer[..n] + Underneath(s0, o, e, c.subindex)[n..size]
            && (left == c.buffer <==> |c.buffer| == size)
  {
    hide OdOk, StoreOk, Exchanges, Find, Begin, Rounds, Underneath;
    FindSpec(env.od, Key(c.index, c.subindex));
    DownloadEndToEnd(env, c, s0, o, e, times);
    var was := Underneath(s0, o, e, c.subindex);
    var size := ByteLength(e.bitlength);
    var n := Min(|c.buffer|, size);
    OverPrefix(was, c.buffer, n, size);
    assert c.buffer[..|c.buffer|] == c.buffer;
  }

  lemma OverPrefix(was: Data, data: Data, n: nat, size: nat)
    requires n <= |data| && n <= size <= |was|
    ensures Over(was, data, n)[..size] == data[..n] + was[n..size]
    ensures size == |was| ==> Over(was, data, n)[..size] == Over(was, data, n)
  {
  }
}
