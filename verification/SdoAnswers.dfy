/** What an SDO server answers to each request in any state, and what makes a client give up
    (src/co_sdo_server.c, src/co_sdo_client.c, CiA 301 section 7.2.4.3). Abort codes and command
    bytes are written out as they appear on the bus. */
module SdoAnswers {
  import opened Bytes
  import opened Dictionary
  import opened Values
  import opened SdoFrames
  import opened SdoTransfer
  import C = SdoClient
  import S = SdoServer
  import D = SdoDownload

  // ----- uploads

  /** The code an upload request is refused with, 0 if it is served. Subindex FFh asks for the
      structure of the object. */
  function UploadCode(env: Env, st: Store, index: U16, subindex: Byte): U32 {
    if ObjFind(env.od, index).None? then 0x0602_0000
    else if subindex == 0xFF then 0
    else
      match Find(env.od, Key(index, subindex))
      case None => 0x0609_0011
      case Some((o, e)) =>
        if !e.readable then 0x0601_0001
        else if ByteLength(e.bitlength) <= 8 then ReadCode(env, st, o, subindex)
        else if o.access then 0x0800_0000 else 0
  }

  /** The data type told for an object: that of a variable, or of the members of an array. */
  function MemberType(o: Obj): Byte
    requires ObjOk(o)
  {
    if o.objtype == Var then TypeCode(o.entries[0].datatyp)
    else if o.objtype == Array then TypeCode(o.entries[1].datatyp)
    else 0
  }

  /** A refused upload request is answered with its code and ends the job. */
  lemma UploadRefused(env: Env, s: S.Server, index: U16, subindex: Byte, now: nat)
    requires OdOk(env.od) && UploadCode(env, s.store, index, subindex) != 0
    ensures var (t, reply) := S.Step(env, s, UploadInit(index, subindex), now);
            && reply == Some(AbortReply(index, subindex, UploadCode(env, s.store, index, subindex)))
            && t.job.kind == S.Idle && t.store == s.store && t.dirty == s.dirty
  {
    hide OdOk, GetValue, ReadCode, ByteLength, S.Structure, ObjFind, EntryFind, Number;
    if Find(env.od, Key(index, subindex)).Some? {
      FindSpec(env.od, Key(index, subindex));
      var (o, e) := Find(env.od, Key(index, subindex)).value;
      ReadsBytes(env, s.store, o, e, subindex, 0);
    }
  }

  /** A request for the structure is answered with object type and data type. */
  lemma StructureTold(env: Env, s: S.Server, index: U16, now: nat)
    requires OdOk(env.od) && ObjFind(env.od, index).Some?
    ensures ObjOk(ObjFind(env.od, index).value)
    ensures var o := ObjFind(env.od, index).value;
            var (t, reply) := S.Step(env, s, UploadInit(index, 0xFF), now);
            && reply == Some(UploadExpedited(index, 0xFF, true, 0, [ObjCode(o.objtype), MemberType(o), 0, 0]))
            && t.job.kind == S.Idle && t.store == s.store
  {
    MemberOk(env.od, ObjFind(env.od, index).value);
    hide OdOk, ObjFind, EntryFind, TypeCode, ObjCode;
  }

  /** Any other is served: up to four bytes at once, the number read as they stand, and otherwise
      by announcing the size. */
  lemma UploadServed(env: Env, s: S.Server, index: U16, subindex: Byte, now: nat)
    requires OdOk(env.od) && subindex != 0xFF && UploadCode(env, s.store, index, subindex) == 0
    ensures Find(env.od, Key(index, subindex)).Some?
    ensures var (o, e) := Find(env.od, Key(index, subindex)).value;
            var size := ByteLength(e.bitlength);
            var (t, reply) := S.Step(env, s, UploadInit(index, subindex), now);
            && t.store == s.store && size >= 1
            && if size <= 4 then
                 && reply == Some(UploadExpedited(index, subindex, true, 4 - size,
                                                  ToLe(Number(env, s.store, o, e, subindex), 4)))
                 && t.job.kind == S.Idle
               else
                 && reply == Some(UploadStart(index, subindex, size % 0x1_0000_0000))
                 && t.job.kind == S.Upload && t.job.remain == size && t.job.pos == 0 && !t.job.toggle
                 && t.job.index == index && t.job.subindex == subindex && t.job.timestamp == now
  {
    var (o, e) := Find(env.od, Key(index, subindex)).value;
    FindSpec(env.od, Key(index, subindex));
    hide OdOk, GetValue, ReadCode, ObjFind, EntryFind, Number, ToLe, ByteLength, S.UploadSelected;
    SelectsForUpload(env, s, index, subindex, o, e, now);
    Selected(env, s.(job := S.Start(s.job, S.Upload, index, subindex, now)), o, e);
  }

  lemma Selected(env: Env, s: S.Server, o: Obj, e: Entry)
    requires EntryOk(e) && o.index == s.job.index
    requires if ByteLength(e.bitlength) <= 8 then ReadCode(env, s.store, o, s.job.subindex) == 0 else !o.access
    ensures var size := ByteLength(e.bitlength);
            var (t, reply) := S.UploadSelected(env, s, o, e);
            && t.store == s.store
            && if size <= 4 then
                 && reply == Some(UploadExpedited(s.job.index, s.job.subindex, true, 4 - size,
                                                  ToLe(Number(env, s.store, o, e, s.job.subindex), 4)))
                 && t.job.kind == S.Idle
               else
                 && reply == Some(UploadStart(s.job.index, s.job.subindex, size % 0x1_0000_0000))
                 && t.job == s.job.(remain := size, pos := 0, toggle := false, region := t.job.region,
                                    value := t.job.value)
  {
    hide GetValue, ReadCode, Number, ToLe;
    ReadsBytes(env, s.store, o, e, s.job.subindex, 4);
  }

  /** End to end: a refused upload takes one exchange, reports an error once, and leaves the
      caller's buffer and the dictionary alone. */
  lemma UploadRefusedEndToEnd(env: Env, c: C.ClientJob, s0: S.Server, now: nat)
    requires OdOk(env.od) && c.kind == C.Read && UploadCode(env, s0.store, c.index, c.subindex) != 0
    ensures var end := Exchange(env, Begin(c, s0), now);
            && !end.client.active && end.client.result == -1 && end.client.calls == c.calls + 1
            && end.client.buffer == c.buffer
            && end.server.job.kind == S.Idle && end.server.store == s0.store && end.request == None
  {
    hide OdOk, S.Step, Exchange, UploadCode, EncodeRequest;
    UploadRefused(env, s0, c.index, c.subindex, now);
    ExchangeSteps(env, C.Issue(c).0, s0, UploadInit(c.index, c.subindex), now);
  }

  /** In numbers: an upload of a value of up to 64 bits that is served fills the first bytes of a
      buffer that is large enough with the number read - what the access function answered, or the
      integer in storage - modulo the size of the value. */
  lemma UploadTellsNumber(env: Env, c: C.ClientJob, s0: S.Server, o: Obj, e: Entry, times: seq<nat>)
    requires OdOk(env.od) && StoreOk(env.od, s0.store.mem) && Ready(c, C.Read)
    requires Find(env.od, Key(c.index, c.subindex)) == Some((o, e))
    requires c.subindex != 0xFF && UploadCode(env, s0.store, c.index, c.subindex) == 0
    requires ByteLength(e.bitlength) <= 8 && ByteLength(e.bitlength) <= |c.buffer|
    requires |times| == Rounds(ByteLength(e.bitlength))
    ensures var end := Exchanges(env, Begin(c, s0), times);
            var size := ByteLength(e.bitlength);
            && end.client.result == size && |end.client.buffer| == |c.buffer|
            && Le(end.client.buffer[..size]) == Number(env, s0.store, o, e, c.subindex) % Pow256(size)
            && end.client.buffer[size..] == c.buffer[size..]
  {
    hide OdOk, StoreOk, EntryFind, Number, ReadCode, Exchanges, Begin, ToLe, Le, Pow256;
    FindSpec(env.od, Key(c.index, c.subindex));
    UploadEndToEnd(env, c, s0, o, e, times);
    var size := ByteLength(e.bitlength);
    var bytes := ToLe(Number(env, s0.store, o, e, c.subindex), size);
    LeOfToLe(Number(env, s0.store, o, e, c.subindex), size);
    assert bytes[..size] == bytes;
    assert (bytes + c.buffer[size..])[..size] == bytes;
  }

  // ----- downloads

  /** The code a download request is refused with, 0 if it is taken; `carried` is the size of the
      data that came along, if any. */
  function DownloadCode(env: Env, index: U16, subindex: Byte, carried: Option<nat>): U32 {
    if ObjFind(env.od, index).None? then 0x0602_0000
    else
      match Find(env.od, Key(index, subindex))
      case None => 0x0609_0011
      case Some((o, e)) =>
        if !e.writable then 0x0601_0002
        else if o.access && ByteLength(e.bitlength) > 8 then 0x0800_0000
        else if carried.Some? && carried.value != ByteLength(e.bitlength) then 0x0607_0010
        else 0
  }

  /** What a request carries: an expedited one that gives no size has four bytes. */
  function Carried(r: Request): Option<nat>
    requires r.DownloadInit?
  {
    if !r.expedited then None else if r.sized then Some(4 - r.unused) else Some(4)
  }

  lemma DownloadRefused(env: Env, s: S.Server, r: Request, now: nat)
    requires OdOk(env.od) && r.DownloadInit? && DownloadCode(env, r.index, r.subindex, Carried(r)) != 0
    ensures var (t, reply) := S.Step(env, s, r, now);
            && reply == Some(AbortReply(r.index, r.subindex, DownloadCode(env, r.index, r.subindex, Carried(r))))
            && t.job.kind == S.Idle && t.store == s.store && t.dirty == s.dirty
  {
    hide OdOk, SetValue, ByteLength, ObjFind, EntryFind;
    if Find(env.od, Key(r.index, r.subindex)).Some? {
      FindSpec(env.od, Key(r.index, r.subindex));
    }
  }

  /** A request with data is set at once, and confirmed exactly if the value was taken. */
  lemma DownloadSetAtOnce(env: Env, s: S.Server, r: Request, now: nat)
    requires OdOk(env.od) && r.DownloadInit? && r.expedited && DownloadCode(env, r.index, r.subindex, Carried(r)) == 0
    ensures Find(env.od, Key(r.index, r.subindex)).Some?
    ensures var k := Key(r.index, r.subindex);
            var (o, e) := Find(env.od, k).value;
            var (t, reply) := S.Step(env, s, r, now);
            var abort := if reply.Some? && reply.value.AbortReply? then reply.value.code else 0;
            && Wrote(env, s.store, o, e, r.subindex, k, Le(r.data), abort, t.store)
            && reply == Some(if abort == 0 then DownloadStart(r.index, r.subindex)
                             else AbortReply(r.index, r.subindex, abort))
            && t.job.kind == S.Idle && t.dirty == (s.dirty || abort == 0)
  {
    hide OdOk, SetValue, ByteLength, ObjFind, EntryFind, Wrote, Le, Resize;
    var k := Key(r.index, r.subindex);
    FindSpec(env.od, k);
    var (o, e) := Find(env.od, k).value;
    ExtendedNumber(r.data);
    SetValueWrites(env, s.store, o, e, r.subindex, Resize(r.data, 8));
  }

  lemma SetValueWrites(env: Env, st: Store, o: Obj, e: Entry, subindex: nat, value: U64)
    ensures var (abort, end) := SetValue(env, st, o, e, subindex, value);
            Wrote(env, st, o, e, subindex, Key(o.index, subindex), Le(value), abort, end)
  {
    hide SetAt, Wrote;
    SetWrites(env, st, o, e, subindex, Key(o.index, subindex), value);
  }

  /** A request without data starts a job over the whole value. */
  lemma DownloadStarted(env: Env, s: S.Server, r: Request, now: nat)
    requires OdOk(env.od) && r.DownloadInit? && !r.expedited && DownloadCode(env, r.index, r.subindex, None) == 0
    ensures Find(env.od, Key(r.index, r.subindex)).Some?
    ensures var (o, e) := Find(env.od, Key(r.index, r.subindex)).value;
            var (t, reply) := S.Step(env, s, r, now);
            && reply == Some(DownloadStart(r.index, r.subindex)) && t.store == s.store && t.dirty
            && t.job.kind == S.Download && t.job.index == r.index && t.job.subindex == r.subindex
            && t.job.pos == 0 && t.job.remain == ByteLength(e.bitlength) && !t.job.toggle && t.job.timestamp == now
            && t.job.cached == (t.job.remain <= 8)
  {
    hide OdOk, SetValue, ByteLength, ObjFind, EntryFind;
    FindSpec(env.od, Key(r.index, r.subindex));
  }

  /** End to end and in numbers: a download of as many bytes as the value has, up to 64 bits, sets
      the value to the number in the buffer, and the client is told success exactly if it was
      taken. (A value of seven bytes is the one that never completes.) */
  lemma DownloadSetsNumber(env: Env, c: C.ClientJob, s0: S.Server, o: Obj, e: Entry, times: seq<nat>)
    requires OdOk(env.od) && StoreOk(env.od, s0.store.mem) && Ready(c, C.Write)
    requires Find(env.od, Key(c.index, c.subindex)) == Some((o, e)) && e.writable
    requires |c.buffer| == ByteLength(e.bitlength) <= 8 && |c.buffer| != 7
    requires |times| == D.DownloadRounds(o, e, |c.buffer|)
    ensures var end := Exchanges(env, Begin(c, s0), times);
            exists abort: U32 ::
              && Wrote(env, s0.store, o, e, c.subindex, Key(c.index, c.subindex), Le(c.buffer), abort, end.server.store)
              && end.client.result == (if abort == 0 then |c.buffer| else -1) && end.client.calls == c.calls + 1
              && end.server.job.kind == S.Idle
  {
    hide OdOk, StoreOk, ObjFind, EntryFind, Exchanges, Begin, Wrote, Le, SetValue, D.Underneath;
    FindSpec(env.od, Key(c.index, c.subindex));
    D.DownloadEndToEnd(env, c, s0, o, e, times);
    var was := D.Underneath(s0, o, e, c.subindex);
    var value: U64 := if |c.buffer| <= 4 then Resize(c.buffer, 8) else D.Over(was, c.buffer, |c.buffer|);
    var (abort, stored) := SetValue(env, s0.store, o, e, c.subindex, value);
    SetValueWrites(env, s0.store, o, e, c.subindex, value);
    assert value[..|c.buffer|] == c.buffer;
    WroteLowBytes(env, s0.store, o, e, c.subindex, Key(c.index, c.subindex), value, c.buffer, abort, stored);
  }

  /** Only the bytes of the value matter, and of more than four only the low four for an access
      function. */
  lemma WroteLowBytes(env: Env, st: Store, o: Obj, e: Entry, subindex: nat, at: Key, value: U64, data: Data, abort: U32,
                      end: Store)
    requires |data| <= 8 && value[..|data|] == data && (|data| <= 4 ==> value == Resize(data, 8))
    requires Width(e.datatyp) != 0 ==> |data| == Width(e.datatyp)
    requires Wrote(env, st, o, e, subindex, at, Le(value), abort, end)
    ensures Wrote(env, st, o, e, subindex, at, Le(data), abort, end)
  {
    hide Le, Pow256;
    Pow256Values();
    LeOfResize(value, 4);
    LeOfResize(data, 4);
    LeOfResize(value, Width(e.datatyp));
    LeOfResize(data, Width(e.datatyp));
    assert Resize(value, 4) == Resize(data, 4);
    if |data| == Width(e.datatyp) {
      assert Resize(value, |data|) == Resize(data, |data|);
    }
  }

  // ----- toggle bits

  /** A segment request of either kind whose toggle bit is not the job's is refused, and ends the
      job as it stands. */
  lemma WrongToggleRefused(env: Env, s: S.Server, r: Request, now: nat)
    requires OdOk(env.od) && S.IsSegment(r) && r.toggle != s.job.toggle
    ensures var (t, reply) := S.Step(env, s, r, now);
            && reply == Some(AbortReply(s.job.index, s.job.subindex, 0x0503_0000))
            && t == s.(job := s.job.(kind := S.Idle))
  {
    hide OdOk;
  }

  /** So a segment request sent twice in a row is refused the second time, whatever the first one
      was answered: no segment is taken or given twice, and none is skipped. */
  lemma RepeatRefused(env: Env, s: S.Server, r: Request, now: nat, later: nat)
    requires OdOk(env.od) && S.IsSegment(r)
    ensures var t := S.Step(env, s, r, now).0;
            var (u, reply) := S.Step(env, t, r, later);
            && reply == Some(AbortReply(s.job.index, s.job.subindex, 0x0503_0000))
            && u == t.(job := t.job.(kind := S.Idle))
  {
    hide OdOk, S.Step, S.Fetch, Resize;
    if r.toggle != s.job.toggle {
      WrongToggleRefused(env, s, r, now);
    } else if r.UploadSegment? {
      UploadSegmentAnswered(env, s, r, now);
    } else {
      DownloadSegmentAnswered(env, s, r, now);
    }
    WrongToggleRefused(env, S.Step(env, s, r, now).0, r, later);
  }

  /** With the right toggle, an upload segment request is answered under its own toggle bit with
      the next seven bytes, or with what is left, marked as the last. */
  lemma UploadSegmentAnswered(env: Env, s: S.Server, r: Request, now: nat)
    requires OdOk(env.od) && r.UploadSegment? && r.toggle == s.job.toggle
    ensures var (t, reply) := S.Step(env, s, r, now);
            var n := Min(7, s.job.remain);
            var last := s.job.remain <= 7;
            && reply == Some(UploadData(r.toggle, 7 - n, last, Resize(S.Fetch(s, n), 7)))
            && t.store == s.store
            && t.job == if last then s.job.(kind := S.Idle, toggle := !s.job.toggle)
                        else s.job.(toggle := !s.job.toggle, pos := s.job.pos + 7, remain := s.job.remain - 7,
                                    timestamp := now)
  {
    hide OdOk, S.Fetch, Resize;
  }

  /** A download segment moves the cursor by what it carries and there is room for, and is
      confirmed under its own toggle bit; the last one may be refused instead. */
  lemma DownloadSegmentAnswered(env: Env, s: S.Server, r: Request, now: nat)
    requires OdOk(env.od) && r.DownloadSegment? && r.toggle == s.job.toggle
    ensures var (t, reply) := S.Step(env, s, r, now);
            var n := Min(7 - r.unused, s.job.remain);
            && t.job == s.job.(kind := if r.last then S.Idle else s.job.kind, toggle := !s.job.toggle,
                               pos := s.job.pos + n, remain := s.job.remain - n, timestamp := now, value := t.job.value)
            && reply.Some? && (reply.value == DownloadNext(r.toggle) || (r.last && reply.value.AbortReply?))
  {
    hide OdOk, S.Commit, S.Put;
  }

  /** The last segment of a cached download sets the value it has collected, and is confirmed
      exactly if the value was taken. */
  lemma LastSegmentSets(env: Env, s: S.Server, r: Request, now: nat)
    requires OdOk(env.od) && r.DownloadSegment? && r.last && r.toggle == s.job.toggle && s.job.cached
    requires s.job.region == S.Value && s.job.pos + s.job.remain <= 8
    requires Find(env.od, Key(s.job.index, s.job.subindex)).Some?
    ensures var k := Key(s.job.index, s.job.subindex);
            var (o, e) := Find(env.od, k).value;
            var (t, reply) := S.Step(env, s, r, now);
            var abort := if reply.Some? && reply.value.AbortReply? then reply.value.code else 0;
            && t.job.value == Patch(s.job.value, s.job.pos, r.data[..Min(7 - r.unused, s.job.remain)])
            && Wrote(env, s.store, o, e, s.job.subindex, k, Le(t.job.value), abort, t.store)
            && reply == Some(if abort == 0 then DownloadNext(r.toggle)
                             else AbortReply(s.job.index, s.job.subindex, abort))
  {
    hide OdOk, SetValue, ObjFind, EntryFind, Wrote, Le, Patch;
    var k := Key(s.job.index, s.job.subindex);
    FindSpec(env.od, k);
    var (o, e) := Find(env.od, k).value;
    SetValueWrites(env, s.store, o, e, s.job.subindex, S.Step(env, s, r, now).0.job.value);
  }

  /** The last segment of a direct download is confirmed and notified; one that belongs to no value
      of the dictionary, as without any job, is refused. */
  lemma LastSegmentNotifies(env: Env, s: S.Server, r: Request, now: nat)
    requires OdOk(env.od) && r.DownloadSegment? && r.last && r.toggle == s.job.toggle
    requires !s.job.cached || Find(env.od, Key(s.job.index, s.job.subindex)).None?
    ensures var k := Key(s.job.index, s.job.subindex);
            var (t, reply) := S.Step(env, s, r, now);
            && t.store.log == s.store.log
            && if ObjFind(env.od, k.index).None? then
                 reply == Some(AbortReply(k.index, k.subindex, 0x0602_0000)) && t.store.notified == s.store.notified
               else if Find(env.od, k).None? then
                 reply == Some(AbortReply(k.index, k.subindex, 0x0609_0011)) && t.store.notified == s.store.notified
               else
                 && reply == Some(DownloadNext(r.toggle))
                 && t.store.notified
                    == s.store.notified + if Find(env.od, k).value.1.notify then [k] else []
  {
    hide OdOk, ObjFind, EntryFind, Patch;
    if Find(env.od, Key(s.job.index, s.job.subindex)).Some? {
      FindSpec(env.od, Key(s.job.index, s.job.subindex));
    }
  }

  /** A segment of a direct download is written where the cursor points, as far as there is room. */
  lemma SegmentWritten(env: Env, s: S.Server, r: Request, now: nat, k: Key)
    requires OdOk(env.od) && r.DownloadSegment? && r.toggle == s.job.toggle && !s.job.cached
    requires s.job.region == S.Object(k) && s.job.pos + s.job.remain <= |Memory(s.store, k)|
    ensures var n := Min(7 - r.unused, s.job.remain);
            S.Step(env, s, r, now).0.store.mem
            == s.store.mem[k := Patch(Memory(s.store, k), s.job.pos, r.data[..n])]
  {
    hide OdOk, ObjFind, EntryFind, Patch;
  }

  // ----- anything else

  /** A request that is none is refused and ends the job; an abort is not answered and, as the
      code stands, ends nothing. */
  lemma OthersAnswered(env: Env, s: S.Server, now: nat)
    requires OdOk(env.od)
    ensures S.Step(env, s, UnknownRequest, now)
         == (s.(job := s.job.(kind := S.Idle)), Some(AbortReply(0, 0, 0x0504_0001)))
    ensures S.Step(env, s, AbortRequest, now) == (s, None)
  {
    hide OdOk;
  }

  /** A client gives up, once and with an error, on an abort, on a segment with the wrong toggle
      bit, and on anything it does not know, and tells the reason in the last two cases. */
  lemma ClientGivesUp(c: C.ClientJob, r: Reply)
    requires c.active
    ensures var (d, out) := C.Step(c, r);
            var failed := c.(active := false, result := -1, calls := c.calls + 1);
            && (r.AbortReply? ==> d == failed && out == C.Silent)
            && ((r.UploadData? || r.DownloadNext?) && r.toggle != c.toggle
                ==> d == failed && out == C.SendAbort(c.index, c.subindex, 0x0503_0000))
            && (r.UnknownReply? ==> d == failed && out == C.SendAbort(0, 0, 0x0504_0001))
  {
  }

  // ----- the bytes on the bus

  /** A request of a client, by its first byte: ccs in the three high bits, then toggle, number of
      unused bytes and flags where CiA 301 has them. */
  lemma RequestBytes(f: Frame, t: nat, n: nat, c: nat)
    requires t <= 1 && n <= 7 && c <= 1
    ensures f[0] == 0x40 ==> DecodeRequest(f) == UploadInit(Index(f), f[3])
    ensures f[0] == 0x60 + 0x10 * t ==> DecodeRequest(f) == UploadSegment(t == 1)
    ensures f[0] == 0x20 + c ==> DecodeRequest(f) == DownloadInit(Index(f), f[3], false, c == 1, 0, f[4..])
    ensures n <= 3 && f[0] == 0x22 + 4 * n + c ==>
              DecodeRequest(f) == DownloadInit(Index(f), f[3], true, c == 1, n, f[4..])
    ensures f[0] == 0x10 * t + 2 * n + c ==> DecodeRequest(f) == DownloadSegment(t == 1, n, c == 1, f[1..])
    ensures f[0] == 0x80 ==> DecodeRequest(f) == AbortRequest
    ensures f[0] >= 0xA0 ==> DecodeRequest(f) == UnknownRequest
  {
    hide Index, Specifier, Toggle, Bit0, Bit1;
    SegmentByteFields(f[0], t, n, c);
    InitByteFields(f[0], n, c);
  }

  /** A reply of a server. */
  lemma ReplyBytes(f: Frame, t: nat, n: nat, c: nat)
    requires t <= 1 && n <= 7 && c <= 1
    ensures f[0] == 0x41 ==> DecodeReply(f) == UploadStart(Index(f), f[3], Long(f))
    ensures n <= 3 && f[0] == 0x42 + 4 * n + c ==>
              DecodeReply(f) == UploadExpedited(Index(f), f[3], c == 1, n, f[4..])
    ensures f[0] == 0x10 * t + 2 * n + c ==> DecodeReply(f) == UploadData(t == 1, n, c == 1, f[1..])
    ensures f[0] == 0x60 ==> DecodeReply(f) == DownloadStart(Index(f), f[3])
    ensures f[0] == 0x20 + 0x10 * t ==> DecodeReply(f) == DownloadNext(t == 1)
    ensures f[0] == 0x80 ==> DecodeReply(f) == AbortReply(Index(f), f[3], Long(f))
    ensures f[0] >= 0xA0 ==> DecodeReply(f) == UnknownReply
  {
    hide Index, Long, Specifier, Toggle, Bit0, Bit1;
    SegmentByteFields(f[0], t, n, c);
    SegmentByteFields(f[0], 0, n, c);
    InitByteFields(f[0], n, c);
  }

  /** The fields of a first byte: three bits of command specifier, then a toggle bit and three bits
      of count over one flag, or two bits of count over two flags. */
  lemma SegmentByteFields(b: Byte, t: nat, n: nat, c: nat)
    requires t <= 1 && n <= 7 && c <= 1
    ensures b == 0x60 + 0x10 * t ==> Specifier(b) == 3 && Toggle(b) == (t == 1)
    ensures b == 0x20 + 0x10 * t ==> Specifier(b) == 1 && Toggle(b) == (t == 1)
    ensures b == 0x10 * t + 2 * n + c ==>
              Specifier(b) == 0 && Toggle(b) == (t == 1) && Bit0(b) == (c == 1) && (b / 2) % 8 == n
  {
  }

  lemma InitByteFields(b: Byte, n: nat, c: nat)
    requires n <= 7 && c <= 1
    ensures b == 0x40 ==> Specifier(b) == 2
    ensures b == 0x41 ==> Specifier(b) == 2 && !Bit1(b)
    ensures n <= 3 && b == 0x42 + 4 * n + c ==> Specifier(b) == 2 && Bit1(b) && Bit0(b) == (c == 1) && (b / 4) % 4 == n
    ensures b == 0x20 + c ==> Specifier(b) == 1 && !Bit1(b) && Bit0(b) == (c == 1) && (b / 4) % 4 == 0
    ensures n <= 3 && b == 0x22 + 4 * n + c ==> Specifier(b) == 1 && Bit1(b) && Bit0(b) == (c == 1) && (b / 4) % 4 == n
    ensures b == 0x80 ==> Specifier(b) == 4
    ensures b >= 0xA0 ==> Specifier(b) >= 5
  {
  }

  /** The fields behind it, least significant byte first. */
  lemma FieldBytes(f: Frame)
    ensures Index(f) == f[1] + 0x100 * (f[2] as int)
    ensures Long(f) == f[4] + 0x100 * (f[5] as int) + 0x1_0000 * (f[6] as int) + 0x100_0000 * (f[7] as int)
  {
    assert f[1..3][1..] == [f[2]];
    assert Le([f[2]]) == f[2];
    LittleEndian(f[4], f[5], f[6], f[7]);
    assert f[4..] == [f[4], f[5], f[6], f[7]];
  }
}
