/** The SDO handlers as they run on a node: bytes in, bytes out, job state updated in place
    (src/co_sdo_server.c, src/co_sdo_client.c). Server and client share the node, so an abort
    sent by the client also ends the server's job. */
module SdoNode {
  import opened Bytes
  import opened Dictionary
  import opened SdoFrames
  import C = SdoClient
  import S = SdoServer

  /** An abort message as any part of a node sends it. */
  function AbortFrame(index: U16, subindex: Byte, code: U32): Frame {
    InitFrame(0x80, index, subindex, ToLe(code, 4))
  }

  /** An abort is understood by either side. */
  lemma AbortFrameMeans(index: U16, subindex: Byte, code: U32)
    ensures DecodeRequest(AbortFrame(index, subindex, code)) == AbortRequest
    ensures DecodeReply(AbortFrame(index, subindex, code)) == AbortReply(index, subindex, code)
    ensures AbortFrame(index, subindex, code) == EncodeReply(AbortReply(index, subindex, code))
  {
    ReplyRoundTrip(AbortReply(index, subindex, code));
    hide ToLe;
  }

  lemma StepOnData(c: C.ClientJob, f: Frame)
    requires c.active && Specifier(f[0]) == 0
    ensures var d := C.Receive(c.(toggle := !c.toggle), f[1..][..Min(c.remain, 7 - (f[0] / 2) % 8)]);
            d.toggle == !c.toggle && C.Step(c, DecodeReply(f))
            == if c.toggle != Toggle(f[0]) then
                 (C.Finish(c, C.STATUS_ERROR), C.SendAbort(c.index, c.subindex, ABORT_TOGGLE))
               else if Bit0(f[0]) then (C.Finish(d, d.total), C.Silent)
               else (d, C.Send(UploadSegment(!c.toggle)))
  {
    hide C.Receive;
    ReceiveKeepsToggle(c, f[1..][..Min(c.remain, 7 - (f[0] / 2) % 8)]);
  }

  lemma ReceiveKeepsToggle(c: C.ClientJob, data: Data)
    requires |data| <= c.remain
    ensures C.Receive(c.(toggle := !c.toggle), data) == C.Receive(c, data).(toggle := !c.toggle)
  {
    hide Patch;
  }

  class SdoNode {
    const dict: ObjectDictionary
    var node: Byte
    /** The NMT state is pre-operational or operational. */
    var communicating: bool
    var job: S.ServerJob
    var dirty: bool
    var client: C.ClientJob
    /** Frames put on the bus, with their identifiers. */
    var sent: seq<(nat, Frame)>

    constructor (dict: ObjectDictionary, node: Byte, client: C.ClientJob)
      requires dict.Valid() && C.ClientOk(client)
      ensures Valid() && this.dict == dict && this.node == node && sent == [] && job == S.NO_JOB
    {
      this.dict := dict;
      this.node := node;
      communicating := true;
      job := S.NO_JOB;
      dirty := false;
      this.client := client;
      sent := [];
    }

    ghost predicate Valid()
      reads this, dict
    {
      S.ServerOk(dict.env, Server()) && C.ClientOk(client)
    }

    function Server(): S.Server
      reads this, dict
    {
      S.Server(job, dict.St(), dirty)
    }

    /** Frames on the bus after `before` when the server answers `reply`. */
    function After(before: seq<(nat, Frame)>, reply: Option<ServerReply>): seq<(nat, Frame)>
      reads this`node
    {
      before + if reply.Some? then [(0x580 + node, EncodeReply(reply.value))] else []
    }

    function AfterOutput(before: seq<(nat, Frame)>, to: nat, out: C.Output): seq<(nat, Frame)>
      reads this`node
    {
      before + match out
               case Silent => []
               case Send(r) => [(0x600 + to, EncodeRequest(r))]
               case SendAbort(index, subindex, code) => [(0x600 + node, AbortFrame(index, subindex, code))]
    }

    method SendAbort(id: nat, index: U16, subindex: Byte, code: U32)
      modifies this`job, this`sent
      ensures job == old(job).(kind := S.Idle)
      ensures sent == old(sent) + [(id, AbortFrame(index, subindex, code))]
    {
      job := job.(kind := S.Idle);
      var msg := [0x80];
      msg := msg + ToLe(index, 2);
      msg := msg + [subindex];
      msg := msg + ToLe(code, 4);
      sent := sent + [(id, msg)];
    }

    /** A reply of first byte, index and subindex of the job, and four bytes of data. */
    method SendInit(first: Byte, data: Data)
      requires |data| == 4
      modifies this`sent
      ensures sent == old(sent) + [(0x580 + node, InitFrame(first, job.index, job.subindex, data))]
    {
      var msg := [first];
      msg := msg + ToLe(job.index, 2);
      msg := msg + [job.subindex];
      msg := msg + data;
      sent := sent + [(0x580 + node, msg)];
    }

    /** A reply of first byte and up to seven bytes of data. */
    method SendSegment(first: Byte, data: Data)
      requires |data| <= 7
      modifies this`sent
      ensures sent == old(sent) + [(0x580 + node, SegmentFrame(first, Resize(data, 7)))]
    {
      var msg := [first];
      msg := msg + Resize(data, 7);
      sent := sent + [(0x580 + node, msg)];
    }

    // ----- server

    /** Check the toggle bit of a segment against the job, and flip the job's. */
    method ToggleUpdate(first: Byte) returns (ok: bool)
      modifies this`job
      ensures ok == (Toggle(first) == old(job.toggle))
      ensures job == if ok then old(job).(toggle := !old(job).toggle) else old(job)
    {
      if job.toggle != Toggle(first) {
        return false;
      }
      job := job.(toggle := !job.toggle);
      return true;
    }

    method RxUploadInit(f: Frame, now: nat)
      requires Valid()
      modifies this`job, this`sent
      ensures var (s, reply) := S.UploadInitStep(dict.env, old(Server()), Index(f), f[3], now);
              Server() == s && sent == After(old(sent), reply)
    {
      hide S.ServerOk, OdOk, ObjOk, StoreOk, EntryOk, S.UploadSelected, S.Structure, InitFrame, EntryFind, ObjFind;
      S.OkIsWellFormed(dict.env, Server());
      var index, subindex := Index(f), f[3];
      job := job.(kind := S.Upload, index := index, subindex := subindex, cached := false, timestamp := now);

      var obj := LookupObj(dict.env.od, index);
      if obj.None? {
        SendAbort(0x580 + node, index, subindex, ABORT_BAD_INDEX);
        return;
      }
      MemberOk(dict.env.od, obj.value);
      if subindex == 0xFF {
        job := job.(kind := S.Idle);
        SendStructure(obj.value);
        return;
      }
      var entry := LookupEntry(obj.value, subindex);
      if entry.None? {
        SendAbort(0x580 + node, index, subindex, ABORT_BAD_SUBINDEX);
        return;
      }
      if !entry.value.readable {
        SendAbort(0x580 + node, index, subindex, ABORT_ACCESS_WO);
        return;
      }
      EntryFindSpec(obj.value, subindex);
      UploadSelected(obj.value, entry.value);
    }

    method SendStructure(o: Obj)
      requires ObjOk(o) && job.subindex == 0xFF
      modifies this`sent
      ensures sent == After(old(sent), Some(UploadExpedited(job.index, 0xFF, true, 0, S.Structure(o))))
    {
      var datatyp := 0;
      if o.objtype == Var {
        datatyp := TypeCode(o.entries[0].datatyp);
      } else if o.objtype == Array {
        datatyp := TypeCode(o.entries[1].datatyp);
      }
      SendInit(0x40 + 2 + 1, [ObjCode(o.objtype), datatyp, 0, 0]);
    }

    method UploadSelected(o: Obj, e: Entry)
      requires EntryOk(e)
      modifies this`job, this`sent
      ensures var (s, reply) := S.UploadSelected(dict.env, old(Server()), o, e);
              Server() == s && sent == After(old(sent), reply)
    {
      hide GetValue, InitFrame, ToLe;
      job := job.(remain := ByteLength(e.bitlength), toggle := false);
      if job.remain <= 8 {
        var (abort, value) := GetValue(dict.env, dict.St(), o, e, job.subindex);
        job := job.(value := value, region := S.Value, pos := 0);
        if abort != 0 {
          SendAbort(0x580 + node, job.index, job.subindex, abort);
          return;
        }
      } else {
        if o.access {
          SendAbort(0x580 + node, job.index, job.subindex, ABORT_GENERAL);
          return;
        }
        job := job.(region := S.Object(Key(job.index, job.subindex)), pos := 0);
      }
      if job.remain <= 4 {
        var n := 4 - job.remain;
        SendInit(0x40 + 2 + n * 4 + 1, job.value[..4]);
        job := job.(kind := S.Idle);
      } else {
        SendInit(0x40 + 1, ToLe(job.remain % 0x1_0000_0000, 4));
      }
    }

    method RxUploadSegment(f: Frame, now: nat)
      requires Valid()
      modifies this`job, this`sent
      ensures var (s, reply) := S.UploadSegmentStep(old(Server()), Toggle(f[0]), now);
              Server() == s && sent == After(old(sent), reply)
    {
      hide OdOk, StoreOk, S.Fetch, InitFrame, SegmentFrame, Toggle, Resize;
      var ok := ToggleUpdate(f[0]);
      if !ok {
        SendAbort(0x580 + node, job.index, job.subindex, ABORT_TOGGLE);
        return;
      }
      FetchIgnoresToggle(old(Server()), Server());
      if job.remain <= 7 {
        var n := 7 - job.remain;
        SendSegment(0x00 + 1 + Flag(Toggle(f[0]), 16) + n * 2, S.Fetch(Server(), job.remain));
        job := job.(kind := S.Idle);
      } else {
        SendSegment(0x00 + Flag(Toggle(f[0]), 16), S.Fetch(Server(), 7));
        job := job.(pos := job.pos + 7, remain := job.remain - 7, timestamp := now);
      }
    }

    method RxDownloadInit(f: Frame, now: nat)
      requires Valid()
      modifies this`job, this`sent, this`dirty, dict
      ensures dict.Valid()
      ensures var b := f[0];
              var (s, reply) := S.DownloadInitStep(dict.env, old(Server()), Index(f), f[3], Bit1(b), Bit0(b),
                                                   (b / 4) % 4, f[4..], now);
              Server() == s && sent == After(old(sent), reply)
    {
      hide S.ServerOk, OdOk, ObjOk, StoreOk, S.DownloadSelected, InitFrame, EntryFind, ObjFind;
      S.OkIsWellFormed(dict.env, Server());
      var index, subindex := Index(f), f[3];
      job := job.(kind := S.Download, index := index, subindex := subindex, cached := false, timestamp := now);

      var obj := LookupObj(dict.env.od, index);
      if obj.None? {
        SendAbort(0x580 + node, index, subindex, ABORT_BAD_INDEX);
        return;
      }
      MemberOk(dict.env.od, obj.value);
      var entry := LookupEntry(obj.value, subindex);
      if entry.None? {
        SendAbort(0x580 + node, index, subindex, ABORT_BAD_SUBINDEX);
        return;
      }
      if !entry.value.writable {
        SendAbort(0x580 + node, index, subindex, ABORT_ACCESS_RO);
        return;
      }
      DownloadSelected(obj.value, entry.value, f);
    }

    method DownloadSelected(o: Obj, e: Entry, f: Frame)
      requires dict.Valid() && Find(dict.env.od, Key(o.index, job.subindex)) == Some((o, e)) && o.index == job.index
      modifies this`job, this`sent, this`dirty, dict
      ensures dict.Valid()
      ensures var b := f[0];
              var (s, reply) := S.DownloadSelected(dict.env, old(Server()), o, e, Bit1(b),
                                                   ExpeditedSize(Bit0(b), (b / 4) % 4), f[4..]);
              Server() == s && sent == After(old(sent), reply)
    {
      hide OdOk, StoreOk, Find, SetValue, InitFrame, Resize;
      job := job.(remain := ByteLength(e.bitlength), toggle := false);
      if job.remain <= 8 {
        job := job.(region := S.Value, pos := 0, cached := true);
      } else {
        if o.access {
          SendAbort(0x580 + node, job.index, job.subindex, ABORT_GENERAL);
          return;
        }
        job := job.(region := S.Object(Key(job.index, job.subindex)), pos := 0);
      }
      if Bit1(f[0]) {
        var done := SetExpedited(o, e, f);
        if !done { return; }
      }
      dirty := true;
      SendInit(0x60, Zeros(4));
    }

    /** The data came with the request: check its size and set it at once. */
    method SetExpedited(o: Obj, e: Entry, f: Frame) returns (done: bool)
      requires dict.Valid() && Find(dict.env.od, Key(o.index, job.subindex)) == Some((o, e))
      modifies this`job, this`sent, dict
      ensures dict.Valid()
      ensures var size := ExpeditedSize(Bit0(f[0]), (f[0] / 4) % 4);
              var (abort, st) := if size != old(job.remain) then (ABORT_LENGTH, old(dict.St()))
                                 else SetValue(dict.env, old(dict.St()), o, e, old(job.subindex), Resize(f[4..], 8));
              && done == (abort == 0) && dict.St() == st && job == old(job).(kind := S.Idle)
              && sent == if done then old(sent) else After(old(sent), Some(AbortReply(job.index, job.subindex, abort)))
    {
      hide OdOk, StoreOk, SetValue, Find, Resize;
      var size := if Bit0(f[0]) then 4 - (f[0] / 4) % 4 else 4;
      if size != job.remain {
        SendAbort(0x580 + node, job.index, job.subindex, ABORT_LENGTH);
        return false;
      }
      var abort := dict.Set(o, e, job.subindex, Resize(f[4..], 8));
      job := job.(kind := S.Idle);
      if abort != 0 {
        SendAbort(0x580 + node, job.index, job.subindex, abort);
        return false;
      }
      return true;
    }

    /** memcpy to the data pointer. */
    method CopyIn(data: Data)
      requires Valid() && |data| <= job.remain
      modifies this`job, dict`mem
      ensures Server() == S.Put(old(Server()), data)
    {
      match job.region
      case Nowhere =>
      case Value => job := job.(value := Patch(job.value, job.pos, data));
      case Object(key) => dict.mem := dict.mem[key := Patch(dict.mem[key], job.pos, data)];
    }

    method RxDownloadSegment(f: Frame, now: nat)
      requires Valid()
      modifies this`job, this`sent, dict
      ensures dict.Valid()
      ensures var b := f[0];
              var (s, reply) := S.DownloadSegmentStep(dict.env, old(Server()), Toggle(b), (b / 2) % 8, Bit0(b),
                                                      f[1..], now);
              Server() == s && sent == After(old(sent), reply)
    {
      hide OdOk, StoreOk, S.Put, S.Commit, S.CursorOk, InitFrame, SegmentFrame, Toggle, Bit0;
      hide S.DownloadSegmentStep, C.ClientOk;
      S.SameCursor(dict.env, Server(), Server().(job := job.(toggle := !job.toggle)));
      var ok := ToggleUpdate(f[0]);
      if !ok {
        WrongToggle(dict.env, Server(), f, now);
        SendAbort(0x580 + node, job.index, job.subindex, ABORT_TOGGLE);
        return;
      }
      SegmentInOrder(dict.env, old(Server()), Toggle(f[0]), (f[0] / 2) % 8, Bit0(f[0]), f[1..], now);
      hide Valid, S.ServerOk;
      TakeSegment(f, now);
    }

    /** Copy the data of a segment, advance, and finish. */
    method TakeSegment(f: Frame, now: nat)
      requires Valid()
      modifies this`job, this`sent, dict
      ensures dict.Valid()
      ensures var s := old(Server());
              var size := Min(7 - (f[0] / 2) % 8, s.job.remain);
              var p := S.Put(s, f[1..][..size]);
              var t := p.(job := p.job.(pos := s.job.pos + size, remain := s.job.remain - size, timestamp := now));
              var (abort, st) := if Bit0(f[0]) then S.Commit(dict.env, t) else (0, t.store);
              && Server() == t.(store := st, job := if Bit0(f[0]) then t.job.(kind := S.Idle) else t.job)
              && sent == After(old(sent), Some(if abort != 0 then AbortReply(t.job.index, t.job.subindex, abort)
                                               else DownloadNext(Toggle(f[0]))))
    {
      hide OdOk, StoreOk, S.Put, S.Commit, S.CursorOk, InitFrame, SegmentFrame, Toggle, Bit0, C.ClientOk;
      var size := 7 - (f[0] / 2) % 8;
      size := Min(size, job.remain);
      S.PutSpec(dict.env, Server(), f[1..][..size]);
      CopyIn(f[1..][..size]);
      job := job.(pos := job.pos + size, remain := job.remain - size, timestamp := now);
      FinishSegment(f);
    }

    /** Complete the download if this was the last segment, and answer. */
    method FinishSegment(f: Frame)
      requires dict.Valid()
      modifies this`job, this`sent, dict
      ensures dict.Valid()
      ensures var t := old(Server());
              var (abort, st) := if Bit0(f[0]) then S.Commit(dict.env, t) else (0, t.store);
              && Server() == t.(store := st, job := if Bit0(f[0]) then t.job.(kind := S.Idle) else t.job)
              && sent == After(old(sent), Some(if abort != 0 then AbortReply(job.index, job.subindex, abort)
                                               else DownloadNext(Toggle(f[0]))))
    {
      hide OdOk, StoreOk, S.Commit, InitFrame, SegmentFrame, Toggle, Bit0;
      if Bit0(f[0]) {
        CommitIgnoresKind(dict.env, Server());
        job := job.(kind := S.Idle);
        var abort := CommitDownload();
        if abort != 0 {
          SendAbort(0x580 + node, job.index, job.subindex, abort);
          return;
        }
      }
      assert Resize(Zeros(7), 7) == Zeros(7);
      SendSegment(0x20 + Flag(Toggle(f[0]), 16), Zeros(7));
    }

    /** Write complete: set the cached value, or notify. */
    method CommitDownload() returns (abort: U32)
      requires dict.Valid()
      modifies dict
      ensures dict.Valid()
      ensures (abort, dict.St()) == S.Commit(dict.env, old(Server()))
    {
      var obj := LookupObj(dict.env.od, job.index);
      if obj.None? { return ABORT_BAD_INDEX; }
      var entry := LookupEntry(obj.value, job.subindex);
      if entry.None? { return ABORT_BAD_SUBINDEX; }
      if job.cached {
        abort := dict.Set(obj.value, entry.value, job.subindex, job.value);
      } else {
        dict.Notified(obj.value, entry.value, job.subindex);
        abort := 0;
      }
    }

    /** A frame for the server. The cursor stays in its buffer unless the request overruns. */
    method Rx(to: Byte, f: Frame, dlc: nat, now: nat)
      requires Valid()
      modifies this`job, this`sent, this`dirty, dict
      ensures Valid() <==> !(to == node && communicating && dlc == 8
                             && S.Overruns(dict.env, old(Server()), DecodeRequest(f)))
      ensures if to != node || !communicating then Server() == old(Server()) && sent == old(sent)
              else
                var (s, reply) := if dlc != 8 then S.Abort(old(Server()), 0, 0, 0x0800_0000)
                                  else S.Step(dict.env, old(Server()), DecodeRequest(f), now);
                Server() == s
                && sent == old(sent) + if reply.Some? then [(0x580 + node, EncodeReply(reply.value))] else []
    {
      hide S.ServerOk, S.Overruns, OdOk, StoreOk, C.ClientOk, InitFrame, S.Step, DecodeRequest, EncodeReply;
      if to != node { return; }
      if !communicating { return; }
      RxKeepsOk(dict.env, Server(), f, now);
      if dlc != 8 {
        AbortFrameMeans(0, 0, ABORT_GENERAL);
        SendAbort(0x580 + node, 0, 0, ABORT_GENERAL);
        return;
      }
      Dispatch(f, now);
    }

    /** The handler of a request by its command. */
    method Dispatch(f: Frame, now: nat)
      requires Valid()
      modifies this`job, this`sent, this`dirty, dict
      ensures dict.Valid()
      ensures var (s, reply) := S.Step(dict.env, old(Server()), DecodeRequest(f), now);
              Server() == s && sent == After(old(sent), reply)
    {
      hide S.ServerOk, OdOk, StoreOk, C.ClientOk, InitFrame;
      S.OkIsWellFormed(dict.env, Server());
      match Specifier(f[0])
      case 2 => RxUploadInit(f, now);
      case 3 => RxUploadSegment(f, now);
      case 1 => RxDownloadInit(f, now);
      case 0 => RxDownloadSegment(f, now);
      case 4 =>
      case _ => SendAbort(0x580 + node, 0, 0, ABORT_UNKNOWN);
    }

    /** Abort a transfer without progress for too long. */
    method ServerTimer(now: nat)
      requires Valid()
      modifies this`job, this`sent
      ensures Valid()
      ensures if old(job.kind) != S.Idle && now >= old(job.timestamp) + 100_000
              then job == old(job).(kind := S.Idle)
                   && sent == After(old(sent), Some(AbortReply(job.index, job.subindex, 0x0504_0000)))
              else job == old(job) && sent == old(sent)
    {
      hide OdOk, StoreOk, S.CursorOk, C.ClientOk, InitFrame;
      S.SameCursor(dict.env, Server(), Server().(job := job.(kind := S.Idle)));
      if job.kind == S.Upload || job.kind == S.Download {
        if now >= job.timestamp + 1000 * SDO_TIMEOUT {
          SendAbort(0x580 + node, job.index, job.subindex, ABORT_TIMEOUT);
        }
      }
    }

    // ----- client

    method Done(result: int)
      modifies this`client
      ensures client == C.Finish(old(client), result)
    {
      client := client.(active := false);
      client := client.(result := result, calls := client.calls + 1);
    }

    /** memcpy to the caller's buffer. */
    method Receive(data: Data)
      requires C.ClientOk(client) && |data| <= client.remain
      modifies this`client
      ensures client == C.Receive(old(client), data)
    {
      client := client.(buffer := Patch(client.buffer, client.pos, data));
      client := client.(pos := client.pos + |data|);
      client := client.(remain := client.remain - |data|);
      client := client.(total := client.total + |data|);
    }

    method SendRequest(to: Byte, first: Byte, data: Data)
      requires |data| <= 7
      modifies this`sent
      ensures sent == old(sent) + [(0x600 + to, SegmentFrame(first, Resize(data, 7)))]
    {
      var msg := [first];
      msg := msg + Resize(data, 7);
      sent := sent + [(0x600 + to, msg)];
    }

    /** Start a transfer. */
    method Issue(c: C.ClientJob)
      requires Valid() && C.ClientOk(c)
      modifies this`client, this`sent
      ensures Valid() && client == C.Issue(c).0
      ensures sent == old(sent) + [(0x600 + c.node, FirstFrame(c))]
    {
      hide OdOk, StoreOk, S.ServerOk, Resize, ToLe;
      client := c.(active := true, total := 0);
      var first, data := 0, Zeros(4);
      if client.kind == C.Read {
        first := 0x40;
      } else {
        first := 0x20;
        if client.remain <= 4 {
          var n := 4 - client.remain;
          first := first + n * 4 + 2 + 1;
          data := Resize(client.buffer[client.pos..client.pos + client.remain], 4);
          client := client.(total := client.remain, remain := 0);
        } else {
          first := first + 1;
          data := ToLe(client.remain, 4);
        }
      }
      var msg: Data := [first];
      msg := msg + ToLe(client.index, 2);
      msg := msg + [client.subindex];
      msg := msg + data;
      sent := sent + [(0x600 + c.node, msg)];
    }

    method TxUploadInit(from: Byte, f: Frame)
      requires client.active && C.ClientOk(client) && Specifier(f[0]) == 2
      modifies this`client, this`sent
      ensures var (c, out) := C.Step(old(client), DecodeReply(f));
              client == c && sent == AfterOutput(old(sent), from, out) && !out.SendAbort?
    {
      if Bit1(f[0]) {
        var size := if Bit0(f[0]) then 4 - (f[0] / 4) % 4 else 4;
        size := Min(client.remain, size);
        Receive(f[4..][..size]);
        Done(client.total);
      } else {
        var size := Min(client.remain, Long(f));
        client := client.(remain := size, toggle := false, total := 0);
        assert Resize([], 7) == Zeros(7);
        SendRequest(from, 0x60, []);
      }
    }

    method TxUploadSegment(from: Byte, f: Frame)
      requires client.active && C.ClientOk(client) && Specifier(f[0]) == 0
      modifies this`client, this`sent, this`job
      ensures var (c, out) := C.Step(old(client), DecodeReply(f));
              && client == c && sent == AfterOutput(old(sent), from, out)
              && job == if out.SendAbort? then old(job).(kind := S.Idle) else old(job)
    {
      hide C.Step, C.Receive, DecodeReply, SegmentFrame, InitFrame;
      StepOnData(client, f);
      if client.toggle != Toggle(f[0]) {
        SendAbort(0x600 + node, client.index, client.subindex, ABORT_TOGGLE);
        Done(C.STATUS_ERROR);
        return;
      }
      client := client.(toggle := !client.toggle);
      var size := 7 - (f[0] / 2) % 8;
      size := Min(client.remain, size);
      Receive(f[1..][..size]);
      if Bit0(f[0]) {
        Done(client.total);
      } else {
        assert Resize([], 7) == Zeros(7);
        SendRequest(from, 0x60 + Flag(client.toggle, 16), []);
      }
    }

    /** Send the next part of the buffer. */
    method Supply(to: Byte)
      requires C.ClientOk(client) && client.remain > 0
      modifies this`client, this`sent
      ensures var (c, out) := C.NextSegment(old(client)); client == c && sent == AfterOutput(old(sent), to, out)
    {
      hide Resize, SegmentFrame;
      var size := Min(client.remain, 7);
      var data := client.buffer[client.pos..client.pos + size];
      var first := (7 - size) * 2;
      if client.toggle {
        first := first + 16;
      }
      if size < 7 {
        first := first + 1;
      }
      client := client.(pos := client.pos + size, remain := client.remain - size, total := client.total + size);
      SendRequest(to, first, data);
    }

    method TxDownloadInit(from: Byte, f: Frame)
      requires client.active && C.ClientOk(client) && Specifier(f[0]) == 3
      modifies this`client, this`sent
      ensures var (c, out) := C.Step(old(client), DecodeReply(f));
              client == c && sent == AfterOutput(old(sent), from, out) && !out.SendAbort?
    {
      if client.remain == 0 {
        Done(client.total);
      } else {
        client := client.(toggle := false);
        Supply(from);
      }
    }

    method TxDownloadSegment(from: Byte, f: Frame)
      requires client.active && C.ClientOk(client) && Specifier(f[0]) == 1
      modifies this`client, this`sent, this`job
      ensures var (c, out) := C.Step(old(client), DecodeReply(f));
              && client == c && sent == AfterOutput(old(sent), from, out)
              && job == if out.SendAbort? then old(job).(kind := S.Idle) else old(job)
    {
      if client.toggle != Toggle(f[0]) {
        SendAbort(0x600 + node, client.index, client.subindex, ABORT_TOGGLE);
        Done(C.STATUS_ERROR);
        return;
      }
      client := client.(toggle := !client.toggle);
      if client.remain == 0 {
        Done(client.total);
      } else {
        Supply(from);
      }
    }

    /** A frame for the client. An abort the client sends ends the job of this node's own
        server too. */
    method Tx(from: Byte, f: Frame, dlc: nat)
      requires Valid()
      modifies this`client, this`sent, this`job
      ensures Valid()
      ensures if !old(client.active) || from != old(client.node)
              then client == old(client) && sent == old(sent) && job == old(job)
              else
                var (c, out) := if dlc != 8
                                then (C.Finish(old(client), C.STATUS_ERROR), C.SendAbort(0, 0, 0x0800_0000))
                                else C.Step(old(client), DecodeReply(f));
                && client == c
                && sent == old(sent) + (match out
                                        case Silent => []
                                        case Send(r) => [(0x600 + from, EncodeRequest(r))]
                                        case SendAbort(index, subindex, code) =>
                                          [(0x600 + node, AbortFrame(index, subindex, code))])
                && job == if out.SendAbort? then old(job).(kind := S.Idle) else old(job)
    {
      hide OdOk, StoreOk, C.Step, S.ServerOk, C.ClientOk, DecodeReply, AbortFrame, EncodeRequest;
      if !client.active { return; }
      if client.node != from { return; }
      S.SameCursor(dict.env, Server(), Server().(job := job.(kind := S.Idle)));
      C.StepKeepsOk(client, DecodeReply(f));
      C.FinishKeepsOk(client, C.STATUS_ERROR);
      if dlc != 8 {
        SendAbort(0x600 + node, 0, 0, ABORT_GENERAL);
        Done(C.STATUS_ERROR);
        return;
      }
      DispatchReply(from, f);
    }

    /** The handler of a reply by its command. */
    method DispatchReply(from: Byte, f: Frame)
      requires client.active && C.ClientOk(client)
      modifies this`client, this`sent, this`job
      ensures var (c, out) := C.Step(old(client), DecodeReply(f));
              && client == c && sent == AfterOutput(old(sent), from, out)
              && job == if out.SendAbort? then old(job).(kind := S.Idle) else old(job)
    {
      hide C.Step, C.ClientOk, DecodeReply, AfterOutput;
      match Specifier(f[0])
      case 2 => TxUploadInit(from, f);
      case 0 => TxUploadSegment(from, f);
      case 3 => TxDownloadInit(from, f);
      case 1 => TxDownloadSegment(from, f);
      case 4 => Refused(from, f);
      case _ => Refused(from, f);
    }

    /** An abort from the peer, or a frame that is none of the protocol's. */
    method Refused(from: Byte, f: Frame)
      requires client.active && Specifier(f[0]) >= 4
      modifies this`client, this`sent, this`job
      ensures var (c, out) := C.Step(old(client), DecodeReply(f));
              && client == c && sent == AfterOutput(old(sent), from, out)
              && job == if out.SendAbort? then old(job).(kind := S.Idle) else old(job)
    {
      if Specifier(f[0]) != 4 {
        SendAbort(0x600 + node, 0, 0, ABORT_UNKNOWN);
      }
      Done(C.STATUS_ERROR);
    }

    /** Give up on a transfer requested too long ago, answered or not; the abort goes out under the
        identifier of this node's own server. */
    method ClientTimer(now: nat)
      requires Valid()
      modifies this`client, this`sent, this`job
      ensures Valid()
      ensures if old(client.active) && now >= old(client.timestamp) + 100_000
              then
                && client == C.Finish(old(client), C.STATUS_ERROR) && job == old(job).(kind := S.Idle)
                && sent == old(sent) + [(0x580 + node, AbortFrame(client.index, client.subindex, 0x0504_0000))]
              else client == old(client) && sent == old(sent) && job == old(job)
    {
      if !client.active { return; }
      hide OdOk, StoreOk, S.CursorOk;
      S.SameCursor(dict.env, Server(), Server().(job := job.(kind := S.Idle)));
      if now >= client.timestamp + 1000 * SDO_TIMEOUT {
        SendAbort(0x580 + node, client.index, client.subindex, ABORT_TIMEOUT);
        Done(C.STATUS_ERROR);
      }
    }
  }

  /** The bytes of the first request of a transfer. */
  function FirstFrame(c: C.ClientJob): Frame {
    if c.kind == C.Read then InitFrame(0x40, c.index, c.subindex, Zeros(4))
    else if c.remain <= 4 then
      InitFrame(0x20 + (4 - c.remain) * 4 + 2 + 1, c.index, c.subindex, Resize(C.Peek(c, c.remain), 4))
    else InitFrame(0x20 + 1, c.index, c.subindex, ToLe(c.remain, 4))
  }

  /** They mean the request intended; a write of no bytes at all sets a reserved bit, which the
      receiver ignores. */
  lemma FirstFrameMeans(c: C.ClientJob)
    ensures DecodeRequest(FirstFrame(c)) == C.Issue(c).1
    ensures c.kind == C.Read || c.remain > 0 ==> FirstFrame(c) == EncodeRequest(C.Issue(c).1)
  {
    hide InitFrame;
    if c.kind == C.Read || c.remain > 0 {
      RequestRoundTrip(C.Issue(c).1);
    } else {
      InitFrameFields(0x33, c.index, c.subindex, Resize(C.Peek(c, 0), 4));
    }
  }

  /** The server's treatment of a segment with the right toggle, in the order of the handler. */
  lemma SegmentInOrder(env: Env, s: S.Server, toggle: bool, unused: nat, last: bool, data: Data, now: nat)
    requires unused <= 7 && |data| == 7 && toggle == s.job.toggle
    ensures var size := Min(7 - unused, s.job.remain);
            var p := S.Put(s.(job := s.job.(toggle := !toggle)), data[..size]);
            var t := p.(job := p.job.(pos := s.job.pos + size, remain := s.job.remain - size, timestamp := now));
            var (abort, st) := if last then S.Commit(env, t) else (0, t.store);
            S.DownloadSegmentStep(env, s, toggle, unused, last, data, now)
            == (t.(store := st, job := if last then t.job.(kind := S.Idle) else t.job),
                Some(if abort != 0 then AbortReply(t.job.index, t.job.subindex, abort) else DownloadNext(toggle)))
  {
    var size := Min(7 - unused, s.job.remain);
    PutIgnoresToggle(s, s.(job := s.job.(toggle := !toggle)), data[..size]);
    hide S.Commit, S.Put;
  }

  lemma WrongToggle(env: Env, s: S.Server, f: Frame, now: nat)
    requires Toggle(f[0]) != s.job.toggle
    ensures S.DownloadSegmentStep(env, s, Toggle(f[0]), (f[0] / 2) % 8, Bit0(f[0]), f[1..], now)
         == S.AbortJob(s, ABORT_TOGGLE)
  {
  }

  lemma FetchIgnoresToggle(s: S.Server, t: S.Server)
    requires t == s.(job := s.job.(toggle := t.job.toggle))
    ensures forall n :: S.Fetch(t, n) == S.Fetch(s, n)
  {
  }

  lemma PutIgnoresToggle(s: S.Server, t: S.Server, data: Data)
    requires t == s.(job := s.job.(toggle := t.job.toggle))
    ensures S.Put(t, data) == S.Put(s, data).(job := S.Put(s, data).job.(toggle := t.job.toggle))
  {
  }

  lemma CommitIgnoresKind(env: Env, s: S.Server)
    ensures S.Commit(env, s.(job := s.job.(kind := S.Idle))) == S.Commit(env, s)
  {
  }

  lemma RxKeepsOk(env: Env, s: S.Server, f: Frame, now: nat)
    requires S.ServerOk(env, s)
    ensures OdOk(env.od)
    ensures S.ServerOk(env, S.Step(env, s, DecodeRequest(f), now).0) <==> !S.Overruns(env, s, DecodeRequest(f))
    ensures S.ServerOk(env, s.(job := s.job.(kind := S.Idle)))
  {
    S.StepKeepsOk(env, s, DecodeRequest(f), now);
    S.SameCursor(env, s, s.(job := s.job.(kind := S.Idle)));
  }
}
