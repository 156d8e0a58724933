/** The SDO server as a protocol over messages (src/co_sdo_server.c). */
module SdoServer {
  import opened Bytes
  import opened Dictionary
  import opened SdoFrames

  datatype JobKind = Idle | Upload | Download

  /** What the data pointer of a job points into: nothing yet, the job's own 64-bit value, or
      the storage of a dictionary value. */
  datatype Region = Nowhere | Value | Object(key: Key)

  datatype ServerJob = ServerJob(
    kind: JobKind, index: U16, subindex: Byte,
    region: Region, pos: nat, remain: nat,
    value: U64, toggle: bool, cached: bool, timestamp: nat)

  datatype Server = Server(job: ServerJob, store: Store, dirty: bool)

  const NO_JOB := ServerJob(Idle, 0, 0, Nowhere, 0, 0, [0, 0, 0, 0, 0, 0, 0, 0], false, false, 0)

  /** The memory a job points into. */
  function RegionBytes(s: Server): Data {
    match s.job.region
    case Nowhere => []
    case Value => s.job.value
    case Object(key) => Memory(s.store, key)
  }

  /** `n` bytes at the data pointer. */
  function Fetch(s: Server, n: nat): (r: Data)
    ensures |r| == n
  {
    var d := RegionBytes(s);
    if s.job.pos + n <= |d| then d[s.job.pos..s.job.pos + n] else Zeros(n)
  }

  /** Copy bytes to the data pointer. */
  function Put(s: Server, data: Data): (r: Server)
    ensures r.job == s.job.(value := r.job.value)
  {
    var d := RegionBytes(s);
    if s.job.pos + |data| > |d| then s
    else
      match s.job.region
      case Nowhere => s
      case Value => s.(job := s.job.(value := Patch(s.job.value, s.job.pos, data)))
      case Object(key) => s.(store := s.store.(mem := s.store.mem[key := Patch(d, s.job.pos, data)]))
  }

  /** Advance the data pointer. */
  function Advance(job: ServerJob, n: nat, now: nat): ServerJob
    requires n <= job.remain
  {
    job.(pos := job.pos + n, remain := job.remain - n, timestamp := now)
  }

  function Abort(s: Server, index: U16, subindex: Byte, code: U32): (Server, Option<ServerReply>) {
    (s.(job := s.job.(kind := Idle)), Some(AbortReply(index, subindex, code)))
  }

  function AbortJob(s: Server, code: U32): (Server, Option<ServerReply>) {
    Abort(s, s.job.index, s.job.subindex, code)
  }

  /** Object type and data type, for subindex FFh. */
  function Structure(o: Obj): Data
    requires ObjOk(o)
  {
    var datatyp := if o.objtype == Var then TypeCode(o.entries[0].datatyp)
                   else if o.objtype == Array then TypeCode(o.entries[1].datatyp)
                   else 0;
    [ObjCode(o.objtype), datatyp, 0, 0]
  }

  function Start(job: ServerJob, kind: JobKind, index: U16, subindex: Byte, now: nat): ServerJob {
    job.(kind := kind, index := index, subindex := subindex, cached := false, timestamp := now)
  }

  /** An upload of a value that exists and may be read: fetched at once up to 64 bits, read
      through a pointer above. */
  function UploadSelected(env: Env, s: Server, o: Obj, e: Entry): (Server, Option<ServerReply>)
    requires EntryOk(e)
  {
    var size := ByteLength(e.bitlength);
    var job := s.job.(remain := size, toggle := false);
    if size <= 8 then
      var (abort, value) := GetValue(env, s.store, o, e, job.subindex);
      var t := s.(job := job.(region := Value, pos := 0, value := value));
      if abort != 0 then AbortJob(t, abort)
      else if size <= 4 then
        (t.(job := t.job.(kind := Idle)),
         Some(UploadExpedited(job.index, job.subindex, true, 4 - size, value[..4])))
      else (t, Some(UploadStart(job.index, job.subindex, size)))
    else if o.access then AbortJob(s.(job := job), ABORT_GENERAL)
    else
      (s.(job := job.(region := Object(Key(job.index, job.subindex)), pos := 0)),
       Some(UploadStart(job.index, job.subindex, size % 0x1_0000_0000)))
  }

  function UploadInitStep(env: Env, s0: Server, index: U16, subindex: Byte, now: nat): (Server, Option<ServerReply>)
    requires OdOk(env.od)
  {
    var s := s0.(job := Start(s0.job, Upload, index, subindex, now));
    match ObjFind(env.od, index)
    case None => AbortJob(s, ABORT_BAD_INDEX)
    case Some(o) =>
      if subindex == 0xFF then
        (s.(job := s.job.(kind := Idle)), Some(UploadExpedited(index, 0xFF, true, 0, Structure(o))))
      else
        match EntryFind(o, subindex)
        case None => AbortJob(s, ABORT_BAD_SUBINDEX)
        case Some(e) =>
          EntryFindSpec(o, subindex);
          if e.readable then UploadSelected(env, s, o, e) else AbortJob(s, ABORT_ACCESS_WO)
  }

  function UploadSegmentStep(s: Server, toggle: bool, now: nat): (Server, Option<ServerReply>) {
    if toggle != s.job.toggle then AbortJob(s, ABORT_TOGGLE)
    else
      var t := s.(job := s.job.(toggle := !toggle));
      if s.job.remain <= 7 then
        (t.(job := t.job.(kind := Idle)),
         Some(UploadData(toggle, 7 - s.job.remain, true, Resize(Fetch(s, s.job.remain), 7))))
      else
        (t.(job := Advance(t.job, 7, now)), Some(UploadData(toggle, 0, false, Resize(Fetch(s, 7), 7))))
  }

  /** A download to a value that exists and may be written: cached up to 64 bits, written in
      place above, and finished at once when the data came along. */
  function DownloadSelected(env: Env, s: Server, o: Obj, e: Entry, expedited: bool, size: nat, data: Data)
    : (Server, Option<ServerReply>)
  {
    var job := s.job.(remain := ByteLength(e.bitlength), toggle := false);
    if job.remain > 8 && o.access then AbortJob(s.(job := job), ABORT_GENERAL)
    else
      var t := s.(job := if job.remain <= 8 then job.(region := Value, pos := 0, cached := true)
                         else job.(region := Object(Key(job.index, job.subindex)), pos := 0));
      if !expedited then (t.(dirty := true), Some(DownloadStart(job.index, job.subindex)))
      else if size != job.remain then AbortJob(t, ABORT_LENGTH)
      else
        var (abort, store) := SetValue(env, t.store, o, e, job.subindex, Resize(data, 8));
        var u := t.(job := t.job.(kind := Idle), store := store);
        if abort != 0 then AbortJob(u, abort)
        else (u.(dirty := true), Some(DownloadStart(job.index, job.subindex)))
  }

  function DownloadInitStep(env: Env, s0: Server, index: U16, subindex: Byte, expedited: bool, sized: bool,
                            unused: nat, data: Data, now: nat): (Server, Option<ServerReply>)
    requires unused <= 3
  {
    var s := s0.(job := Start(s0.job, Download, index, subindex, now));
    match ObjFind(env.od, index)
    case None => AbortJob(s, ABORT_BAD_INDEX)
    case Some(o) =>
      match EntryFind(o, subindex)
      case None => AbortJob(s, ABORT_BAD_SUBINDEX)
      case Some(e) =>
        if e.writable then DownloadSelected(env, s, o, e, expedited, ExpeditedSize(sized, unused), data)
        else AbortJob(s, ABORT_ACCESS_RO)
  }

  /** What the last segment of a download does: set the cached value, or notify. */
  function Commit(env: Env, s: Server): (U32, Store) {
    match ObjFind(env.od, s.job.index)
    case None => (ABORT_BAD_INDEX, s.store)
    case Some(o) =>
      match EntryFind(o, s.job.subindex)
      case None => (ABORT_BAD_SUBINDEX, s.store)
      case Some(e) =>
        if s.job.cached then SetValue(env, s.store, o, e, s.job.subindex, s.job.value)
        else (0, Notify(s.store, o, e, s.job.subindex))
  }

  function DownloadSegmentStep(env: Env, s: Server, toggle: bool, unused: nat, last: bool, data: Data, now: nat)
    : (Server, Option<ServerReply>)
    requires unused <= 7 && |data| == 7
  {
    if toggle != s.job.toggle then AbortJob(s, ABORT_TOGGLE)
    else
      var size := Min(7 - unused, s.job.remain);
      var p := Put(s, data[..size]);
      var t := p.(job := Advance(p.job.(toggle := !toggle), size, now));
      if !last then (t, Some(DownloadNext(toggle)))
      else
        var (abort, store) := Commit(env, t);
        var u := t.(job := t.job.(kind := Idle), store := store);
        if abort != 0 then AbortJob(u, abort) else (u, Some(DownloadNext(toggle)))
  }

  /** One request: the state after it and the reply, if any. Segment requests are answered
      whatever the kind of the job, even when there is none. */
  function Step(env: Env, s: Server, r: Request, now: nat): (Server, Option<ServerReply>)
    requires OdOk(env.od)
  {
    match r
    case UploadInit(index, subindex) => UploadInitStep(env, s, index, subindex, now)
    case UploadSegment(toggle) => UploadSegmentStep(s, toggle, now)
    case DownloadInit(index, subindex, expedited, sized, unused, data) =>
      DownloadInitStep(env, s, index, subindex, expedited, sized, unused, data, now)
    case DownloadSegment(toggle, unused, last, data) => DownloadSegmentStep(env, s, toggle, unused, last, data, now)
    case AbortRequest => (s, None)
    case UnknownRequest => Abort(s, 0, 0, ABORT_UNKNOWN)
  }

  // ----- cursor safety

  /** The data pointer and what remains stay inside the memory pointed to. */
  predicate CursorOk(s: Server) {
    s.job.pos + s.job.remain <= |RegionBytes(s)|
  }

  ghost predicate ServerOk(env: Env, s: Server) {
    && OdOk(env.od) && StoreOk(env.od, s.store.mem)
    && CursorOk(s)
    && (s.job.region.Object? ==> Find(env.od, s.job.region.key).Some?)
  }

  lemma PutSpec(env: Env, s: Server, data: Data)
    requires ServerOk(env, s) && |data| <= s.job.remain
    ensures ServerOk(env, Put(s, data)) && RegionBytes(Put(s, data)) == Patch(RegionBytes(s), s.job.pos, data)
    ensures Put(s, data).job == s.job.(value := Put(s, data).job.value)
  {
    hide OdOk, Find;
  }

  lemma SetValueKeepsRegion(env: Env, s: Server, o: Obj, e: Entry, subindex: nat, value: U64)
    requires ServerOk(env, s) && Find(env.od, Key(o.index, subindex)) == Some((o, e))
    ensures ServerOk(env, s.(store := SetValue(env, s.store, o, e, subindex, value).1))
  {
    SetValueKeepsStore(env, s.store, o, e, subindex, value);
    hide OdOk, Find, SetValue;
  }

  lemma CommitKeepsRegion(env: Env, s: Server)
    requires ServerOk(env, s)
    ensures ServerOk(env, s.(store := Commit(env, s).1))
  {
    var k := Key(s.job.index, s.job.subindex);
    if Find(env.od, k).Some? {
      var (o, e) := Find(env.od, k).value;
      FindSpec(env.od, k);
      SetValueKeepsRegion(env, s, o, e, s.job.subindex, s.job.value);
    }
    hide OdOk, SetValue;
  }

  /** Aborts, segments and other bookkeeping leave the end of the cursor where it was. */
  lemma SameCursor(env: Env, s: Server, t: Server)
    requires ServerOk(env, s) && t.store == s.store
    requires t.job.region == s.job.region && t.job.pos + t.job.remain == s.job.pos + s.job.remain
    ensures ServerOk(env, t)
  {
    hide OdOk, StoreOk, Find;
  }

  /** A successful init points at the start of the selected value. */
  lemma NewCursor(env: Env, t: Server, k: Key)
    requires OdOk(env.od) && StoreOk(env.od, t.store.mem) && Find(env.od, k).Some?
    requires t.job.pos == 0 && t.job.remain == ByteLength(Find(env.od, k).value.1.bitlength)
    requires if t.job.remain <= 8 then t.job.region == Value else t.job.region == Object(k)
    ensures ServerOk(env, t)
  {
    hide OdOk, Find;
  }

  lemma UploadSelectedKeepsOk(env: Env, s: Server, o: Obj, e: Entry)
    requires ServerOk(env, s) && Find(env.od, Key(s.job.index, s.job.subindex)) == Some((o, e)) && EntryOk(e)
    requires o.access ==> ByteLength(e.bitlength) <= 8
    ensures ServerOk(env, UploadSelected(env, s, o, e).0)
  {
    hide OdOk, StoreOk, Find, GetValue, ByteLength;
    NewCursor(env, UploadSelected(env, s, o, e).0, Key(s.job.index, s.job.subindex));
  }

  lemma DownloadSelectedKeepsOk(env: Env, s: Server, o: Obj, e: Entry, expedited: bool, size: nat, data: Data)
    requires ServerOk(env, s) && Find(env.od, Key(s.job.index, s.job.subindex)) == Some((o, e))
    requires o.access ==> ByteLength(e.bitlength) <= 8
    requires o.index == s.job.index
    ensures ServerOk(env, DownloadSelected(env, s, o, e, expedited, size, data).0)
  {
    OkIsWellFormed(env, s);
    hide ServerOk, OdOk, StoreOk, Find, SetValue, ByteLength;
    SetValueKeepsStore(env, s.store, o, e, s.job.subindex, Resize(data, 8));
    NewCursor(env, DownloadSelected(env, s, o, e, expedited, size, data).0, Key(s.job.index, s.job.subindex));
  }

  /** An init request for a value that is too long for the access function of its object is
      refused, but only after the length has been taken over. */
  predicate Overruns(env: Env, s: Server, r: Request) {
    && (r.UploadInit? || r.DownloadInit?)
    && Find(env.od, Key(r.index, r.subindex)).Some?
    && var (o, e) := Find(env.od, Key(r.index, r.subindex)).value;
    && (if r.UploadInit? then e.readable else e.writable)
    && o.access && ByteLength(e.bitlength) > 8
    && s.job.pos + ByteLength(e.bitlength) > |RegionBytes(s)|
  }

  /** The old cursor with a new length. */
  lemma LongerCursor(env: Env, s: Server, t: Server, remain: nat)
    requires ServerOk(env, s) && t.store == s.store
    requires t.job.region == s.job.region && t.job.pos == s.job.pos && t.job.value == s.job.value
    requires t.job.remain == remain
    ensures ServerOk(env, t) <==> s.job.pos + remain <= |RegionBytes(s)|
  {
    hide OdOk, StoreOk, Find;
  }

  lemma UploadInitKeepsOk(env: Env, s0: Server, index: U16, subindex: Byte, now: nat)
    requires ServerOk(env, s0)
    ensures ServerOk(env, UploadInitStep(env, s0, index, subindex, now).0)
       <==> !Overruns(env, s0, UploadInit(index, subindex))
  {
    var s := s0.(job := Start(s0.job, Upload, index, subindex, now));
    OkIsWellFormed(env, s0);
    hide ServerOk, OdOk, EntryFind, ObjFind, UploadSelected, RegionBytes, ByteLength;
    SameCursor(env, s0, s);
    SameCursor(env, s, s.(job := s.job.(kind := Idle)));
    if Find(env.od, Key(index, subindex)).Some? {
      FindSpec(env.od, Key(index, subindex));
      var (o, e) := Find(env.od, Key(index, subindex)).value;
      SubindexOk(o, e, subindex);
      if o.access && ByteLength(e.bitlength) > 8 {
        LongUpload(env, s, o, e);
        LongerCursor(env, s0, UploadSelected(env, s, o, e).0, ByteLength(e.bitlength));
      } else {
        UploadSelectedKeepsOk(env, s, o, e);
      }
    }
  }

  lemma SubindexOk(o: Obj, e: Entry, subindex: nat)
    requires ObjOk(o) && EntryFind(o, subindex) == Some(e)
    ensures subindex < 0xFF && EntryOk(e)
  {
    EntryFindSpec(o, subindex);
  }

  lemma LongUpload(env: Env, s: Server, o: Obj, e: Entry)
    requires EntryOk(e) && o.access && ByteLength(e.bitlength) > 8
    ensures UploadSelected(env, s, o, e).0
         == s.(job := s.job.(remain := ByteLength(e.bitlength), toggle := false, kind := Idle))
  {
  }

  lemma DownloadInitKeepsOk(env: Env, s0: Server, index: U16, subindex: Byte, expedited: bool, sized: bool,
                            unused: nat, data: Data, now: nat)
    requires ServerOk(env, s0) && unused <= 3 && |data| == 4
    ensures ServerOk(env, DownloadInitStep(env, s0, index, subindex, expedited, sized, unused, data, now).0)
       <==> !Overruns(env, s0, DownloadInit(index, subindex, expedited, sized, unused, data))
  {
    var s := s0.(job := Start(s0.job, Download, index, subindex, now));
    OkIsWellFormed(env, s0);
    hide ServerOk, OdOk, EntryFind, ObjFind, DownloadSelected, RegionBytes, ByteLength;
    SameCursor(env, s0, s);
    SameCursor(env, s, s.(job := s.job.(kind := Idle)));
    if Find(env.od, Key(index, subindex)).Some? {
      FindSpec(env.od, Key(index, subindex));
      var (o, e) := Find(env.od, Key(index, subindex)).value;
      if o.access && ByteLength(e.bitlength) > 8 {
        LongDownload(env, s, o, e, expedited, ExpeditedSize(sized, unused), data);
        LongerCursor(env, s0, DownloadSelected(env, s, o, e, expedited, ExpeditedSize(sized, unused), data).0,
                     ByteLength(e.bitlength));
      } else {
        DownloadSelectedKeepsOk(env, s, o, e, expedited, ExpeditedSize(sized, unused), data);
      }
    }
  }

  lemma LongDownload(env: Env, s: Server, o: Obj, e: Entry, expedited: bool, size: nat, data: Data)
    requires o.access && ByteLength(e.bitlength) > 8
    ensures DownloadSelected(env, s, o, e, expedited, size, data).0
         == s.(job := s.job.(remain := ByteLength(e.bitlength), toggle := false, kind := Idle))
  {
  }

  /** In any state, every request keeps the cursor inside the buffer it points into and every
      value of the dictionary at its size, except exactly an overrunning one. */
  lemma StepKeepsOk(env: Env, s: Server, r: Request, now: nat)
    requires ServerOk(env, s)
    ensures OdOk(env.od)
    ensures ServerOk(env, Step(env, s, r, now).0) <==> !Overruns(env, s, r)
  {
    hide ServerOk, OdOk, Find, Commit, UploadInitStep, DownloadInitStep, Put, Fetch, RegionBytes, ByteLength;
    OkIsWellFormed(env, s);
    match r
    case UploadInit(index, subindex) => UploadInitKeepsOk(env, s, index, subindex, now);
    case UploadSegment(toggle) => UploadKeepsOk(env, s, toggle, now);
    case DownloadInit(index, subindex, expedited, sized, unused, data) =>
      DownloadInitKeepsOk(env, s, index, subindex, expedited, sized, unused, data, now);
    case DownloadSegment(toggle, unused, last, data) =>
      DownloadKeepsOk(env, s, toggle, unused, last, data, now);
    case AbortRequest =>
    case UnknownRequest => SameCursor(env, s, Step(env, s, r, now).0);
  }

  /** A dictionary without long values behind access functions never overruns. */
  lemma ShortNeverOverruns(env: Env, s: Server, r: Request)
    requires OdOk(env.od) && NoLongAccess(env.od)
    ensures !Overruns(env, s, r)
  {
    if r.UploadInit? || r.DownloadInit? {
      if Find(env.od, Key(r.index, r.subindex)).Some? {
        FindSpec(env.od, Key(r.index, r.subindex));
        var (o, e) := Find(env.od, Key(r.index, r.subindex)).value;
        EntryFindSpec(o, r.subindex);
      }
    }
  }

  /** Such a request does lead out of the buffer: from an idle server, one that asks for a long
      value behind an access function. */
  lemma LongAccessOverruns(env: Env, s: Server, o: Obj, e: Entry, index: U16, subindex: Byte, now: nat)
    requires ServerOk(env, s) && s.job == NO_JOB && e.readable
    requires Find(env.od, Key(index, subindex)) == Some((o, e)) && o.access && ByteLength(e.bitlength) > 8
    ensures OdOk(env.od)
    ensures var (t, reply) := Step(env, s, UploadInit(index, subindex), now);
            reply == Some(AbortReply(index, subindex, ABORT_GENERAL)) && !CursorOk(t)
  {
    hide OdOk, StoreOk, EntryFind, ObjFind, UploadSelected;
    FindSpec(env.od, Key(index, subindex));
    SubindexOk(o, e, subindex);
    LongUpload(env, s.(job := Start(s.job, Upload, index, subindex, now)), o, e);
    RefusesLong(env, s.(job := Start(s.job, Upload, index, subindex, now)), o, e);
  }

  lemma RefusesLong(env: Env, s: Server, o: Obj, e: Entry)
    requires EntryOk(e) && o.access && ByteLength(e.bitlength) > 8
    ensures UploadSelected(env, s, o, e).1 == Some(AbortReply(s.job.index, s.job.subindex, ABORT_GENERAL))
  {
  }

  lemma UploadKeepsOk(env: Env, s: Server, toggle: bool, now: nat)
    requires ServerOk(env, s)
    ensures ServerOk(env, UploadSegmentStep(s, toggle, now).0)
  {
    hide OdOk, StoreOk, Find, Fetch;
  }

  lemma DownloadKeepsOk(env: Env, s: Server, toggle: bool, unused: nat, last: bool, data: Data, now: nat)
    requires ServerOk(env, s) && unused <= 7 && |data| == 7
    ensures ServerOk(env, DownloadSegmentStep(env, s, toggle, unused, last, data, now).0)
  {
    hide ServerOk, OdOk, StoreOk, Find, Commit, Put, RegionBytes;
    if toggle != s.job.toggle {
      SameCursor(env, s, DownloadSegmentStep(env, s, toggle, unused, last, data, now).0);
    } else {
      var size := Min(7 - unused, s.job.remain);
      PutSpec(env, s, data[..size]);
      var p := Put(s, data[..size]);
      var t := p.(job := Advance(p.job.(toggle := !toggle), size, now));
      SameCursor(env, p, t);
      CommitKeepsRegion(env, t);
      if last {
        var u := t.(store := Commit(env, t).1);
        SameCursor(env, u, DownloadSegmentStep(env, s, toggle, unused, last, data, now).0);
      }
    }
  }

  function Run(env: Env, s: Server, rs: seq<(Request, nat)>): Server
    requires OdOk(env.od)
    decreases |rs|
  {
    if rs == [] then s else Run(env, Step(env, s, rs[0].0, rs[0].1).0, rs[1..])
  }

  /** No request of a run overruns. */
  predicate NeverOverruns(env: Env, s: Server, rs: seq<(Request, nat)>)
    requires OdOk(env.od)
    decreases |rs|
  {
    rs == [] || (!Overruns(env, s, rs[0].0) && NeverOverruns(env, Step(env, s, rs[0].0, rs[0].1).0, rs[1..]))
  }

  /** Over any sequence of requests, in particular over all of them if the dictionary has no long
      value behind an access function. */
  lemma {:induction false} RunKeepsOk(env: Env, s: Server, rs: seq<(Request, nat)>)
    requires ServerOk(env, s)
    ensures OdOk(env.od)
    ensures NoLongAccess(env.od) ==> NeverOverruns(env, s, rs)
    ensures NeverOverruns(env, s, rs) ==> ServerOk(env, Run(env, s, rs))
    decreases |rs|
  {
    hide ServerOk, NoLongAccess, Step, OdOk, Overruns;
    OkIsWellFormed(env, s);
    if rs != [] {
      StepKeepsOk(env, s, rs[0].0, rs[0].1);
      if NoLongAccess(env.od) {
        ShortNeverOverruns(env, s, rs[0].0);
      }
      if !Overruns(env, s, rs[0].0) {
        RunKeepsOk(env, Step(env, s, rs[0].0, rs[0].1).0, rs[1..]);
      }
    }
  }

  lemma OkIsWellFormed(env: Env, s: Server)
    requires ServerOk(env, s)
    ensures OdOk(env.od) && StoreOk(env.od, s.store.mem)
  {
  }

  predicate IsSegment(r: Request) {
    r.UploadSegment? || r.DownloadSegment?
  }

  lemma UploadKeepsEnd(s: Server, toggle: bool, now: nat)
    ensures var t := UploadSegmentStep(s, toggle, now).0;
            && t.job.region == s.job.region
            && t.job.pos + t.job.remain == s.job.pos + s.job.remain
            && t.job.remain <= s.job.remain
  {
    hide Fetch, Resize;
  }

  lemma DownloadKeepsEnd(env: Env, s: Server, toggle: bool, unused: nat, last: bool, data: Data, now: nat)
    requires unused <= 7 && |data| == 7
    ensures var t := DownloadSegmentStep(env, s, toggle, unused, last, data, now).0;
            && t.job.region == s.job.region
            && t.job.pos + t.job.remain == s.job.pos + s.job.remain
            && t.job.remain <= s.job.remain
  {
    hide Commit, Put;
  }

  lemma SegmentKeepsEnd(env: Env, s: Server, r: Request, now: nat)
    requires OdOk(env.od) && IsSegment(r)
    ensures var t := Step(env, s, r, now).0;
            && t.job.region == s.job.region
            && t.job.pos + t.job.remain == s.job.pos + s.job.remain
            && t.job.remain <= s.job.remain
  {
    hide OdOk, UploadSegmentStep, DownloadSegmentStep, UploadInitStep, DownloadInitStep;
    match r
    case UploadSegment(toggle) => UploadKeepsEnd(s, toggle, now);
    case DownloadSegment(toggle, unused, last, data) => DownloadKeepsEnd(env, s, toggle, unused, last, data, now);
  }

  /** Segments move the cursor towards one fixed end: the pointer plus what remains never
      changes, nor what it points into, and what remains never grows. */
  lemma {:induction false} SegmentsKeepEnd(env: Env, s: Server, rs: seq<(Request, nat)>)
    requires OdOk(env.od) && forall r | r in rs :: IsSegment(r.0)
    ensures var t := Run(env, s, rs);
            && t.job.region == s.job.region
            && t.job.pos + t.job.remain == s.job.pos + s.job.remain
            && t.job.remain <= s.job.remain
    decreases |rs|
  {
    hide OdOk, Step;
    if rs != [] {
      SegmentKeepsEnd(env, s, rs[0].0, rs[0].1);
      SegmentsKeepEnd(env, Step(env, s, rs[0].0, rs[0].1).0, rs[1..]);
    }
  }

  // ----- values that may not be written

  /** A value kept for a later set is one that may be written. */
  predicate CacheWritable(env: Env, s: Server) {
    s.job.cached ==>
      && Find(env.od, Key(s.job.index, s.job.subindex)).Some?
      && Find(env.od, Key(s.job.index, s.job.subindex)).value.1.writable
  }

  predicate ReadOnly(env: Env, k: Key) {
    Find(env.od, k).Some? && !Find(env.od, k).value.1.writable
  }

  /** A download segment is copied to wherever the job points, whatever kind of job it is. */
  predicate Copies(s: Server, r: Request, k: Key) {
    r.DownloadSegment? && r.toggle == s.job.toggle && s.job.region == Object(k) && Min(7 - r.unused, s.job.remain) > 0
  }

  /** The storage of a value that may not be written changes exactly at a download segment with
      the right toggle while the job points into it, and a job comes to point into it only by an
      upload of the value. */
  lemma StepOnReadOnly(env: Env, s: Server, r: Request, now: nat, k: Key)
    requires ServerOk(env, s) && CacheWritable(env, s) && ReadOnly(env, k)
    ensures OdOk(env.od)
    ensures var t := Step(env, s, r, now).0;
            && CacheWritable(env, t)
            && Memory(t.store, k)
               == (if Copies(s, r, k)
                   then Patch(Memory(s.store, k), s.job.pos, r.data[..Min(7 - r.unused, s.job.remain)])
                   else Memory(s.store, k))
            && (t.job.region == Object(k) ==> s.job.region == Object(k) || r == UploadInit(k.index, k.subindex))
  {
    OkIsWellFormed(env, s);
    hide ServerOk, OdOk, UploadInitStep, DownloadInitStep, DownloadSegmentStep, UploadSegmentStep, Find, Patch, Memory;
    hide CacheWritable, ReadOnly, StoreOk;
    SameCache(env, s);
    match r
    case UploadInit(index, subindex) => UploadInitOnReadOnly(env, s, index, subindex, now, k);
    case DownloadInit(index, subindex, expedited, sized, unused, data) =>
      DownloadInitOnReadOnly(env, s, index, subindex, expedited, sized, unused, data, now, k);
    case DownloadSegment(toggle, unused, last, data) =>
      SegmentOnReadOnly(env, s, toggle, unused, last, data, now, k);
    case UploadSegment(toggle) => UploadSegmentOnReadOnly(env, s, toggle, now);
    case AbortRequest =>
    case UnknownRequest =>
  }

  lemma SameCache(env: Env, s: Server)
    requires CacheWritable(env, s)
    ensures CacheWritable(env, s.(job := s.job.(kind := Idle)))
  {
  }

  lemma UploadSegmentOnReadOnly(env: Env, s: Server, toggle: bool, now: nat)
    requires CacheWritable(env, s)
    ensures var t := UploadSegmentStep(s, toggle, now).0;
            CacheWritable(env, t) && t.store == s.store && t.job.region == s.job.region
  {
    hide Find, Fetch, Resize;
  }

  lemma UploadInitOnReadOnly(env: Env, s: Server, index: U16, subindex: Byte, now: nat, k: Key)
    requires OdOk(env.od)
    ensures var t := UploadInitStep(env, s, index, subindex, now).0;
            && CacheWritable(env, t) && t.store == s.store
            && (t.job.region == Object(k) ==> s.job.region == Object(k) || k == Key(index, subindex))
  {
    hide OdOk, ObjFind, EntryFind, GetValue, ByteLength;
    if ObjFind(env.od, index).Some? && EntryFind(ObjFind(env.od, index).value, subindex).Some? {
      FindSpec(env.od, Key(index, subindex));
    }
  }

  lemma DownloadInitOnReadOnly(env: Env, s: Server, index: U16, subindex: Byte, expedited: bool, sized: bool,
                               unused: nat, data: Data, now: nat, k: Key)
    requires OdOk(env.od) && ReadOnly(env, k) && unused <= 3
    ensures var t := DownloadInitStep(env, s, index, subindex, expedited, sized, unused, data, now).0;
            && CacheWritable(env, t) && Memory(t.store, k) == Memory(s.store, k)
            && (t.job.region == Object(k) ==> s.job.region == Object(k))
  {
    hide OdOk, EntryFind, ObjFind, DownloadSelected, Memory;
    if Find(env.od, Key(index, subindex)).Some? {
      FindSpec(env.od, Key(index, subindex));
      var (o, e) := Find(env.od, Key(index, subindex)).value;
      if e.writable {
        DownloadSelectedOnReadOnly(env, s.(job := Start(s.job, Download, index, subindex, now)), o, e, expedited,
                                   ExpeditedSize(sized, unused), data, k);
      }
    }
  }

  lemma DownloadSelectedOnReadOnly(env: Env, s: Server, o: Obj, e: Entry, expedited: bool, size: nat, data: Data,
                                   k: Key)
    requires OdOk(env.od) && ReadOnly(env, k) && !s.job.cached && s.job.index == o.index
    requires Find(env.od, Key(s.job.index, s.job.subindex)) == Some((o, e)) && e.writable
    ensures var t := DownloadSelected(env, s, o, e, expedited, size, data).0;
            && CacheWritable(env, t) && Memory(t.store, k) == Memory(s.store, k)
            && (t.job.region == Object(k) ==> s.job.region == Object(k))
  {
    hide OdOk, Find, ByteLength, SetValue, Memory;
    SetElsewhere(env, s.store, o, e, s.job.subindex, Resize(data, 8), k);
  }

  lemma SetElsewhere(env: Env, st: Store, o: Obj, e: Entry, subindex: nat, value: U64, k: Key)
    requires OdOk(env.od)
    ensures k != Key(o.index, subindex) ==> Memory(SetValue(env, st, o, e, subindex, value).1, k) == Memory(st, k)
  {
  }

  lemma CommitOnReadOnly(env: Env, s: Server, k: Key)
    requires OdOk(env.od) && CacheWritable(env, s) && ReadOnly(env, k)
    ensures Memory(Commit(env, s).1, k) == Memory(s.store, k)
  {
    hide OdOk, EntryFind, SetValue, ObjFind;
    if Find(env.od, Key(s.job.index, s.job.subindex)).Some? {
      FindSpec(env.od, Key(s.job.index, s.job.subindex));
      var (o, e) := Find(env.od, Key(s.job.index, s.job.subindex)).value;
      SetElsewhere(env, s.store, o, e, s.job.subindex, s.job.value, k);
    }
  }

  lemma PutElsewhere(s: Server, data: Data, k: Key)
    ensures s.job.region != Object(k) || data == [] ==> Memory(Put(s, data).store, k) == Memory(s.store, k)
  {
    if data == [] && s.job.region == Object(k) && s.job.pos <= |RegionBytes(s)| {
      assert Patch(RegionBytes(s), s.job.pos, []) == RegionBytes(s);
    }
  }

  lemma SegmentOnReadOnly(env: Env, s: Server, toggle: bool, unused: nat, last: bool, data: Data, now: nat, k: Key)
    requires ServerOk(env, s) && CacheWritable(env, s) && ReadOnly(env, k) && unused <= 7 && |data| == 7
    ensures var t := DownloadSegmentStep(env, s, toggle, unused, last, data, now).0;
            && CacheWritable(env, t) && t.job.region == s.job.region
            && Memory(t.store, k)
               == if Copies(s, DownloadSegment(toggle, unused, last, data), k)
                  then Patch(Memory(s.store, k), s.job.pos, data[..Min(7 - unused, s.job.remain)])
                  else Memory(s.store, k)
  {
    hide OdOk, StoreOk, Find, Commit, Put, Patch;
    if toggle == s.job.toggle {
      var size := Min(7 - unused, s.job.remain);
      PutElsewhere(s, data[..size], k);
      PutSpec(env, s, data[..size]);
      var p := Put(s, data[..size]);
      CommitOnReadOnly(env, p.(job := Advance(p.job.(toggle := !toggle), size, now)), k);
    }
  }

  /** Over any run, from a job that does not point there: if the storage of a value that may not
      be written has changed, it was uploaded, and later a download segment was copied into it. */
  lemma {:induction false} RunOnReadOnly(env: Env, s: Server, rs: seq<(Request, nat)>, k: Key)
    requires ServerOk(env, s) && CacheWritable(env, s) && ReadOnly(env, k)
    ensures OdOk(env.od)
    ensures NeverOverruns(env, s, rs) && Memory(Run(env, s, rs).store, k) != Memory(s.store, k) ==>
              exists j | 0 <= j < |rs| ::
                && Copies(Run(env, s, rs[..j]), rs[j].0, k)
                && (s.job.region == Object(k)
                    || exists i | 0 <= i < j :: rs[i].0 == UploadInit(k.index, k.subindex))
    decreases |rs|
  {
    hide ServerOk, OdOk, Step, Copies, CacheWritable, ReadOnly, Overruns, Memory;
    OkIsWellFormed(env, s);
    if rs != [] && NeverOverruns(env, s, rs) && Memory(Run(env, s, rs).store, k) != Memory(s.store, k) {
      var (r, now) := rs[0];
      StepOnReadOnly(env, s, r, now, k);
      if Copies(s, r, k) {
        assert Run(env, s, rs[..0]) == s;
        CopiesThere(s, r, k);
      } else {
        StepKeepsOk(env, s, r, now);
        var t := Step(env, s, r, now).0;
        RunOnReadOnly(env, t, rs[1..], k);
        var j :| 0 <= j < |rs[1..]| && Copies(Run(env, t, rs[1..][..j]), rs[1..][j].0, k)
                 && (t.job.region == Object(k)
                     || exists i | 0 <= i < j :: rs[1..][i].0 == UploadInit(k.index, k.subindex));
        assert rs[..j + 1][0] == rs[0] && rs[..j + 1][1..] == rs[1..][..j];
        assert Run(env, s, rs[..j + 1]) == Run(env, t, rs[1..][..j]);
        if t.job.region == Object(k) {
          assert s.job.region == Object(k) || rs[0].0 == UploadInit(k.index, k.subindex);
        } else {
          var i :| 0 <= i < j && rs[1..][i].0 == UploadInit(k.index, k.subindex);
          assert rs[i + 1].0 == UploadInit(k.index, k.subindex);
        }
      }
    }
  }

  lemma CopiesThere(s: Server, r: Request, k: Key)
    requires Copies(s, r, k)
    ensures s.job.region == Object(k)
  {
  }

  /** It does happen: uploading a long value that may be read and sending one download segment
      overwrites its start, also after an unknown command has ended the job. */
  lemma UploadedValueOverwritten(env: Env, s: Server, o: Obj, e: Entry, index: U16, subindex: Byte, data: Data,
                                 now: nat)
    requires ServerOk(env, s) && Find(env.od, Key(index, subindex)) == Some((o, e))
    requires e.readable && !o.access && ByteLength(e.bitlength) > 8 && |data| == 7
    ensures OdOk(env.od)
    ensures var k := Key(index, subindex);
            var selected := Step(env, s, UploadInit(index, subindex), now).0;
            var ended := Step(env, selected, UnknownRequest, now).0;
            var segment := DownloadSegment(false, 0, false, data);
            && ended.job.kind == Idle
            && data <= Memory(Step(env, selected, segment, now).0.store, k)
            && data <= Memory(Step(env, ended, segment, now).0.store, k)
  {
    OkIsWellFormed(env, s);
    hide OdOk, Find, Step, ServerOk, ByteLength;
    var k := Key(index, subindex);
    var selected := Step(env, s, UploadInit(index, subindex), now).0;
    var ended := Step(env, selected, UnknownRequest, now).0;
    LongSelected(env, s, o, e, index, subindex, now);
    Pointed(env, s, selected, k);
    Pointed(env, s, ended, k);
    CopyAtStart(env, selected, k, data, now);
    CopyAtStart(env, ended, k, data, now);
  }

  lemma LongSelected(env: Env, s: Server, o: Obj, e: Entry, index: U16, subindex: Byte, now: nat)
    requires OdOk(env.od) && Find(env.od, Key(index, subindex)) == Some((o, e))
    requires e.readable && !o.access && ByteLength(e.bitlength) > 8
    ensures var selected := Step(env, s, UploadInit(index, subindex), now).0;
            var ended := Step(env, selected, UnknownRequest, now).0;
            && selected.job.region == Object(Key(index, subindex)) && selected.job.pos == 0
            && selected.job.remain == ByteLength(e.bitlength) && !selected.job.toggle && selected.store == s.store
            && ended == selected.(job := selected.job.(kind := Idle))
  {
    hide OdOk, ByteLength;
    FindSpec(env.od, Key(index, subindex));
    hide EntryFind, ObjFind;
    SubindexOk(o, e, subindex);
  }

  lemma Pointed(env: Env, s: Server, t: Server, k: Key)
    requires ServerOk(env, s) && Find(env.od, k).Some? && t.store == s.store
    requires t.job.region == Object(k) && t.job.pos == 0
    requires t.job.remain == ByteLength(Find(env.od, k).value.1.bitlength) > 8
    ensures ServerOk(env, t)
  {
    hide OdOk, Find;
  }

  lemma CopyAtStart(env: Env, s: Server, k: Key, data: Data, now: nat)
    requires ServerOk(env, s) && s.job.region == Object(k) && s.job.pos == 0 && s.job.remain > 8 && !s.job.toggle
    requires |data| == 7
    ensures OdOk(env.od)
    ensures data <= Memory(Step(env, s, DownloadSegment(false, 0, false, data), now).0.store, k)
  {
    OkIsWellFormed(env, s);
    CursorFits(env, s);
    hide OdOk, StoreOk, Find, Put, ServerOk, Patch, Step, Memory;
    PutSpec(env, s, data);
    PrefixOfPatch(RegionBytes(s), data);
    StepCopies(env, s, data, now);
    PutKeepsRegion(s, data);
  }

  lemma StepCopies(env: Env, s: Server, data: Data, now: nat)
    requires OdOk(env.od) && s.job.remain > 8 && !s.job.toggle && |data| == 7
    ensures Step(env, s, DownloadSegment(false, 0, false, data), now).0.store == Put(s, data).store
  {
    hide OdOk, Put;
    assert data[..7] == data;
  }

  lemma PutKeepsRegion(s: Server, data: Data)
    ensures Put(s, data).job.region == s.job.region
  {
    hide Patch;
  }

  lemma PrefixOfPatch(d: Data, data: Data)
    requires |data| <= |d|
    ensures data <= Patch(d, 0, data)
  {
  }

  lemma CursorFits(env: Env, s: Server)
    requires ServerOk(env, s)
    ensures s.job.pos + s.job.remain <= |RegionBytes(s)|
  {
  }

  // ----- what an ended job still does

  /** Requests are handled without a look at the kind of the job: one that has been ended gives
      the same replies, moves the same cursor and leaves the same dictionary. */
  lemma StepIgnoresKind(env: Env, s: Server, r: Request, now: nat)
    requires OdOk(env.od)
    ensures var (t, reply) := Step(env, s, r, now);
            var (u, reply') := Step(env, s.(job := s.job.(kind := Idle)), r, now);
            reply == reply' && u == t.(job := t.job.(kind := u.job.kind))
  {
    hide OdOk, UploadInitStep, DownloadInitStep, UploadSegmentStep, DownloadSegmentStep;
    match r
    case UploadInit(index, subindex) => InitIgnoresKind(env, s, Upload, index, subindex, false, false, 0, [], now);
    case DownloadInit(index, subindex, expedited, sized, unused, data) =>
      InitIgnoresKind(env, s, Download, index, subindex, expedited, sized, unused, data, now);
    case UploadSegment(toggle) => UploadSegmentIgnoresKind(s, toggle, now);
    case DownloadSegment(toggle, unused, last, data) =>
      DownloadSegmentIgnoresKind(env, s, toggle, unused, last, data, now);
    case _ =>
  }

  lemma InitIgnoresKind(env: Env, s: Server, kind: JobKind, index: U16, subindex: Byte, expedited: bool, sized: bool,
                        unused: nat, data: Data, now: nat)
    requires OdOk(env.od) && unused <= 3
    ensures var ended := s.(job := s.job.(kind := Idle));
            && UploadInitStep(env, ended, index, subindex, now) == UploadInitStep(env, s, index, subindex, now)
            && DownloadInitStep(env, ended, index, subindex, expedited, sized, unused, data, now)
               == DownloadInitStep(env, s, index, subindex, expedited, sized, unused, data, now)
  {
    hide OdOk, UploadSelected, DownloadSelected, Structure, ObjFind, EntryFind;
    assert Start(s.job.(kind := Idle), Upload, index, subindex, now) == Start(s.job, Upload, index, subindex, now);
    assert Start(s.job.(kind := Idle), Download, index, subindex, now) == Start(s.job, Download, index, subindex, now);
  }

  lemma UploadSegmentIgnoresKind(s: Server, toggle: bool, now: nat)
    ensures var (t, reply) := UploadSegmentStep(s, toggle, now);
            var (u, reply') := UploadSegmentStep(s.(job := s.job.(kind := Idle)), toggle, now);
            reply == reply' && u == t.(job := t.job.(kind := u.job.kind))
  {
    hide Resize;
  }

  lemma DownloadSegmentIgnoresKind(env: Env, s: Server, toggle: bool, unused: nat, last: bool, data: Data, now: nat)
    requires unused <= 7 && |data| == 7
    ensures var (t, reply) := DownloadSegmentStep(env, s, toggle, unused, last, data, now);
            var ended := s.(job := s.job.(kind := Idle));
            var (u, reply') := DownloadSegmentStep(env, ended, toggle, unused, last, data, now);
            reply == reply' && u == t.(job := t.job.(kind := u.job.kind))
  {
    hide Commit, Put;
    if toggle == s.job.toggle {
      var size := Min(7 - unused, s.job.remain);
      var p := Put(s, data[..size]);
      PutIgnoresKind(s, data[..size]);
      CommitIgnoresJobKind(env, p.(job := Advance(p.job.(toggle := !toggle), size, now)));
    }
  }

  lemma PutIgnoresKind(s: Server, data: Data)
    ensures Put(s.(job := s.job.(kind := Idle)), data)
         == Put(s, data).(job := Put(s, data).job.(kind := Idle))
  {
    hide Patch;
  }

  lemma CommitIgnoresJobKind(env: Env, s: Server)
    ensures Commit(env, s.(job := s.job.(kind := Idle))) == Commit(env, s)
  {
  }
}
