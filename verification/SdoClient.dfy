/** The SDO client as a protocol over messages (src/co_sdo_client.c). */
module SdoClient {
  import opened Bytes
  import opened Dictionary
  import opened SdoFrames

  datatype ClientKind = Read | Write

  /** A transfer in progress or just finished. `pos` is the data pointer into the caller's
      buffer; `calls` counts completion callbacks. */
  datatype ClientJob = ClientJob(
    active: bool, kind: ClientKind, node: nat, index: U16, subindex: Byte,
    buffer: Data, pos: nat, remain: nat, total: nat,
    toggle: bool, result: int, calls: nat, timestamp: nat)

  /** What a handler puts on the bus. */
  datatype Output = Silent | Send(request: ClientRequest) | SendAbort(index: U16, subindex: Byte, code: U32)

  const STATUS_ERROR := -1

  /** The next `n` bytes of the caller's buffer. */
  function Peek(c: ClientJob, n: nat): Data {
    if c.pos + n <= |c.buffer| then c.buffer[c.pos..c.pos + n] else Zeros(n)
  }

  /** Copy received bytes into the caller's buffer. */
  function Receive(c: ClientJob, data: Data): ClientJob
    requires |data| <= c.remain
  {
    c.(buffer := if c.pos + |data| <= |c.buffer| then Patch(c.buffer, c.pos, data) else c.buffer,
       pos := c.pos + |data|, remain := c.remain - |data|, total := c.total + |data|)
  }

  function Finish(c: ClientJob, result: int): ClientJob {
    c.(active := false, result := result, calls := c.calls + 1)
  }

  /** The next segment of a download; only a short one is marked as the last. */
  function NextSegment(c: ClientJob): (ClientJob, Output) {
    var size := Min(c.remain, 7);
    (c.(pos := c.pos + size, remain := c.remain - size, total := c.total + size),
     Send(DownloadSegment(c.toggle, 7 - size, size < 7, Resize(Peek(c, size), 7))))
  }

  /** The first request of a transfer. */
  function Issue(c: ClientJob): (ClientJob, ClientRequest) {
    var started := c.(active := true, total := 0);
    if c.kind == Read then (started, UploadInit(c.index, c.subindex))
    else if c.remain <= 4 then
      (started.(total := c.remain, remain := 0),
       DownloadInit(c.index, c.subindex, true, true, (4 - c.remain) % 4, Resize(Peek(c, c.remain), 4)))
    else
      (started, DownloadInit(c.index, c.subindex, false, true, 0, ToLe(c.remain, 4)))
  }

  function Step(c: ClientJob, r: Reply): (ClientJob, Output)
    requires c.active
  {
    match r
    case UploadExpedited(_, _, sized, unused, data) =>
      var d := Receive(c, data[..Min(c.remain, ExpeditedSize(sized, unused))]);
      (Finish(d, d.total), Silent)
    case UploadStart(_, _, size) =>
      (c.(remain := Min(c.remain, size), toggle := false, total := 0), Send(UploadSegment(false)))
    case UploadData(toggle, unused, last, data) =>
      if toggle != c.toggle then (Finish(c, STATUS_ERROR), SendAbort(c.index, c.subindex, ABORT_TOGGLE))
      else
        var d := Receive(c, data[..Min(c.remain, 7 - unused)]).(toggle := !toggle);
        if last then (Finish(d, d.total), Silent) else (d, Send(UploadSegment(d.toggle)))
    case DownloadStart(_, _) =>
      if c.remain == 0 then (Finish(c, c.total), Silent) else NextSegment(c.(toggle := false))
    case DownloadNext(toggle) =>
      if toggle != c.toggle then (Finish(c, STATUS_ERROR), SendAbort(c.index, c.subindex, ABORT_TOGGLE))
      else
        var d := c.(toggle := !toggle);
        if c.remain == 0 then (Finish(d, c.total), Silent) else NextSegment(d)
    case AbortReply(_, _, _) => (Finish(c, STATUS_ERROR), Silent)
    case UnknownReply => (Finish(c, STATUS_ERROR), SendAbort(0, 0, ABORT_UNKNOWN))
  }

  // ----- cursor safety

  /** The cursor stays in the buffer, and what was counted plus what remains fits it. */
  predicate ClientOk(c: ClientJob) {
    c.pos + c.remain <= |c.buffer| && c.total + c.remain <= |c.buffer|
  }

  /** Whatever the peer answers, in whatever order, until the transfer ends. */
  function Run(c: ClientJob, rs: seq<Reply>): ClientJob
    decreases |rs|
  {
    if rs == [] || !c.active then c else Run(Step(c, rs[0]).0, rs[1..])
  }

  lemma StepKeepsOk(c: ClientJob, r: Reply)
    requires c.active && ClientOk(c)
    ensures ClientOk(Step(c, r).0) && |Step(c, r).0.buffer| == |c.buffer|
    ensures Step(c, r).0.calls == c.calls + (if Step(c, r).0.active then 0 else 1)
  {
  }

  lemma FinishKeepsOk(c: ClientJob, result: int)
    requires ClientOk(c)
    ensures ClientOk(Finish(c, result))
  {
  }

  lemma {:induction false} RunKeepsOk(c: ClientJob, rs: seq<Reply>)
    requires ClientOk(c)
    ensures ClientOk(Run(c, rs)) && |Run(c, rs).buffer| == |c.buffer|
    ensures Run(c, rs).calls <= c.calls + 1
    ensures c.active ==> Run(c, rs).calls == c.calls + (if Run(c, rs).active then 0 else 1)
    decreases |rs|
  {
    hide Step;
    if rs != [] && c.active {
      StepKeepsOk(c, rs[0]);
      RunKeepsOk(Step(c, rs[0]).0, rs[1..]);
    }
  }

  /** Nothing a peer answers refreshes the time at which the transfer was requested. */
  lemma {:induction false} NeverRefreshed(c: ClientJob, rs: seq<Reply>)
    ensures Run(c, rs).timestamp == c.timestamp
    decreases |rs|
  {
    if rs != [] && c.active {
      NeverRefreshed(Step(c, rs[0]).0, rs[1..]);
    }
  }
}
