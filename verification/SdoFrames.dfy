/** SDO messages and the eight bytes that carry them (CiA 301, section 7.2.4.3).

    The fields packed into the first byte do not overlap, so `|` is written as addition and
    masking as division and remainder by powers of two. */
module SdoFrames {
  import opened Bytes

  /** A complete CAN frame. */
  type Frame = d: Data | |d| == 8 witness [0, 0, 0, 0, 0, 0, 0, 0]

  /** Milliseconds after which a timer aborts a transfer. */
  const SDO_TIMEOUT: nat := 100

  /** What a client asks. `unused` counts the bytes of the data field without data. */
  datatype AnyRequest =
    | UploadInit(index: U16, subindex: Byte)
    | UploadSegment(toggle: bool)
    | DownloadInit(index: U16, subindex: Byte, expedited: bool, sized: bool, unused: nat, data: Data)
    | DownloadSegment(toggle: bool, unused: nat, last: bool, data: Data)
    | AbortRequest
    | UnknownRequest

  /** What a server answers. */
  datatype AnyReply =
    | UploadExpedited(index: U16, subindex: Byte, sized: bool, unused: nat, data: Data)
    | UploadStart(index: U16, subindex: Byte, size: U32)
    | UploadData(toggle: bool, unused: nat, last: bool, data: Data)
    | DownloadStart(index: U16, subindex: Byte)
    | DownloadNext(toggle: bool)
    | AbortReply(index: U16, subindex: Byte, code: U32)
    | UnknownReply

  /** Messages whose fields have the size of their place in a frame. */
  type Request = r: AnyRequest |
    && (r.DownloadInit? ==> r.unused <= 3 && |r.data| == 4)
    && (r.DownloadSegment? ==> r.unused <= 7 && |r.data| == 7)
    witness UnknownRequest

  type Reply = r: AnyReply |
    && (r.UploadExpedited? ==> r.unused <= 3 && |r.data| == 4)
    && (r.UploadData? ==> r.unused <= 7 && |r.data| == 7)
    witness UnknownReply

  /** What a correct peer sends. */
  type ClientRequest = r: Request | !r.AbortRequest? && !r.UnknownRequest? witness UploadSegment(false)

  type ServerReply = r: Reply | !r.UnknownReply? witness DownloadNext(false)

  function Bit0(b: Byte): bool {
    b % 2 == 1
  }

  function Bit1(b: Byte): bool {
    (b / 2) % 2 == 1
  }

  function Flag(b: bool, weight: nat): nat {
    if b then weight else 0
  }

  /** Command specifier: the three high bits. */
  function Specifier(b: Byte): nat {
    b / 32
  }

  function Toggle(b: Byte): bool {
    (b / 16) % 2 == 1
  }

  /** Size of the data in an expedited transfer. */
  function ExpeditedSize(sized: bool, unused: nat): nat
    requires unused <= 3
  {
    if sized then 4 - unused else 4
  }

  function Index(f: Frame): U16 {
    LeBound(f[1..3]);
    Pow256Values();
    Le(f[1..3])
  }

  function DecodeRequest(f: Frame): Request {
    var b := f[0];
    match Specifier(b)
    case 2 => UploadInit(Index(f), f[3])
    case 3 => UploadSegment(Toggle(b))
    case 1 => DownloadInit(Index(f), f[3], Bit1(b), Bit0(b), (b / 4) % 4, f[4..])
    case 0 => DownloadSegment(Toggle(b), (b / 2) % 8, Bit0(b), f[1..])
    case 4 => AbortRequest
    case _ => UnknownRequest
  }

  function Long(f: Frame): U32 {
    LeBound(f[4..]);
    Pow256Values();
    Le(f[4..])
  }

  function DecodeReply(f: Frame): Reply {
    var b := f[0];
    match Specifier(b)
    case 2 => if Bit1(b) then UploadExpedited(Index(f), f[3], Bit0(b), (b / 4) % 4, f[4..])
              else UploadStart(Index(f), f[3], Long(f))
    case 0 => UploadData(Toggle(b), (b / 2) % 8, Bit0(b), f[1..])
    case 3 => DownloadStart(Index(f), f[3])
    case 1 => DownloadNext(Toggle(b))
    case 4 => AbortReply(Index(f), f[3], Long(f))
    case _ => UnknownReply
  }

  /** First byte, index, subindex and four bytes of data. */
  function InitFrame(first: Byte, index: U16, subindex: Byte, data: Data): Frame
    requires |data| == 4
  {
    [first] + ToLe(index, 2) + [subindex] + data
  }

  /** First byte and seven bytes of data. */
  function SegmentFrame(first: Byte, data: Data): Frame
    requires |data| == 7
  {
    [first] + data
  }

  function EncodeRequest(r: ClientRequest): Frame
  {
    match r
    case UploadInit(index, subindex) => InitFrame(0x40, index, subindex, Zeros(4))
    case UploadSegment(toggle) => SegmentFrame(0x60 + Flag(toggle, 16), Zeros(7))
    case DownloadInit(index, subindex, expedited, sized, unused, data) =>
      InitFrame(0x20 + unused * 4 + Flag(expedited, 2) + Flag(sized, 1), index, subindex, data)
    case DownloadSegment(toggle, unused, last, data) =>
      SegmentFrame(Flag(toggle, 16) + unused * 2 + Flag(last, 1), data)
  }

  function EncodeReply(r: ServerReply): Frame
  {
    match r
    case UploadExpedited(index, subindex, sized, unused, data) =>
      InitFrame(0x40 + 2 + unused * 4 + Flag(sized, 1), index, subindex, data)
    case UploadStart(index, subindex, size) => InitFrame(0x40 + 1, index, subindex, ToLe(size, 4))
    case UploadData(toggle, unused, last, data) =>
      SegmentFrame(Flag(last, 1) + Flag(toggle, 16) + unused * 2, data)
    case DownloadStart(index, subindex) => InitFrame(0x60, index, subindex, Zeros(4))
    case DownloadNext(toggle) => SegmentFrame(0x20 + Flag(toggle, 16), Zeros(7))
    case AbortReply(index, subindex, code) => InitFrame(0x80, index, subindex, ToLe(code, 4))
  }

  lemma InitFrameFields(first: Byte, index: U16, subindex: Byte, data: Data)
    requires |data| == 4
    ensures var f := InitFrame(first, index, subindex, data);
            f[0] == first && Index(f) == index && f[3] == subindex && f[4..] == data && Long(f) == Le(data)
  {
    Pow256Values();
    LeOfToLeFits(index, 2);
    var f := InitFrame(first, index, subindex, data);
    assert f[1..3] == ToLe(index, 2);
  }

  lemma SegmentFrameFields(first: Byte, data: Data)
    requires |data| == 7
    ensures var f := SegmentFrame(first, data); f[0] == first && f[1..] == data
  {
  }

  lemma InitByte(cs: nat, unused: nat, bit1: bool, bit0: bool)
    requires 1 <= cs <= 2 && unused <= 3
    ensures var b := cs * 32 + unused * 4 + Flag(bit1, 2) + Flag(bit0, 1);
            b < 256 && Specifier(b) == cs && (b / 4) % 4 == unused && Bit1(b) == bit1 && Bit0(b) == bit0
  {
  }

  lemma SegmentByte(toggle: bool, unused: nat, last: bool)
    requires unused <= 7
    ensures var b := Flag(toggle, 16) + unused * 2 + Flag(last, 1);
            b < 32 && Specifier(b) == 0 && Toggle(b) == toggle && (b / 2) % 8 == unused && Bit0(b) == last
  {
  }

  lemma FixedByte(cs: nat, toggle: bool)
    requires cs <= 4
    ensures var b := cs * 32 + Flag(toggle, 16); b < 256 && Specifier(b) == cs && Toggle(b) == toggle
  {
  }

  /** A server understands exactly what a client meant. */
  lemma RequestRoundTrip(r: ClientRequest)
    ensures DecodeRequest(EncodeRequest(r)) == r
  {
    hide InitFrame, SegmentFrame, Index;
    hide Specifier, Toggle, Bit0, Bit1;
    match r
    case UploadInit(index, subindex) => FixedByte(2, false); InitFrameFields(0x40, index, subindex, Zeros(4));
    case UploadSegment(toggle) => FixedByte(3, toggle); SegmentFrameFields(0x60 + Flag(toggle, 16), Zeros(7));
    case DownloadInit(index, subindex, expedited, sized, unused, data) =>
      InitByte(1, unused, expedited, sized);
      InitFrameFields(0x20 + unused * 4 + Flag(expedited, 2) + Flag(sized, 1), index, subindex, data);
    case DownloadSegment(toggle, unused, last, data) =>
      SegmentByte(toggle, unused, last);
      SegmentFrameFields(Flag(toggle, 16) + unused * 2 + Flag(last, 1), data);
  }

  lemma UploadRoundTrip(r: ServerReply)
    requires r.UploadExpedited? || r.UploadStart?
    ensures DecodeReply(EncodeReply(r)) == r
  {
    hide InitFrame, SegmentFrame, Index, ToLe, Specifier, Toggle, Bit0, Bit1;
    Pow256Values();
    match r
    case UploadExpedited(index, subindex, sized, unused, data) =>
      InitByte(2, unused, true, sized);
      InitFrameFields(0x40 + 2 + unused * 4 + Flag(sized, 1), index, subindex, data);
    case UploadStart(index, subindex, size) =>
      InitByte(2, 0, false, true);
      InitFrameFields(0x40 + 1, index, subindex, ToLe(size, 4));
      LeOfToLeFits(size, 4);
  }

  /** A client understands exactly what a server meant. */
  lemma ReplyRoundTrip(r: ServerReply)
    ensures DecodeReply(EncodeReply(r)) == r
  {
    hide InitFrame, SegmentFrame, Index, ToLe, Specifier, Toggle, Bit0, Bit1;
    Pow256Values();
    match r
    case UploadData(toggle, unused, last, data) =>
      SegmentByte(toggle, unused, last);
      SegmentFrameFields(Flag(last, 1) + Flag(toggle, 16) + unused * 2, data);
    case DownloadStart(index, subindex) => FixedByte(3, false); InitFrameFields(0x60, index, subindex, Zeros(4));
    case DownloadNext(toggle) => FixedByte(1, toggle); SegmentFrameFields(0x20 + Flag(toggle, 16), Zeros(7));
    case AbortReply(index, subindex, code) =>
      FixedByte(4, false);
      InitFrameFields(0x80, index, subindex, ToLe(code, 4));
      LeOfToLeFits(code, 4);
    case _ => UploadRoundTrip(r);
  }
}
