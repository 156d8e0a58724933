/** The LSS services as a master sees them on the bus: what each request changes and what is
    answered (src/co_lss.c, CiA 305). Identifiers, commands and bit rates are written out. */
module LssServices {
  import opened Bytes
  import opened Nmt
  import opened NodeControl
  import opened NodeRuns
  import opened NodeSettings
  import N = NodeCommands
  import opened Values
  import F = SdoFrames
  import L = Lss

  /** An answer of command and result. */
  function Answer(n: Net, cmd: Byte, result: Byte): Net {
    n.(effects := n.effects + [Send(0x7E4, [cmd, result, 0, 0, 0, 0, 0, 0])])
  }

  lemma ReplyIsAnswer(n: Net, cmd: Byte, error: Byte)
    ensures Reply(n, cmd, error) == Answer(n, cmd, error)
  {
    assert [cmd, error] + Zeros(6) == [cmd, error, 0, 0, 0, 0, 0, 0];
  }

  /** Frames of another identifier or length do nothing, nor do services for slaves in
      configuration to one that waits. */
  lemma IgnoredUnless(d: Device, n: Net, id: nat, msg: F.Frame, dlc: nat)
    requires id != 0x7E5 || dlc != 8
             || (!n.config && msg[0] != 0x04 && !(0x40 <= msg[0] <= 0x43) && !(0x46 <= msg[0] <= 0x4B))
    ensures Step(d, n, LssFrame(id, msg, dlc)) == n
  {
  }

  /** Switch state global: mode 1 is configuration, mode 0 waiting; a parked node that leaves
      configuration with a pending node-ID boots under it. */
  lemma GlobalMeans(d: Device, n: Net, msg: F.Frame)
    requires msg[0] == 0x04
    ensures Step(d, n, LssFrame(0x7E5, msg, 8))
         == if msg[1] > 1 then n
            else if msg[1] == 0 && n.config && n.state == InitComm && n.pending != 0xFF then
              n.(config := false, node := n.pending, state := Preop,
                 effects := n.effects + [Send(0x700 + n.pending, [0]), StateChanged(Preop)])
            else n.(config := msg[1] == 1)
  {
    hide HandleEvent;
    if n.state == InitComm {
      N.BootsUp(d, n.(config := false, node := n.pending));
    }
  }

  /** Configure node-ID: 1 to 127, or 255 for none. */
  lemma NodeIdMeans(d: Device, n: Net, msg: F.Frame)
    requires n.config && msg[0] == 0x11
    ensures Step(d, n, LssFrame(0x7E5, msg, 8))
         == if 1 <= msg[1] <= 127 || msg[1] == 255 then Answer(n.(pending := msg[1]), 0x11, 0) else Answer(n, 0x11, 1)
  {
    hide Reply;
    ReplyIsAnswer(n, 0x11, 1);
    ReplyIsAnswer(n.(pending := msg[1]), 0x11, 0);
  }

  /** Table 0 of CiA 305: index and bit rate. */
  const RATES: map<nat, nat> :=
    map[0 := 1000000, 1 := 800000, 2 := 500000, 3 := 250000, 4 := 125000, 6 := 50000, 7 := 20000, 8 := 10000]

  lemma BitTimingMeans(d: Device, n: Net, msg: F.Frame)
    requires n.config && msg[0] == 0x13
    ensures var m := Step(d, n, LssFrame(0x7E5, msg, 8));
            if msg[1] == 0 && msg[2] in RATES
            then m == Answer(n.(pendingBitrate := m.pendingBitrate), 0x13, 0) && m.pendingBitrate == RATES[msg[2]]
            else m == Answer(n, 0x13, 1)
  {
    hide Reply;
    ReplyIsAnswer(n, 0x13, 1);
    if msg[2] <= 8 {
      ReplyIsAnswer(n.(pendingBitrate := BITRATES[msg[2]]), 0x13, 0);
    }
  }

  /** Store configuration: node-ID and bit rate as five bytes, the rate least significant byte
      first. */
  lemma StoreMeans(d: Device, n: Net, msg: F.Frame)
    requires n.config && msg[0] == 0x17
    ensures var m := Step(d, n, LssFrame(0x7E5, msg, 8));
            if d.hasStore
            then m == Answer(n.(file := m.file), 0x17, 0) && |m.file| == 5 && m.file[0] == n.pending
                 && m.file[1] + 0x100 * (m.file[2] as int) + 0x1_0000 * (m.file[3] as int)
                    + 0x100_0000 * (m.file[4] as int) == n.pendingBitrate
            else m == Answer(n, 0x17, 1)
  {
    hide Reply;
    ReplyIsAnswer(n, 0x17, 1);
    ReplyIsAnswer(n.(file := [n.pending] + ToLe(n.pendingBitrate, 4)), 0x17, 0);
    LongBytes(n.pendingBitrate);
  }

  lemma LongBytes(v: U32)
    ensures var d := ToLe(v, 4);
            d[0] + 0x100 * (d[1] as int) + 0x1_0000 * (d[2] as int) + 0x100_0000 * (d[3] as int) == v
  {
    hide Le, ToLe;
    var d := ToLe(v, 4);
    Pow256Values();
    LeOfToLeFits(v, 4);
    LittleEndian(d[0], d[1], d[2], d[3]);
    assert d == [d[0], d[1], d[2], d[3]];
  }

  /** What a device boots with: the stored node-ID and bit rate, as far as the store holds them, and
      what it was configured with otherwise. */
  lemma StoredMeans(d: Device, node: Byte, bitrate: U32, file: Data)
    ensures var end := HandleEvent(d, PowerOff(node, bitrate, file), Reset);
            && end.pending == (if d.hasStore && |file| >= 1 && file[0] != 0 then file[0] else node)
            && end.bitrate == end.pendingBitrate
               == if d.hasStore && |file| >= 5 && file[0] != 0
                  then file[1] + 0x100 * (file[2] as int) + 0x1_0000 * (file[3] as int) + 0x100_0000 * (file[4] as int)
                  else bitrate
  {
    hide HandleEvent, PersistentNode, PersistentBitrate, Bootups;
    BootTakes(d, PowerOff(node, bitrate, file));
    StoreParts(d, PowerOff(node, bitrate, file));
  }

  lemma StoreParts(d: Device, n: Net)
    ensures PersistentNode(d, n) == if d.hasStore && |n.file| >= 1 && n.file[0] != 0 then n.file[0] else n.node
    ensures PersistentBitrate(d, n)
         == if d.hasStore && |n.file| >= 5 && n.file[0] != 0
            then n.file[1] + 0x100 * (n.file[2] as int) + 0x1_0000 * (n.file[3] as int)
                 + 0x100_0000 * (n.file[4] as int)
            else n.bitrate
  {
    hide Le;
    if |n.file| >= 5 {
      LittleEndian(n.file[1], n.file[2], n.file[3], n.file[4]);
      assert n.file[1..5] == [n.file[1], n.file[2], n.file[3], n.file[4]];
    }
  }

  /** Inquiries: vendor, product, revision, serial number and node-ID. */
  lemma InquiryMeans(d: Device, n: Net, msg: F.Frame)
    requires n.config && 0x5A <= msg[0] <= 0x5E
    ensures var value := if msg[0] == 0x5A then d.identity.vendor
                         else if msg[0] == 0x5B then d.identity.product
                         else if msg[0] == 0x5C then d.identity.revision
                         else if msg[0] == 0x5D then d.identity.serial
                         else n.node;
            Step(d, n, LssFrame(0x7E5, msg, 8))
            == n.(effects := n.effects + [Send(0x7E4, [msg[0]] + ToLe(value, 4) + [0, 0, 0])])
  {
    hide ToLe;
    assert Zeros(3) == [0, 0, 0];
  }

  /** The four switch-selective requests are answered by exactly the slave they name, which enters
      configuration. */
  lemma SelectionAnswered(d: Device, n: Net, named: L.Identity)
    requires n.level <= 5
    ensures var end := Address(d, n, named, 4);
            if d.identity == named then end == Answer(n.(level := 0, config := true), 0x44, 0)
            else end == n.(level := end.level)
  {
    hide Address, Reply;
    AddressSelectsIff(d, n, named);
    ReplyIsAnswer(n.(level := 0, config := true), 0x44, 0);
  }

  // ----- identify remote slaves

  /** What a master looks for: one vendor and product, and ranges of revisions and serial numbers. */
  datatype Wanted = Wanted(
    vendor: U32, product: U32, revisionLow: U32, revisionHigh: U32, serialLow: U32, serialHigh: U32)

  predicate Within(id: L.Identity, w: Wanted) {
    && id.vendor == w.vendor && id.product == w.product
    && w.revisionLow <= id.revision <= w.revisionHigh && w.serialLow <= id.serial <= w.serialHigh
  }

  function Part(w: Wanted, k: nat): U32
    requires k < 6
  {
    if k == 0 then w.vendor else if k == 1 then w.product else if k == 2 then w.revisionLow
    else if k == 3 then w.revisionHigh else if k == 4 then w.serialLow else w.serialHigh
  }

  /** The six identify-remote requests, one after the other. */
  function Identify(d: Device, n: Net, w: Wanted, k: nat): Net
    requires k <= 6
  {
    if k == 0 then n
    else Step(d, Identify(d, n, w, k - 1), LssFrame(0x7E5, Ask(0x46 + (k - 1), Part(w, k - 1)), 8))
  }

  /** What each of them tests. */
  function Criterion(k: nat): L.Criterion
    requires k < 6
  {
    [L.Vendor, L.Product, L.RevisionLow, L.RevisionHigh, L.SerialLow, L.SerialHigh][k]
  }

  lemma IdentifyStep(d: Device, n: Net, k: nat, value: U32)
    requires k < 6 && n.level <= 5
    ensures var m := Step(d, n, LssFrame(0x7E5, Ask(0x46 + k, value), 8));
            var level := L.Advance(d.identity, n.level, Criterion(k), value);
            m == if level == 6 then Answer(n.(level := 0), 0x4F, 0) else n.(level := level)
  {
    AskCarries(0x46 + k, value);
    hide Ask, Value32, Reply, L.Advance, L.Meets;
    ReplyIsAnswer(n.(level := 0), 0x4F, 0);
  }

  /** Before the last request the match level tells whether all tests so far were met. */
  lemma {:induction false} IdentifyLevel(d: Device, n: Net, w: Wanted, k: nat)
    requires n.level <= 5 && k <= 5
    ensures var m := Identify(d, n, w, k);
            && m == n.(level := m.level) && m.level <= 5
            && (m.level >= k <==> forall j | 0 <= j < k :: L.Meets(d.identity, Criterion(j), Part(w, j)))
    decreases k
  {
    hide L.Meets, Ask, Step;
    if k > 0 {
      IdentifyLevel(d, n, w, k - 1);
      IdentifyStep(d, Identify(d, n, w, k - 1), k - 1, Part(w, k - 1));
      CriterionRank(k - 1);
    }
  }

  lemma CriterionRank(k: nat)
    requires k < 6
    ensures L.Rank(Criterion(k)) == k
  {
  }

  /** They are answered by exactly the slaves within the ranges, whatever was asked before, and
      change nothing else. */
  lemma IdentifiedIff(d: Device, n: Net, w: Wanted)
    requires n.level <= 5
    ensures var end := Identify(d, n, w, 6);
            if Within(d.identity, w) then end == Answer(n.(level := 0), 0x4F, 0) else end == n.(level := end.level)
  {
    hide Ask, Step, Answer;
    IdentifyLevel(d, n, w, 5);
    IdentifyStep(d, Identify(d, n, w, 5), 5, Part(w, 5));
    var id := d.identity;
    assert (forall j | 0 <= j < 6 :: L.Meets(id, Criterion(j), Part(w, j))) <==> Within(id, w) by {
      WithinIff(id, w);
    }
    assert Identify(d, n, w, 6)
        == Step(d, Identify(d, n, w, 5), LssFrame(0x7E5, Ask(0x4B, Part(w, 5)), 8));
    CriterionRank(5);
  }

  lemma WithinIff(id: L.Identity, w: Wanted)
    ensures (forall j | 0 <= j < 6 :: L.Meets(id, Criterion(j), Part(w, j))) <==> Within(id, w)
  {
    if forall j | 0 <= j < 6 :: L.Meets(id, Criterion(j), Part(w, j)) {
      assert L.Meets(id, Criterion(0), Part(w, 0)) && L.Meets(id, Criterion(1), Part(w, 1));
      assert L.Meets(id, Criterion(2), Part(w, 2)) && L.Meets(id, Criterion(3), Part(w, 3));
      assert L.Meets(id, Criterion(4), Part(w, 4)) && L.Meets(id, Criterion(5), Part(w, 5));
    }
  }
}
