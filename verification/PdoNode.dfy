/** The PDOs of a node as objects updated in place, and the handlers that drive them
    (src/co_pdo.c and src/co_sync.c). */
module PdoNode {
  import opened Bytes
  import opened Bits
  import opened Dictionary
  import opened PdoFrame
  import opened PdoConfig
  import opened PdoAccess
  import opened PdoSync

  /** The slots in use can be walked: those that are touched start inside the frame, as the
      assertions of bitslice_get and bitslice_set demand, and what is saved in them is stored in
      the dictionary. Packing touches `all` slots, unpacking only those with an entry. */
  ghost predicate SlotsWalkable(od: seq<Obj>, count: Byte, slots: Slots, all: bool) {
    && count <= MAX_PDO_ENTRIES
    && forall i | 0 <= i < count && (all || slots[i].found.Some?) ::
         && Bitlength(slots[..i]) < 64 && MappedLength(slots[i].mapping) <= 64
         && (slots[i].found.Some? ==> Find(od, SlotKey(slots[i])) == slots[i].found)
  }

  ghost predicate Walkable(od: seq<Obj>, p: Pdo, all: bool) {
    SlotsWalkable(od, p.count, p.slots, all)
  }

  /** A consistent mapping can be packed exactly if no slot of no bits follows a full frame and
      every saved entry has a place, and unpacked exactly if this holds of the slots with an
      entry. */
  lemma WalkableIff(c: Context, p: Pdo)
    requires OdOk(c.od) && Consistent(p) && forall i | 0 <= i < p.count :: Remembered(c, p.slots[i])
    ensures Walkable(c.od, p, true)
       <==> !Overhang(Used(p)) && forall i | 0 <= i < p.count :: HasPlace(p.slots[i])
    ensures Walkable(c.od, p, false)
       <==> forall i | 0 <= i < p.count && p.slots[i].found.Some? ::
              HasPlace(p.slots[i]) && Bitlength(p.slots[..i]) < 64
  {
    hide Remembered, HasPlace, Overhang, MappedLength, Consistent, Bitlength, Find;
    FitsFrame(p);
    var used := Used(p);
    StartsInsideIff(used);
    forall i: nat | i < p.count
      ensures used[..i] == p.slots[..i] && MappedLength(p.slots[i].mapping) <= 64
      ensures p.slots[i].found.Some? ==> (Find(c.od, SlotKey(p.slots[i])) == p.slots[i].found <==> HasPlace(p.slots[i]))
      ensures p.slots[i].found.None? ==> HasPlace(p.slots[i])
    {
      SlotWalks(c, p, i);
    }
  }

  lemma FitsFrame(p: Pdo)
    requires Consistent(p)
    ensures p.count <= MAX_PDO_ENTRIES && Bitlength(Used(p)) <= 64
  {
  }

  lemma SlotWalks(c: Context, p: Pdo, i: nat)
    requires OdOk(c.od) && Consistent(p) && i < p.count <= MAX_PDO_ENTRIES && Remembered(c, p.slots[i])
    ensures Used(p)[..i] == p.slots[..i] && MappedLength(p.slots[i].mapping) <= 64
    ensures p.slots[i].found.Some? ==> (Find(c.od, SlotKey(p.slots[i])) == p.slots[i].found <==> HasPlace(p.slots[i]))
    ensures p.slots[i].found.None? ==> HasPlace(p.slots[i])
  {
    hide Remembered, HasPlace, Find, MappedSub;
    LengthUpTo(Used(p), i);
    if p.slots[i].found.Some? {
      StoredIffHasPlace(c, p.slots[i]);
    } else {
      NothingHasPlace(p.slots[i]);
    }
  }

  lemma NothingHasPlace(s: Slot)
    requires s.found.None?
    ensures HasPlace(s)
  {
  }

  /** So it is after any run that leaves the mapping consistent, restores included. */
  lemma RunWalkableIff(c: Context, p: Pdo, ops: seq<(bool, Op)>)
    requires OdOk(c.od) && Consistent(Run(c, p, ops))
    requires forall i | 0 <= i < MAX_PDO_ENTRIES :: Remembered(c, p.slots[i])
    ensures var q := Run(c, p, ops);
            Walkable(c.od, q, true) <==> !Overhang(Used(q)) && forall i | 0 <= i < q.count :: HasPlace(q.slots[i])
  {
    hide Run, Remembered, Walkable, Overhang, HasPlace;
    var q := Run(c, p, ops);
    forall i: nat | i < MAX_PDO_ENTRIES
      ensures Remembered(c, q.slots[i])
    {
      SlotsRemember(c, p, ops, i);
    }
    WalkableIff(c, q);
  }

  /** Padding is accepted without a look at its length, so the exception can be configured: on a
      disabled, empty PDO, map 64 bits and then padding of none, use both, and enable it. Every
      access is accepted, and packing the PDO fails an assertion. */
  lemma ZeroPaddingOverhangs(c: Context, p: Pdo, m: U32)
    requires !Enabled(p) && p.count == 0 && MappedLength(m) == 64 && Mappable(c.od, c.rx, m).0 == 0
    ensures var (a1, p1) := Step(c, false, p, Map(1, m));
            var (a2, p2) := Step(c, false, p1, Map(2, 0x0005_0000));
            var (a3, p3) := Step(c, false, p2, Map(0, 2));
            var (a4, p4) := Step(c, false, p3, Comm(1, 0x181));
            && a1 == 0 && a2 == 0 && a3 == 0 && a4 == 0
            && Enabled(p4) && Consistent(p4) && Overhang(Used(p4)) && !Walkable(c.od, p4, true)
  {
    var padding: U32 := 0x0005_0000;
    assert Mappable(c.od, c.rx, padding) == (0, None);
    hide Mappable;
    var p2 := Step(c, false, Step(c, false, p, Map(1, m)).1, Map(2, padding)).1;
    TwoSlots(p2.slots);
    var p4 := Step(c, false, Step(c, false, p2, Map(0, 2)).1, Comm(1, 0x181)).1;
    assert p4.slots == p2.slots && p4.count == 2;
    assert Used(p4) == p4.slots[..2];
    assert Bitlength(p4.slots[..1]) == 64;
  }

  lemma TwoSlots(s: Slots)
    ensures Bitlength(s[..1]) == MappedLength(s[0].mapping)
    ensures Bitlength(s[..2]) == MappedLength(s[0].mapping) + MappedLength(s[1].mapping)
  {
    assert s[..2][..1] == s[..1] && s[..1][..0] == s[..0];
  }

  lemma WalksAll(od: seq<Obj>, p: Pdo, all: bool)
    requires Walkable(od, p, all)
    ensures p.count <= MAX_PDO_ENTRIES && Used(p) == p.slots[..p.count]
  {
  }

  lemma WalksAt(od: seq<Obj>, p: Pdo, all: bool, i: nat)
    requires Walkable(od, p, all) && i < p.count <= MAX_PDO_ENTRIES && (all || p.slots[i].found.Some?)
    ensures Bitlength(p.slots[..i]) < 64 && MappedLength(p.slots[i].mapping) <= 64
    ensures p.slots[i].found.Some? ==> Find(od, SlotKey(p.slots[i])) == p.slots[i].found
  {
  }

  /** What a node needs of a PDO in its tables: a transmit PDO can be packed if it is enabled, a
      receive PDO unpacked if it is enabled or a frame is queued. */
  ghost predicate Ready(od: seq<Obj>, p: Pdo, tx: bool) {
    Enabled(p) || (!tx && p.queued) ==> Walkable(od, p, tx)
  }

  lemma ReadyMeans(od: seq<Obj>, p: Pdo, tx: bool)
    requires Ready(od, p, tx)
    ensures Enabled(p) ==> Walkable(od, p, tx)
    ensures !tx && p.queued ==> Walkable(od, p, false)
  {
    hide SlotsWalkable;
  }

  class PdoObject {
    const number: nat
    const rx: bool
    var cobid: U32
    var transmission: Byte
    var syncStart: Byte
    var syncCounter: Byte
    var inhibit: U16
    var eventTimer: U16
    var timestamp: nat
    var frame: Word64
    var bitlength: nat
    var count: Byte
    var queued: bool
    var syncWait: bool
    var monitoring: bool
    var timedOut: bool
    var slots: Slots

    /** Disabled, as co_pdo_init leaves it. */
    constructor (number: nat, rx: bool)
      ensures this.number == number && this.rx == rx
      ensures State() == Pdo(number, COBID_INVALID, 0, 0, 0, 0, 0, 0, Zero(64), 0, 0,
                             false, false, false, false, seq(MAX_PDO_ENTRIES, _ => Slot(0, None)))
    {
      this.number, this.rx := number, rx;
      cobid, transmission, syncStart, syncCounter := COBID_INVALID, 0, 0, 0;
      inhibit, eventTimer, timestamp := 0, 0, 0;
      frame, bitlength, count := Zero(64), 0, 0;
      queued, syncWait, monitoring, timedOut := false, false, false, false;
      slots := seq(MAX_PDO_ENTRIES, _ => Slot(0, None));
    }

    function State(): Pdo
      reads this
    {
      Pdo(number, cobid, transmission, syncStart, syncCounter, inhibit, eventTimer, timestamp,
          frame, bitlength, count, queued, syncWait, monitoring, timedOut, slots)
    }

    // ----- configuration

    method MappingValidate(n: Byte) returns (abort: U32)
      modifies this
      ensures (abort, State()) == Validate(old(State()), n)
    {
      if n > MAX_PDO_ENTRIES {
        return ABORT_PDO_LENGTH;
      }
      hide Bitlength;
      bitlength := 0;
      BitlengthNext(slots, 0);
      for ix := 0 to n
        invariant State() == old(State()).(bitlength := Bitlength(slots[..ix]))
      {
        BitlengthNext(slots, ix);
        bitlength := bitlength + MappedLength(slots[ix].mapping);
      }
      if bitlength > 64 {
        return ABORT_PDO_LENGTH;
      }
      if IsCyclic(syncStart) {
        syncWait := true;
      }
      monitoring := false;
      return 0;
    }

    method GetComm(sub: Byte) returns (abort: U32, value: U32)
      ensures (abort, value) == CommGet(State(), sub)
    {
      value := 0;
      match sub {
        case 1 => value := cobid;
        case 2 => value := transmission;
        case 3 => value := inhibit;
        case 5 => value := eventTimer;
        case 6 => value := syncStart;
        case _ => return ABORT_BAD_SUBINDEX, value;
      }
      return 0, value;
    }

    method GetMap(sub: Byte) returns (abort: U32, value: U32)
      ensures (abort, value) == MapGet(State(), sub)
    {
      value := 0;
      if sub == 0 {
        value := count;
      } else if sub > MAX_PDO_ENTRIES {
        return ABORT_BAD_SUBINDEX, value;
      } else {
        value := slots[sub - 1].mapping;
      }
      return 0, value;
    }

    method SetComm(init: bool, sub: Byte, value: U32) returns (abort: U32)
      modifies this
      ensures (abort, State()) == CommSet(old(State()), rx, init, sub, value)
    {
      match sub {
        case 1 =>
          if !ValidCobId(value) {
            return ABORT_VALUE;
          }
          if cobid < COBID_INVALID && value < COBID_INVALID && !init {
            return ABORT_VALUE;
          }
          cobid := value;
          syncCounter := 0;
          queued := false;
        case 2 =>
          if !ValidTransmission(value % 0x100, rx) {
            return ABORT_VALUE;
          }
          transmission := value % 0x100;
        case 3 =>
          if cobid < COBID_INVALID && !init {
            return ABORT_VALUE;
          }
          inhibit := value % 0x10000;
        case 5 =>
          eventTimer := value % 0x10000;
        case 6 =>
          if rx {
            return ABORT_BAD_SUBINDEX;
          }
          if cobid < COBID_INVALID && !init {
            return ABORT_VALUE;
          }
          syncStart := value % 0x100;
        case _ =>
          return ABORT_BAD_SUBINDEX;
      }
      return 0;
    }

    method SetMap(od: seq<Obj>, init: bool, sub: Byte, value: U32) returns (abort: U32)
      requires OdOk(od)
      modifies this
      ensures (abort, State()) == MapSet(od, old(State()), rx, init, sub, value)
    {
      hide Bitlength, ObjFind, EntryFind, IsPadding;
      if !init && cobid < COBID_INVALID {
        return ABORT_GENERAL;
      }
      if sub == 0 {
        abort := MappingValidate(value % 0x100);
        if abort != 0 {
          return;
        }
        count := value % 0x100;
        return 0;
      } else if sub > MAX_PDO_ENTRIES {
        return ABORT_BAD_SUBINDEX;
      }
      if count != 0 && !init {
        return ABORT_ACCESS;
      }
      var padding := PaddingTest(MappedIndex(value), MappedSub(value));
      if padding {
        slots := slots[sub - 1 := Slot(value, None)];
        return 0;
      }
      var o := LookupObj(od, MappedIndex(value));
      if o.None? {
        return ABORT_BAD_INDEX;
      }
      var e := LookupEntry(o.value, MappedSub(value));
      if e.None? {
        return ABORT_BAD_SUBINDEX;
      }
      if e.value.bitlength != MappedLength(value) {
        return ABORT_UNMAPPABLE;
      }
      if rx && !e.value.rpdo {
        return ABORT_UNMAPPABLE;
      }
      if !rx && !e.value.tpdo {
        return ABORT_UNMAPPABLE;
      }
      slots := slots[sub - 1 := Slot(value, Some((o.value, e.value)))];
      return 0;
    }

    method RestoreComm(node: Byte)
      modifies this
      ensures State() == RestoredComm(old(State()), rx, node)
    {
      cobid := COBID_INVALID
               + if number < 4 then node + (if rx then 0x200 else 0x180) + number * 0x100 else 0;
      transmission, inhibit, eventTimer, syncStart := 0xFF, 0, 0, 0;
    }

    method RestoreMap()
      modifies this
      ensures State() == RestoredMap(old(State()))
    {
      count := MAX_PDO_ENTRIES;
      for ix := 0 to MAX_PDO_ENTRIES
        invariant State() == old(State()).(count := MAX_PDO_ENTRIES, slots := slots)
        invariant forall i | 0 <= i < MAX_PDO_ENTRIES ::
                    slots[i] == if i < ix then Slot(0, old(slots)[i].found) else old(slots)[i]
      {
        slots := slots[ix := Slot(0, slots[ix].found)];
      }
      assert slots == RestoredMap(old(State())).slots;
    }

    /** co_pdo_mapping_init, for one PDO. */
    method StartMapping()
      modifies this
      ensures State() == Started(old(State()))
    {
      if cobid < COBID_INVALID {
        var _ := MappingValidate(count);
      }
    }

    // ----- the frame

    method Pack(od: ObjectDictionary)
      requires Walkable(od.env.od, State(), true)
      modifies this`frame
      ensures State() == Sampled(od.env, od.St(), old(State()))
    {
      hide Packed, Bitlength, GetAt, BitsOf, Deposit, SlotsWalkable, Fields, Zero;
      ghost var used := Used(State());
      ghost var fs := Fields(od.env, od.St(), used);
      EmptyPacked(frame);
      WalksAll(od.env.od, State(), true);
      var offset := 0;
      for ix := 0 to count
        invariant offset == Bitlength(used[..ix])
        invariant frame == Packed(old(frame), fs[..ix])
      {
        var value := Zero(64);
        if slots[ix].found.Some? {
          var (o, e) := slots[ix].found.value;
          value := BitsOf(GetAt(od.env, od.St(), o, e, MappedSub(slots[ix].mapping), SlotKey(slots[ix])).1);
        }
        assert used[..ix] == slots[..ix];
        PackedNext(od.env, od.St(), used, old(frame), ix);
        WalksAt(od.env.od, State(), true, ix);
        frame := BitsliceSet(frame, offset, MappedLength(slots[ix].mapping), value);
        offset := offset + MappedLength(slots[ix].mapping);
      }
      assert fs[..count] == fs;
    }

    method Unpack(od: ObjectDictionary)
      requires od.Valid() && Walkable(od.env.od, State(), false)
      modifies od
      ensures od.Valid()
      ensures od.St() == Delivered(od.env, old(od.St()), Used(State()), Contents(frame, Used(State())))
    {
      hide Bitlength, Delivered, Contents, SetAt, StoreOk, OdOk, Find, SlotsWalkable;
      ghost var used := Used(State());
      ghost var values := Contents(frame, used);
      EmptyDelivered(od.env, od.St());
      WalksAll(od.env.od, State(), false);
      assert values[..0] == [] && used[..0] == [];
      var offset := 0;
      for ix := 0 to count
        invariant od.Valid()
        invariant offset == Bitlength(used[..ix])
        invariant od.St() == Delivered(od.env, old(od.St()), used[..ix], values[..ix])
      {
        assert used[..ix] == slots[..ix];
        DeliveredNext(od.env, old(od.St()), used, frame, ix);
        if slots[ix].found.Some? {
          WalksAt(od.env.od, State(), false, ix);
          var (o, e) := slots[ix].found.value;
          var value := BitsliceGet(frame, offset, MappedLength(slots[ix].mapping));
          var _ := od.SetEntry(o, e, MappedSub(slots[ix].mapping), SlotKey(slots[ix]), BytesOf(value));
        }
        offset := offset + MappedLength(slots[ix].mapping);
      }
      assert values[..count] == values && used[..count] == used;
    }

    /** The message to send, if any. */
    method Transmit(od: ObjectDictionary, now: nat) returns (sent: seq<Msg>)
      requires Walkable(od.env.od, State(), true)
      modifies this
      ensures (sent, State()) == PdoSync.Transmit(od.env, od.St(), old(State()), now)
    {
      hide SlotsWalkable;
      if IsEvent(transmission) && inhibit > 0 {
        if now - timestamp < 100 * inhibit {
          return [];
        }
      }
      Pack(od);
      sent := [Msg(cobid % 0x4000_0000, Sent(frame, bitlength))];
      timestamp := now;
      queued := false;
    }

    // ----- SYNC and frames

    method OnSync(od: ObjectDictionary, now: nat, overflow: Byte, counter: Byte) returns (sent: seq<Msg>)
      requires cobid < COBID_INVALID && (queued || IsCyclic(transmission) || transmission == 0xFC) ==>
                 Walkable(od.env.od, State(), true)
      modifies this
      ensures (sent, State()) == SyncTx(od.env, od.St(), old(State()), now, overflow, counter)
    {
      hide SlotsWalkable, Sampled, Message, Inhibited;
      sent := [];
      if cobid >= COBID_INVALID {
        return;
      }
      if queued {
        sent := Transmit(od, now);
      } else if IsCyclic(transmission) {
        if syncWait {
          if overflow == 0 {
            syncWait := false;
          } else if IsCyclic(syncStart) {
            if counter == syncStart {
              syncWait := false;
            }
          }
        }
        if !syncWait {
          syncCounter := (syncCounter + 1) % 0x100;
          if syncCounter == transmission {
            sent := Transmit(od, now);
            syncCounter := 0;
          }
        }
      } else if transmission == 0xFC {
        Pack(od);
      }
    }

    method Flush(od: ObjectDictionary)
      requires od.Valid() && (queued ==> Walkable(od.env.od, State(), false))
      modifies this`queued, od
      ensures od.Valid()
      ensures (od.St(), State()) == SyncRx(od.env, old(od.St()), old(State()))
    {
      if queued {
        Unpack(od);
        queued := false;
      }
    }

    method OnRequest(od: ObjectDictionary, id: U32, now: nat) returns (sent: seq<Msg>)
      requires cobid == id && (IsEvent(transmission) || transmission == 0xFD) ==>
                 Walkable(od.env.od, State(), true)
      modifies this
      ensures (sent, State()) == Request(od.env, od.St(), old(State()), id, now)
    {
      sent := [];
      if cobid == id {
        if IsEvent(transmission) || transmission == 0xFD {
          sent := Transmit(od, now);
        } else if transmission <= 0xF0 || transmission == 0xFC {
          sent := [Msg(cobid, Sent(frame, bitlength))];
          timestamp := now;
          queued := false;
        }
      }
    }

    method OnFrame(od: ObjectDictionary, id: U32, msg: Payload, now: nat, w: Window) returns (short: bool)
      requires od.Valid() && (cobid == id && IsEvent(transmission) ==> Walkable(od.env.od, State(), false))
      modifies this, od
      ensures od.Valid()
      ensures (short, od.St(), State()) == Receive(od.env, old(od.St()), old(State()), id, msg, now, w)
    {
      hide SlotsWalkable, Delivered, Contents, Buffered, ByteLength, StoreOk, OdOk;
      if cobid != id {
        return false;
      }
      if ByteLength(bitlength) > |msg| {
        return true;
      }
      if transmission <= 0xF0 && w.length > 0 {
        if now - w.since >= w.length {
          return false;
        }
      }
      Buffer(msg, now);
      if IsEvent(transmission) {
        Unpack(od);
      } else {
        queued := true;
      }
      return false;
    }

    /** Take over a frame and restart its monitoring. */
    method Buffer(msg: Payload, now: nat)
      modifies this`frame, this`timestamp, this`monitoring, this`timedOut
      ensures State() == Buffered(old(State()), msg, now)
    {
      hide Received;
      frame := Received(frame, msg);
      timestamp := now;
      if eventTimer > 0 {
        monitoring := true;
        timedOut := false;
      }
    }
  }

  lemma BitlengthNext(slots: seq<Slot>, ix: nat)
    requires ix < |slots|
    ensures Bitlength(slots[..0]) == 0
    ensures Bitlength(slots[..ix + 1]) == Bitlength(slots[..ix]) + MappedLength(slots[ix].mapping)
  {
    assert slots[..ix + 1][..ix] == slots[..ix];
  }

  lemma EmptyPacked(frame: Word64)
    ensures Packed(frame, []) == frame && Bitlength([]) == 0
  {
  }

  lemma PackedNext(env: Env, st: Store, slots: seq<Slot>, frame: Word64, ix: nat)
    requires ix < |slots|
    ensures var fs := Fields(env, st, slots);
            Packed(frame, fs[..ix + 1])
            == Deposit(Packed(frame, fs[..ix]), Bitlength(slots[..ix]), fs[ix].length, fs[ix].value)
    ensures Bitlength(slots[..ix + 1]) == Bitlength(slots[..ix]) + MappedLength(slots[ix].mapping)
  {
    var fs := Fields(env, st, slots);
    assert fs[..ix + 1][..ix] == fs[..ix] && slots[..ix + 1][..ix] == slots[..ix];
    TotalPrefix(env, st, slots, ix);
  }

  lemma EmptyDelivered(env: Env, st: Store)
    ensures Delivered(env, st, [], []) == st && Bitlength([]) == 0
  {
  }

  lemma DeliveredNext(env: Env, st: Store, slots: seq<Slot>, frame: Word64, ix: nat)
    requires ix < |slots|
    ensures var vs := Contents(frame, slots);
            Delivered(env, st, slots[..ix + 1], vs[..ix + 1])
            == Deliver(env, Delivered(env, st, slots[..ix], vs[..ix]), slots[ix],
                       Extract(frame, Bitlength(slots[..ix]), MappedLength(slots[ix].mapping)))
    ensures Bitlength(slots[..ix + 1]) == Bitlength(slots[..ix]) + MappedLength(slots[ix].mapping)
  {
    var vs := Contents(frame, slots);
    hide Contents, Deliver;
    assert slots[..ix + 1][..ix] == slots[..ix] && vs[..ix + 1][..ix] == vs[..ix];
    ContentsAt(frame, slots, ix);
  }
}
