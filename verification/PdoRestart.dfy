/** What a communication reset with a saved file does to a PDO: the accesses its parameter objects
    see are the ones a reload consists of (src/co_od.c, src/co_obj.c, src/co_pdo.c). */
module PdoRestart {
  import opened Bytes
  import opened Dictionary
  import opened Values
  import P = Persistence
  import opened StoreLoad
  import opened StoreEvents
  import opened PdoFrame
  import opened PdoConfig
  import opened PdoAccess
  import opened PdoReload

  // ----- the parameter objects of one PDO

  function Writable(sub: Byte, t: DataType, bits: nat, isArray: bool): Entry {
    Entry(sub, true, true, false, false, false, isArray, false, t, bits)
  }

  const OD1400: seq<Entry> :=
    [Entry(0, true, false, false, false, false, false, false, Unsigned8, 8), Writable(1, Unsigned32, 32, false),
     Writable(2, Unsigned8, 8, false), Writable(3, Unsigned16, 16, false), Writable(5, Unsigned16, 16, false)]

  const OD1800: seq<Entry> :=
    [Entry(0, true, false, false, false, false, false, false, Unsigned8, 8), Writable(1, Unsigned32, 32, false),
     Writable(2, Unsigned8, 8, false), Writable(3, Unsigned16, 16, false), Writable(5, Unsigned16, 16, false),
     Writable(6, Unsigned8, 8, false)]

  const OD1A00: seq<Entry> := [Writable(0, Unsigned8, 8, false), Writable(1, Unsigned32, 32, true)]

  function CommObj(number: nat, rx: bool): Obj {
    if rx then Obj(0x1400 + number, Record, 5, OD1400, true) else Obj(0x1800 + number, Record, 6, OD1800, true)
  }

  function MapObj(number: nat, rx: bool): Obj {
    Obj((if rx then 0x1600 else 0x1A00) + number, Record, 8, OD1A00, true)
  }

  /** Both objects are in the table, the communication parameters first, and their access function
      answers with the parameters of `p`. */
  predicate Hosts(env: Env, st: Store, p: Pdo, rx: bool, i: nat, j: nat) {
    && i < j < |env.od| && env.od[i] == CommObj(p.number, rx) && env.od[j] == MapObj(p.number, rx)
    && (forall sub: nat | 1 <= sub <= 6 :: env.read(st.log, env.od[i].index, sub) == CommGet(p, sub))
    && (forall sub: nat | sub <= 8 :: env.read(st.log, env.od[j].index, sub) == MapGet(p, sub))
  }

  // ----- events as accesses

  function Access(e: AccessEvent, comm: nat, map_: nat): seq<Op> {
    match e
    case Written(index, sub, v) =>
      if sub >= 0x100 || v >= 0x1_0000_0000 then []
      else if index == comm then [Comm(sub, v)]
      else if index == map_ then [Map(sub, v)]
      else []
    case Restored(index) =>
      if index == comm then [RestoreComm] else if index == map_ then [RestoreMap] else []
  }

  /** The accesses a PDO sees among all events. */
  function Accesses(es: seq<AccessEvent>, comm: nat, map_: nat): seq<Op> {
    if es == [] then [] else Access(es[0], comm, map_) + Accesses(es[1..], comm, map_)
  }

  lemma {:induction false} AccessesAppend(a: seq<AccessEvent>, b: seq<AccessEvent>, comm: nat, map_: nat)
    ensures Accesses(a + b, comm, map_) == Accesses(a, comm, map_) + Accesses(b, comm, map_)
  {
    hide Access;
    if a == [] {
      assert a + b == b;
    } else {
      assert (a + b)[1..] == a[1..] + b;
      AccessesAppend(a[1..], b, comm, map_);
    }
  }

  lemma AccessesOne(e: AccessEvent, comm: nat, map_: nat)
    ensures Accesses([e], comm, map_) == Access(e, comm, map_)
  {
    assert [e][1..] == [];
  }

  // ----- restoring

  /** Nobody else's objects. */
  predicate Others(od: seq<Obj>, comm: nat, map_: nat) {
    forall o | o in od :: o.index != comm && o.index != map_
  }

  lemma {:induction false} RestoresAppend(a: seq<Obj>, b: seq<Obj>, min: nat, max: nat)
    ensures Restores(a + b, min, max) == Restores(a, min, max) + Restores(b, min, max)
    decreases |b|
  {
    if b == [] {
      assert a + b == a;
    } else {
      assert (a + b)[..|a + b| - 1] == a + b[..|b| - 1];
      RestoresAppend(a, b[..|b| - 1], min, max);
    }
  }

  lemma {:induction false} OthersRestore(od: seq<Obj>, min: nat, max: nat, comm: nat, map_: nat)
    requires Others(od, comm, map_)
    ensures Accesses(Restores(od, min, max), comm, map_) == []
    decreases |od|
  {
    hide Access;
    if od != [] {
      var init, last := od[..|od| - 1], od[|od| - 1];
      assert forall o | o in init :: o in od;
      OthersRestore(init, min, max, comm, map_);
      if last.access && min <= last.index <= max {
        AccessesAppend(Restores(init, min, max), [Restored(last.index)], comm, map_);
        AccessesOne(Restored(last.index), comm, map_);
        OtherEvent(Restored(last.index), comm, map_);
      } else {
        assert Restores(od, min, max) == Restores(init, min, max);
      }
    }
  }

  lemma OtherEvent(e: AccessEvent, comm: nat, map_: nat)
    requires e.index != comm && e.index != map_
    ensures Access(e, comm, map_) == []
  {
  }

  /** A table around two of its objects. */
  lemma Around(od: seq<Obj>, i: nat, j: nat)
    requires OdOk(od) && i < j < |od|
    ensures od == od[..i] + ([od[i]] + (od[i + 1..j] + ([od[j]] + od[j + 1..])))
    ensures Others(od[..i], od[i].index, od[j].index) && Others(od[i + 1..j], od[i].index, od[j].index)
    ensures Others(od[j + 1..], od[i].index, od[j].index)
  {
    hide ObjOk;
  }

  /** Only two parts of a run of events are seen. */
  lemma SeenAmongOthers(a: seq<AccessEvent>, x: seq<AccessEvent>, b: seq<AccessEvent>, y: seq<AccessEvent>,
                        d: seq<AccessEvent>, comm: nat, map_: nat)
    requires Accesses(a, comm, map_) == Accesses(b, comm, map_) == Accesses(d, comm, map_) == []
    ensures Accesses(a + (x + (b + (y + d))), comm, map_) == Accesses(x, comm, map_) + Accesses(y, comm, map_)
  {
    hide Accesses;
    AccessesAppend(a, x + (b + (y + d)), comm, map_);
    AccessesAppend(x, b + (y + d), comm, map_);
    AccessesAppend(b, y + d, comm, map_);
    AccessesAppend(y, d, comm, map_);
  }

  lemma RestoresAround(a: seq<Obj>, o: Obj, b: seq<Obj>, m: Obj, d: seq<Obj>, min: nat, max: nat)
    requires o.access && m.access && min <= o.index <= max && min <= m.index <= max
    ensures Restores(a + ([o] + (b + ([m] + d))), min, max)
         == Restores(a, min, max) + ([Restored(o.index)] + (Restores(b, min, max) + ([Restored(m.index)]
            + Restores(d, min, max))))
  {
    hide Restores;
    RestoresAppend(a, [o] + (b + ([m] + d)), min, max);
    RestoresAppend([o], b + ([m] + d), min, max);
    RestoresAppend(b, [m] + d, min, max);
    RestoresAppend([m], d, min, max);
    RestoresOne(o, min, max);
    RestoresOne(m, min, max);
  }

  lemma RestoresSeen(env: Env, i: nat, j: nat, min: nat, max: nat)
    requires OdOk(env.od) && i < j < |env.od| && env.od[i].access && env.od[j].access
    requires min <= env.od[i].index <= max && min <= env.od[j].index <= max
    ensures Accesses(Restores(env.od, min, max), env.od[i].index, env.od[j].index) == [RestoreComm, RestoreMap]
  {
    var od, comm, map_ := env.od, env.od[i].index, env.od[j].index;
    assert comm != map_;
    hide OdOk, Others, Accesses, Restores;
    Around(od, i, j);
    var a, b, d := od[..i], od[i + 1..j], od[j + 1..];
    OthersRestore(a, min, max, comm, map_);
    OthersRestore(b, min, max, comm, map_);
    OthersRestore(d, min, max, comm, map_);
    RestoresAround(a, od[i], b, od[j], d, min, max);
    SeenAmongOthers(Restores(a, min, max), [Restored(comm)], Restores(b, min, max), [Restored(map_)],
                    Restores(d, min, max), comm, map_);
    AccessesOne(Restored(comm), comm, map_);
    AccessesOne(Restored(map_), comm, map_);
  }

  lemma RestoresOne(o: Obj, min: nat, max: nat)
    requires o.access && min <= o.index <= max
    ensures Restores([o], min, max) == [Restored(o.index)]
  {
    assert [o][..0] == [];
  }

  // ----- defaults

  lemma {:induction false} OtherDefaults(od: seq<Obj>, items: seq<Default>, min: nat, max: nat, comm: nat, map_: nat)
    requires forall d | d in items :: d.index != comm && d.index != map_
    ensures Accesses(DefaultsTell(od, items, min, max), comm, map_) == []
    decreases |items|
  {
    hide Access, Find;
    if items != [] {
      var d := items[0];
      assert forall x | x in items[1..] :: x in items;
      OtherDefaults(od, items[1..], min, max, comm, map_);
      AccessesAppend(DefaultTells(od, d, min, max), DefaultsTell(od, items[1..], min, max), comm, map_);
      assert d in items;
      if DefaultTells(od, d, min, max) != [] {
        AccessesOne(DefaultTells(od, d, min, max)[0], comm, map_);
        OtherEvent(DefaultTells(od, d, min, max)[0], comm, map_);
      }
    }
  }

  // ----- saved values

  /** What loading the records of these values tells a PDO. */
  function Loads(env: Env, sa: Store, slots: seq<P.Slot>, comm: nat, map_: nat): seq<Op> {
    Accesses(RecordsTell(env.od, P.Records(env, sa, slots)), comm, map_)
  }

  lemma {:induction false} RecordsTellAppend(od: seq<Obj>, a: seq<P.Rec>, b: seq<P.Rec>)
    ensures RecordsTell(od, a + b) == RecordsTell(od, a) + RecordsTell(od, b)
  {
    hide RecordTells;
    if a == [] {
      assert a + b == b;
    } else {
      assert (a + b)[1..] == a[1..] + b;
      RecordsTellAppend(od, a[1..], b);
    }
  }

  lemma LoadsAppend(env: Env, sa: Store, a: seq<P.Slot>, b: seq<P.Slot>, comm: nat, map_: nat)
    ensures Loads(env, sa, a + b, comm, map_) == Loads(env, sa, a, comm, map_) + Loads(env, sa, b, comm, map_)
  {
    hide P.Payload, P.SlotKey, RecordsTell, Accesses;
    assert P.Records(env, sa, a + b) == P.Records(env, sa, a) + P.Records(env, sa, b);
    RecordsTellAppend(env.od, P.Records(env, sa, a), P.Records(env, sa, b));
    AccessesAppend(RecordsTell(env.od, P.Records(env, sa, a)), RecordsTell(env.od, P.Records(env, sa, b)), comm, map_);
  }

  lemma LoadsOther(env: Env, sa: Store, s: P.Slot, comm: nat, map_: nat)
    requires s.obj.index != comm && s.obj.index != map_
    ensures Loads(env, sa, [s], comm, map_) == []
  {
    hide P.Payload, Find, SetByLoad, Access, Accesses, RecordsTell;
    var r := P.Rec(P.SlotKey(s), P.Payload(env, sa, s).1);
    assert P.Records(env, sa, [s]) == [r];
    RecordsTellOne(env.od, r);
    if RecordTells(env.od, r) != [] {
      var e := RecordTells(env.od, r)[0];
      assert RecordTells(env.od, r) == [e];
      AccessesOne(e, comm, map_);
      OtherEvent(e, comm, map_);
    } else {
      NothingSeen(comm, map_);
    }
  }

  lemma RecordsTellOne(od: seq<Obj>, r: P.Rec)
    ensures RecordsTell(od, [r]) == RecordTells(od, r)
  {
    assert [r][1..] == [];
  }

  lemma NothingSeen(comm: nat, map_: nat)
    ensures Accesses([], comm, map_) == []
  {
  }

  lemma {:induction false} LoadsOthers(env: Env, sa: Store, slots: seq<P.Slot>, comm: nat, map_: nat)
    requires forall s | s in slots :: s.obj.index != comm && s.obj.index != map_
    ensures Loads(env, sa, slots, comm, map_) == []
    decreases |slots|
  {
    hide Loads;
    if slots == [] {
      LoadsNothing(env, sa, comm, map_);
    } else {
      assert slots == [slots[0]] + slots[1..];
      LoadsAppend(env, sa, [slots[0]], slots[1..], comm, map_);
      LoadsOther(env, sa, slots[0], comm, map_);
      LoadsOthers(env, sa, slots[1..], comm, map_);
    }
  }

  lemma LoadsNothing(env: Env, sa: Store, comm: nat, map_: nat)
    ensures Loads(env, sa, [], comm, map_) == []
  {
  }

  /** A value of one of the parameter objects is written back as it was answered. */
  lemma LoadsOwn(env: Env, sa: Store, s: P.Slot, v: U32, comm: nat, map_: nat)
    requires Find(env.od, P.SlotKey(s)) == Some((s.obj, s.entry)) && P.Storable(s.entry) && s.obj.access
    requires s.subindex < 0x100 && 1 <= ByteLength(s.entry.bitlength) <= 4
    requires v < Pow256(ByteLength(s.entry.bitlength))
    requires env.read(sa.log, s.obj.index, s.subindex) == (0, v)
    ensures Loads(env, sa, [s], comm, map_) == Access(Written(s.obj.index, s.subindex, v), comm, map_)
  {
    hide Find, Le, ToLe, Access, Accesses, RecordsTell, P.Payload;
    var size := ByteLength(s.entry.bitlength);
    PayloadIs(env, sa, s);
    var r := P.Rec(P.SlotKey(s), ToLe(v, size));
    assert P.Records(env, sa, [s]) == [r];
    RecordsTellOne(env.od, r);
    LeOfToLeFits(v, size);
    assert RecordTells(env.od, r) == [Written(s.obj.index, s.subindex, v)];
    AccessesOne(Written(s.obj.index, s.subindex, v), comm, map_);
  }

  lemma {:induction false} OdSlotsAppend(a: seq<Obj>, b: seq<Obj>, min: nat, max: nat)
    ensures P.OdSlots(a + b, min, max) == P.OdSlots(a, min, max) + P.OdSlots(b, min, max)
  {
    hide P.ObjSlots;
    if a == [] {
      assert a + b == b;
    } else {
      assert (a + b)[1..] == a[1..] + b;
      OdSlotsAppend(a[1..], b, min, max);
    }
  }

  lemma OdSlotsOne(o: Obj, min: nat, max: nat)
    requires min <= o.index <= max
    ensures P.OdSlots([o], min, max) == P.ObjSlots(o, 0)
  {
    hide P.ObjSlots;
    assert [o][1..] == [];
  }

  lemma {:induction false} OthersSlots(od: seq<Obj>, min: nat, max: nat, comm: nat, map_: nat)
    requires Others(od, comm, map_)
    ensures forall s | s in P.OdSlots(od, min, max) :: s.obj.index != comm && s.obj.index != map_
  {
    hide P.SlotAt;
    if od != [] {
      assert od[0] in od && forall o | o in od[1..] :: o in od;
      ObjSlotsOwn(od[0], 0);
      OthersSlots(od[1..], min, max, comm, map_);
    }
  }

  lemma {:induction false} ObjSlotsOwn(o: Obj, from: nat)
    requires from <= o.maxSubindex + 1
    ensures forall s | s in P.ObjSlots(o, from) :: s.obj == o
    decreases o.maxSubindex + 1 - from
  {
    hide EntryFind;
    if from <= o.maxSubindex {
      ObjSlotsOwn(o, from + 1);
    }
  }

  /** The communication parameters in ascending order of subindex. */
  function CommOps(rx: bool, p: Pdo): seq<Op> {
    [Comm(1, p.cobid), Comm(2, p.transmission), Comm(3, p.inhibit), Comm(5, p.eventTimer)]
    + if rx then [] else [Comm(6, p.syncStart)]
  }

  /** The count and the mapping words from `k` on. */
  function MapOps(p: Pdo, k: nat): seq<Op>
    requires k <= 9
    decreases 9 - k
  {
    if k == 9 then [] else [Map(k, MapGet(p, k).1)] + MapOps(p, k + 1)
  }

  lemma CommEntry(number: nat, rx: bool, sub: nat)
    requires 1 <= sub <= 6
    ensures var o := CommObj(number, rx);
            && (sub == 4 || (rx && sub == 6) ==> EntryFind(o, sub).None?)
            && (sub != 4 && !(rx && sub == 6) ==>
                  && EntryFind(o, sub).Some?
                  && var e := EntryFind(o, sub).value;
                  P.Storable(e)
                  && ByteLength(e.bitlength) == if sub == 1 then 4 else if sub == 3 || sub == 5 then 2 else 1)
    ensures P.SlotAt(CommObj(number, rx), 0) == []
  {
    hide OD1400, OD1800;
    if rx {
      Rpdo(sub);
      Rpdo(0);
    } else {
      Tpdo(sub);
      Tpdo(0);
    }
  }

  lemma Rpdo(sub: nat)
    ensures Search(OD1400, sub)
         == if sub == 0 then Some(Entry(0, true, false, false, false, false, false, false, Unsigned8, 8))
            else if sub == 1 then Some(Writable(1, Unsigned32, 32, false))
            else if sub == 2 then Some(Writable(2, Unsigned8, 8, false))
            else if sub == 3 then Some(Writable(3, Unsigned16, 16, false))
            else if sub == 5 then Some(Writable(5, Unsigned16, 16, false)) else None
    ensures |OD1400| == 5 && !OD1400[1].isArray
  {
    var es := OD1400;
    assert es[1..][1..] == es[2..] && es[2..][1..] == es[3..] && es[3..][1..] == es[4..];
    assert Search(es, sub) == if sub == 0 then Some(es[0]) else Search(es[1..], sub);
    assert Search(es[1..], sub) == if sub == 1 then Some(es[1]) else Search(es[2..], sub);
    assert Search(es[2..], sub) == if sub == 2 then Some(es[2]) else Search(es[3..], sub);
    assert Search(es[3..], sub) == if sub == 3 then Some(es[3]) else Search(es[4..], sub);
  }

  lemma Tpdo(sub: nat)
    ensures Search(OD1800, sub)
         == if sub == 6 then Some(Writable(6, Unsigned8, 8, false)) else Search(OD1400, sub)
    ensures |OD1800| == 6 && !OD1800[1].isArray
    ensures Search(OD1400, sub)
         == if sub == 0 then Some(Entry(0, true, false, false, false, false, false, false, Unsigned8, 8))
            else if sub == 1 then Some(Writable(1, Unsigned32, 32, false))
            else if sub == 2 then Some(Writable(2, Unsigned8, 8, false))
            else if sub == 3 then Some(Writable(3, Unsigned16, 16, false))
            else if sub == 5 then Some(Writable(5, Unsigned16, 16, false)) else None
  {
    Rpdo(sub);
    SearchAppend(OD1400, Writable(6, Unsigned8, 8, false), sub);
    assert OD1800 == OD1400 + [Writable(6, Unsigned8, 8, false)];
  }

  lemma {:induction false} SearchAppend(es: seq<Entry>, e: Entry, sub: nat)
    ensures Search(es + [e], sub)
         == if Search(es, sub).Some? then Search(es, sub) else if e.subindex == sub then Some(e) else None
  {
    if es != [] {
      assert (es + [e])[1..] == es[1..] + [e];
      SearchAppend(es[1..], e, sub);
    } else {
      assert [e][1..] == [];
    }
  }

  lemma MapEntry(number: nat, rx: bool, sub: nat)
    requires sub <= 8
    ensures var o := MapObj(number, rx);
            && EntryFind(o, sub).Some?
            && var e := EntryFind(o, sub).value;
            P.Storable(e) && ByteLength(e.bitlength) == if sub == 0 then 1 else 4
  {
  }

  lemma HostsMeans(env: Env, sa: Store, p: Pdo, rx: bool, i: nat, j: nat)
    requires OdOk(env.od) && Hosts(env, sa, p, rx, i, j)
    ensures i < j < |env.od| && env.od[i] == CommObj(p.number, rx) && env.od[j] == MapObj(p.number, rx)
    ensures ObjFind(env.od, env.od[i].index) == Some(env.od[i]) && ObjFind(env.od, env.od[j].index) == Some(env.od[j])
    ensures env.od[i].index != env.od[j].index && env.od[i].access && env.od[j].access
    ensures env.od[i].maxSubindex == (if rx then 5 else 6) && env.od[j].maxSubindex == 8
    ensures forall sub: nat | 1 <= sub <= 6 :: env.read(sa.log, env.od[i].index, sub) == CommGet(p, sub)
    ensures forall sub: nat | sub <= 8 :: env.read(sa.log, env.od[j].index, sub) == MapGet(p, sub)
  {
    ObjFindMember(env.od, env.od[i]);
    ObjFindMember(env.od, env.od[j]);
    hide ObjOk, ObjFind;
  }

  lemma CommLoad(env: Env, sa: Store, p: Pdo, rx: bool, i: nat, j: nat, sub: nat)
    requires OdOk(env.od) && Hosts(env, sa, p, rx, i, j) && 1 <= sub <= 6
    ensures Loads(env, sa, P.SlotAt(env.od[i], sub), env.od[i].index, env.od[j].index)
         == if sub == 4 || (rx && sub == 6) then [] else [Comm(sub, CommGet(p, sub).1)]
  {
    hide OdOk, Hosts, Loads, EntryFind, ByteLength, ObjFind, CommObj, MapObj, CommGet;
    HostsMeans(env, sa, p, rx, i, j);
    CommEntry(p.number, rx, sub);
    var o, comm, map_ := env.od[i], env.od[i].index, env.od[j].index;
    if sub == 4 || (rx && sub == 6) {
      LoadsNothing(env, sa, comm, map_);
    } else {
      Fits(p, sub);
      LoadsOwn(env, sa, P.Slot(o, EntryFind(o, sub).value, sub), CommGet(p, sub).1, comm, map_);
    }
  }

  lemma {:induction false} CommLoads(env: Env, sa: Store, p: Pdo, rx: bool, i: nat, j: nat, from: nat)
    requires OdOk(env.od) && Hosts(env, sa, p, rx, i, j) && 1 <= from <= 7 && (rx ==> from <= 6)
    ensures Loads(env, sa, P.ObjSlots(env.od[i], from), env.od[i].index, env.od[j].index) == CommFrom(rx, p, from)
    decreases 8 - from
  {
    hide OdOk, Hosts, Loads, P.SlotAt, ObjFind, CommObj, MapObj, CommGet;
    HostsMeans(env, sa, p, rx, i, j);
    var o, comm, map_ := env.od[i], env.od[i].index, env.od[j].index;
    if from > o.maxSubindex {
      LoadsNothing(env, sa, comm, map_);
    } else {
      CommLoad(env, sa, p, rx, i, j, from);
      CommLoads(env, sa, p, rx, i, j, from + 1);
      LoadsAppend(env, sa, P.SlotAt(o, from), P.ObjSlots(o, from + 1), comm, map_);
    }
  }

  /** The communication parameters from `k` on. */
  function CommFrom(rx: bool, p: Pdo, k: nat): seq<Op>
    decreases 8 - k
  {
    if k > 6 || (rx && k > 5) then []
    else (if k == 4 then [] else [Comm(k, CommGet(p, k).1)]) + CommFrom(rx, p, k + 1)
  }

  lemma CommFromIs(rx: bool, p: Pdo)
    ensures CommFrom(rx, p, 1) == CommOps(rx, p)
  {
    assert CommFrom(rx, p, 5) == [Comm(5, p.eventTimer)] + CommFrom(rx, p, 6);
    assert CommFrom(rx, p, 3) == [Comm(3, p.inhibit)] + CommFrom(rx, p, 5);
  }

  lemma Fits(p: Pdo, sub: nat)
    requires 1 <= sub <= 6 && sub != 4
    ensures CommGet(p, sub).0 == 0
    ensures CommGet(p, sub).1 < Pow256(if sub == 1 then 4 else if sub == 3 || sub == 5 then 2 else 1)
  {
    Pow256Values();
  }

  lemma {:induction false} MapLoads(env: Env, sa: Store, p: Pdo, rx: bool, i: nat, j: nat, from: nat)
    requires OdOk(env.od) && Hosts(env, sa, p, rx, i, j) && from <= 9
    ensures Loads(env, sa, P.ObjSlots(env.od[j], from), env.od[i].index, env.od[j].index) == MapOps(p, from)
    decreases 9 - from
  {
    hide OdOk, Hosts, Loads, EntryFind, ByteLength, ObjFind, CommObj, MapObj;
    HostsMeans(env, sa, p, rx, i, j);
    var o, comm, map_ := env.od[j], env.od[i].index, env.od[j].index;
    if from == 9 {
      LoadsNothing(env, sa, comm, map_);
    } else {
      MapEntry(p.number, rx, from);
      Pow256Values();
      MapLoads(env, sa, p, rx, i, j, from + 1);
      LoadsAppend(env, sa, P.SlotAt(o, from), P.ObjSlots(o, from + 1), comm, map_);
      LoadsOwn(env, sa, P.Slot(o, EntryFind(o, from).value, from), MapGet(p, from).1, comm, map_);
    }
  }

  /** What loading the whole file tells the PDO. */
  lemma FileLoads(env: Env, sa: Store, p: Pdo, rx: bool, i: nat, j: nat, min: nat, max: nat)
    requires OdOk(env.od) && Hosts(env, sa, p, rx, i, j)
    requires min <= env.od[i].index <= max && min <= env.od[j].index <= max
    ensures Loads(env, sa, P.OdSlots(env.od, min, max), env.od[i].index, env.od[j].index)
         == CommOps(rx, p) + MapOps(p, 0)
  {
    var od, comm, map_ := env.od, env.od[i].index, env.od[j].index;
    CommLoads(env, sa, p, rx, i, j, 1);
    CommFromIs(rx, p);
    MapLoads(env, sa, p, rx, i, j, 0);
    CommEntry(p.number, rx, 1);
    assert P.ObjSlots(od[i], 0) == P.ObjSlots(od[i], 1);
    Around(od, i, j);
    var a, b, d := od[..i], od[i + 1..j], od[j + 1..];
    OthersSlots(a, min, max, comm, map_);
    OthersSlots(b, min, max, comm, map_);
    OthersSlots(d, min, max, comm, map_);
    hide OdOk, Loads, P.OdSlots, P.ObjSlots, Others, Hosts, CommOps, MapOps;
    SlotsAround(od, i, j, min, max);
    var sa_, sb, sd := P.OdSlots(a, min, max), P.OdSlots(b, min, max), P.OdSlots(d, min, max);
    var si, sj := P.ObjSlots(od[i], 0), P.ObjSlots(od[j], 0);
    LoadsOthers(env, sa, sa_, comm, map_);
    LoadsOthers(env, sa, sb, comm, map_);
    LoadsOthers(env, sa, sd, comm, map_);
    LoadsAmongOthers(env, sa, sa_, si, sb, sj, sd, comm, map_);
  }

  lemma LoadsAmongOthers(env: Env, sa: Store, a: seq<P.Slot>, x: seq<P.Slot>, b: seq<P.Slot>, y: seq<P.Slot>,
                         d: seq<P.Slot>, comm: nat, map_: nat)
    requires Loads(env, sa, a, comm, map_) == Loads(env, sa, b, comm, map_) == Loads(env, sa, d, comm, map_) == []
    ensures Loads(env, sa, a + (x + (b + (y + d))), comm, map_)
         == Loads(env, sa, x, comm, map_) + Loads(env, sa, y, comm, map_)
  {
    hide Loads;
    LoadsAppend(env, sa, a, x + (b + (y + d)), comm, map_);
    LoadsAppend(env, sa, x, b + (y + d), comm, map_);
    LoadsAppend(env, sa, b, y + d, comm, map_);
    LoadsAppend(env, sa, y, d, comm, map_);
  }

  lemma SlotsAround(od: seq<Obj>, i: nat, j: nat, min: nat, max: nat)
    requires OdOk(od) && i < j < |od| && min <= od[i].index <= max && min <= od[j].index <= max
    ensures P.OdSlots(od, min, max)
         == P.OdSlots(od[..i], min, max) + (P.ObjSlots(od[i], 0) + (P.OdSlots(od[i + 1..j], min, max)
            + (P.ObjSlots(od[j], 0) + P.OdSlots(od[j + 1..], min, max))))
  {
    Around(od, i, j);
    hide OdOk, P.OdSlots, P.ObjSlots, Others;
    var a, b, d := od[..i], od[i + 1..j], od[j + 1..];
    OdSlotsAppend(a, [od[i]] + (b + ([od[j]] + d)), min, max);
    OdSlotsAppend([od[i]], b + ([od[j]] + d), min, max);
    OdSlotsAppend(b, [od[j]] + d, min, max);
    OdSlotsAppend([od[j]], d, min, max);
    OdSlotsOne(od[i], min, max);
    OdSlotsOne(od[j], min, max);
  }

  // ----- the whole reset

  /** During initialisation. */
  function AtInit(ops: seq<Op>): (r: seq<(bool, Op)>)
    ensures |r| == |ops| && forall i | 0 <= i < |r| :: r[i] == (true, ops[i])
  {
    seq(|ops|, i requires 0 <= i < |ops| => (true, ops[i]))
  }

  lemma ReloadIs(rx: bool, p: Pdo)
    ensures AtInit([RestoreComm, RestoreMap] + (CommOps(rx, p) + MapOps(p, 0))) == Reload(rx, p)
  {
    hide CommOps, MapOps, Words, MapGet;
    AtInitAppend([RestoreComm, RestoreMap], CommOps(rx, p) + MapOps(p, 0));
    AtInitAppend(CommOps(rx, p), MapOps(p, 0));
    ParametersAre(rx, p);
    WordsAre(p);
  }

  lemma AtInitAppend(a: seq<Op>, b: seq<Op>)
    ensures AtInit(a + b) == AtInit(a) + AtInit(b)
  {
  }

  lemma ParametersAre(rx: bool, p: Pdo)
    ensures AtInit(CommOps(rx, p)) == Parameters(rx, p)
    ensures AtInit([RestoreComm, RestoreMap]) == [(true, RestoreComm), (true, RestoreMap)]
  {
  }

  lemma WordsAre(p: Pdo)
    ensures AtInit(MapOps(p, 0)) == [(true, Map(0, p.count))] + Words(p, MAX_PDO_ENTRIES)
  {
    MapOpsAt(p, 0);
    WordsAt(p, MAX_PDO_ENTRIES);
    hide MapOps, Words;
    var a, b := AtInit(MapOps(p, 0)), [(true, Map(0, p.count))] + Words(p, MAX_PDO_ENTRIES);
    forall i: nat | i < 9
      ensures a[i] == b[i]
    {
      if i > 0 {
        assert b[i] == Words(p, MAX_PDO_ENTRIES)[i - 1];
      }
    }
  }

  lemma {:induction false} MapOpsAt(p: Pdo, k: nat)
    requires k <= 9
    ensures |MapOps(p, k)| == 9 - k
    ensures forall i: nat | i < 9 - k :: MapOps(p, k)[i] == Map(k + i, MapGet(p, k + i).1)
    decreases 9 - k
  {
    if k < 9 {
      MapOpsAt(p, k + 1);
      assert MapOps(p, k)[1..] == MapOps(p, k + 1);
    }
  }

  lemma {:induction false} WordsAt(p: Pdo, k: nat)
    requires k <= MAX_PDO_ENTRIES
    ensures |Words(p, k)| == k && forall i: nat | i < k :: Words(p, k)[i] == (true, Map(i + 1, p.slots[i].mapping))
  {
    if k > 0 {
      WordsAt(p, k - 1);
    }
  }

  /** A reset with a file saved while a PDO had the parameters of `p` tells the parameter objects of
      that PDO exactly the accesses of a reload, in their order, unless a default is listed for
      them. */
  lemma ResetReloads(env: Env, st: Store, sa: Store, p: Pdo, rx: bool, i: nat, j: nat, min: nat, max: nat)
    requires OdOk(env.od) && StoreOk(env.od, st.mem)
    requires StoreOk(env.od, sa.mem) && P.AllReadable(env, sa, P.OdSlots(env.od, min, max))
    requires Hosts(env, sa, p, rx, i, j) && min <= env.od[i].index <= max && min <= env.od[j].index <= max
    requires forall d | d in env.defaults :: d.index != env.od[i].index && d.index != env.od[j].index
    ensures var file := P.File(P.Records(env, sa, P.OdSlots(env.od, min, max)));
            var log := P.Reset(env, st, Some(file), min, max).log;
            && st.log <= log
            && AtInit(Accesses(log[|st.log|..], env.od[i].index, env.od[j].index)) == Reload(rx, p)
  {
    var comm, map_ := env.od[i].index, env.od[j].index;
    ReloadIs(rx, p);
    RestoresSeen(env, i, j, min, max);
    OtherDefaults(env.od, env.defaults, min, max, comm, map_);
    FileLoads(env, sa, p, rx, i, j, min, max);
    ResetTells(env, st, env, sa, min, max);
    OwnFileIsRead(env, sa, min, max);
    HostsMeans(env, sa, p, rx, i, j);
    hide OdOk, StoreOk, P.AllReadable, P.OdSlots, P.Records, P.File, P.Reset, Hosts, Accesses, Restores, DefaultsTell;
    hide RecordsTell, Reached, CommOps, MapOps, Reload, AtInit, ObjFind, CommObj, MapObj, CommGet, MapGet;
    var rs := P.Records(env, sa, P.OdSlots(env.od, min, max));
    NewEvents(st.log, Restores(env.od, min, max), DefaultsTell(env.od, env.defaults, min, max),
              RecordsTell(env.od, rs), comm, map_);
  }

  lemma NewEvents(log: seq<AccessEvent>, r: seq<AccessEvent>, d: seq<AccessEvent>, w: seq<AccessEvent>,
                  comm: nat, map_: nat)
    requires Accesses(d, comm, map_) == []
    ensures var end := log + r + d + w;
            log <= end && Accesses(end[|log|..], comm, map_) == Accesses(r, comm, map_) + Accesses(w, comm, map_)
  {
    hide Accesses;
    assert (log + r + d + w)[|log|..] == r + (d + w);
    AccessesAppend(r, d + w, comm, map_);
    AccessesAppend(d, w, comm, map_);
  }

  lemma OwnFileIsRead(env: Env, sa: Store, min: nat, max: nat)
    requires OdOk(env.od) && StoreOk(env.od, sa.mem) && P.AllReadable(env, sa, P.OdSlots(env.od, min, max))
    ensures var rs := P.Records(env, sa, P.OdSlots(env.od, min, max)); Reached(env, rs) == rs
  {
    hide OdOk, StoreOk, P.AllReadable, P.OdSlots, P.Records, Obstructed, Reached;
    forall k'
      ensures !Obstructed(env, sa, env, min, max, k')
    {
      NotObstructed(env, sa, env, min, max, k');
    }
    ObstructedIff(env, sa, env, min, max);
  }

  /** So a PDO that is given these accesses ends with the parameters that were saved, whatever it
      held before. */
  lemma ResetRestoresPdo(env: Env, st: Store, sa: Store, c: Context, p: Pdo, q: Pdo, i: nat, j: nat, min: nat, max: nat)
    requires OdOk(env.od) && StoreOk(env.od, st.mem) && c.od == env.od && Savable(c, p) && p.number == q.number
    requires StoreOk(env.od, sa.mem) && P.AllReadable(env, sa, P.OdSlots(env.od, min, max))
    requires Hosts(env, sa, p, c.rx, i, j) && min <= env.od[i].index <= max && min <= env.od[j].index <= max
    requires forall d | d in env.defaults :: d.index != env.od[i].index && d.index != env.od[j].index
    ensures var file := P.File(P.Records(env, sa, P.OdSlots(env.od, min, max)));
            var log := P.Reset(env, st, Some(file), min, max).log;
            && st.log <= log
            && var e := Run(c, q, AtInit(Accesses(log[|st.log|..], env.od[i].index, env.od[j].index)));
            && (forall sub: nat :: CommGet(e, sub) == CommGet(p, sub))
            && (forall sub: nat :: MapGet(e, sub) == MapGet(p, sub))
  {
    ResetReloads(env, st, sa, p, c.rx, i, j, min, max);
    ReloadRestores(c, p, q);
    hide OdOk, StoreOk, P.AllReadable, P.OdSlots, P.Records, P.File, P.Reset, Hosts, Accesses, Reload, AtInit, Run;
    hide Savable, Agrees, CommGet, MapGet;
    SameParameters(p, Run(c, q, Reload(c.rx, p)));
  }

  lemma SameParameters(p: Pdo, e: Pdo)
    requires e.cobid == p.cobid && e.transmission == p.transmission && e.inhibit == p.inhibit
    requires e.eventTimer == p.eventTimer && e.syncStart == p.syncStart && e.count == p.count
    requires forall i | 0 <= i < MAX_PDO_ENTRIES :: e.slots[i].mapping == p.slots[i].mapping
    ensures forall sub: nat :: CommGet(e, sub) == CommGet(p, sub)
    ensures forall sub: nat :: MapGet(e, sub) == MapGet(p, sub)
  {
  }
}
