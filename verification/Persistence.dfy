/** Saving the dictionary to a file, loading it back - possibly under another dictionary -
    and the three-layer reset (src/co_od.c). */
module Persistence {
  import opened Bytes
  import opened Dictionary

  datatype StoreId = Comm | App | Mfg

  /** `sizeof (size_t)` on the host. */
  const SIZE_T: nat := 8

  datatype Slot = Slot(obj: Obj, entry: Entry, subindex: nat)

  /** One saved value as it stands in a file. */
  datatype Rec = Rec(key: Key, data: Data)

  predicate Storable(e: Entry) {
    e.writable && !e.transient
  }

  // ----- what is saved

  /** The value at one subindex, if it is there and is saved. */
  function SlotAt(o: Obj, subindex: nat): (r: seq<Slot>)
    ensures |r| <= 1
  {
    match EntryFind(o, subindex)
    case None => []
    case Some(e) => if Storable(e) then [Slot(o, e, subindex)] else []
  }

  /** The saved values of one object, in order of subindex. */
  function ObjSlots(o: Obj, from: nat): (r: seq<Slot>)
    requires from <= o.maxSubindex + 1
    ensures |r| <= o.maxSubindex + 1 - from
    decreases o.maxSubindex + 1 - from
  {
    if from > o.maxSubindex then [] else SlotAt(o, from) + ObjSlots(o, from + 1)
  }

  function OdSlots(od: seq<Obj>, min: nat, max: nat): (r: seq<Slot>)
    ensures |r| <= 256 * |od|
  {
    if od == [] then []
    else
      (if min <= od[0].index <= max then ObjSlots(od[0], 0) else []) + OdSlots(od[1..], min, max)
  }

  ghost predicate StorableSlot(s: Slot) {
    ObjOk(s.obj) && EntryFind(s.obj, s.subindex) == Some(s.entry) && Storable(s.entry)
  }

  /** Exactly the storable subindexes from `from` on, each once. */
  lemma {:induction false} ObjSlotsSpec(o: Obj, from: nat)
    requires ObjOk(o) && from <= o.maxSubindex + 1
    ensures forall s :: s in ObjSlots(o, from) <==> s.obj == o && from <= s.subindex && StorableSlot(s)
    ensures forall i, j | 0 <= i < j < |ObjSlots(o, from)|
              :: ObjSlots(o, from)[i].subindex < ObjSlots(o, from)[j].subindex
    decreases o.maxSubindex + 1 - from
  {
    hide ObjOk, EntryFind;
    if from <= o.maxSubindex {
      ObjSlotsSpec(o, from + 1);
    }
    forall s: Slot | s.obj == o && StorableSlot(s)
      ensures s.subindex <= o.maxSubindex
    {
      EntryFindSpec(o, s.subindex);
    }
  }

  /** Exactly the storable values of the range, each once. */
  lemma {:induction false} OdSlotsSpec(od: seq<Obj>, min: nat, max: nat)
    requires forall o | o in od :: ObjOk(o)
    requires forall i, j | 0 <= i < j < |od| :: od[i].index != od[j].index
    ensures forall s :: s in OdSlots(od, min, max) <==> s.obj in od && min <= s.obj.index <= max && StorableSlot(s)
    ensures forall i, j | 0 <= i < j < |OdSlots(od, min, max)|
              :: SlotKey(OdSlots(od, min, max)[i]) != SlotKey(OdSlots(od, min, max)[j])
  {
    hide ObjOk, EntryFind, StorableSlot;
    if od != [] {
      OdSlotsSpec(od[1..], min, max);
      ObjSlotsSpec(od[0], 0);
      var a, b := ObjSlots(od[0], 0), OdSlots(od[1..], min, max);
      assert od == [od[0]] + od[1..];
      forall i, j | 0 <= i < j < |OdSlots(od, min, max)|
        ensures SlotKey(OdSlots(od, min, max)[i]) != SlotKey(OdSlots(od, min, max)[j])
      {
        if min <= od[0].index <= max && i < |a| <= j {
          assert a[i] in a && b[j - |a|] in b;
        }
      }
    }
  }

  function SlotKey(s: Slot): Key {
    Key(s.obj.index, s.subindex)
  }

  /** The bytes saved for a value: read through a pointer above 64 bits, as a value otherwise. */
  function Payload(env: Env, st: Store, s: Slot): (U32, Data) {
    var size := ByteLength(s.entry.bitlength);
    if size > 8 then
      if s.obj.access then (ABORT_GENERAL, []) else (0, Memory(st, SlotKey(s)))
    else
      var (abort, value) := GetValue(env, st, s.obj, s.entry, s.subindex);
      (abort, value[..size])
  }

  predicate AllReadable(env: Env, st: Store, slots: seq<Slot>) {
    forall i | 0 <= i < |slots| :: Payload(env, st, slots[i]).0 == 0
  }

  function Records(env: Env, st: Store, slots: seq<Slot>): (r: seq<Rec>)
    ensures |r| == |slots|
  {
    seq(|slots|, i requires 0 <= i < |slots| => Rec(SlotKey(slots[i]), Payload(env, st, slots[i]).1))
  }

  // ----- file format

  function EncodeHeader(k: Key, size: nat): Data {
    ToLe(k.index, 2) + [k.subindex % 256] + ToLe(size, SIZE_T)
  }

  function Encode(r: Rec): Data {
    EncodeHeader(r.key, |r.data|) + r.data
  }

  function EncodeAll(rs: seq<Rec>): Data {
    if rs == [] then [] else Encode(rs[0]) + EncodeAll(rs[1..])
  }

  function File(rs: seq<Rec>): Data {
    ToLe(|rs|, SIZE_T) + EncodeAll(rs)
  }

  /** What saving these values writes after the count. */
  function Emit(env: Env, st: Store, slots: seq<Slot>): Data {
    EncodeAll(Records(env, st, slots))
  }

  /** Fits the fields of the file format. */
  predicate RecOk(r: Rec) {
    r.key.index < 0x10000 && r.key.subindex < 0x100 && 1 <= |r.data| < 0x1_0000_0000_0000_0000
  }

  lemma {:induction false} EncodeAllAppend(a: seq<Rec>, b: seq<Rec>)
    ensures EncodeAll(a + b) == EncodeAll(a) + EncodeAll(b)
  {
    hide Encode;
    if a == [] {
      assert a + b == b;
    } else {
      EncodeAllAppend(a[1..], b);
      assert (a + b)[1..] == a[1..] + b;
      Assoc(Encode(a[0]), EncodeAll(a[1..]), EncodeAll(b));
    }
  }

  // ----- what is loaded

  /** The effect of one saved value on a dictionary: skip what it does not know or keep, set
      small values through their type, copy long ones of the same size, skip the rest. `None`
      is the one error: a long value belonging to an object with an access function. */
  function Apply(env: Env, st: Store, r: Rec): Option<Store>
  {
    match Find(env.od, r.key)
    case None => Some(st)
    case Some((o, e)) =>
      if !Storable(e) then Some(st)
      else if |r.data| <= 8 then
        Some(SetValue(env, st, o, e, r.key.subindex, Resize(r.data, 8)).1)
      else if |r.data| == ByteLength(e.bitlength) then
        if o.access then None else Some(st.(mem := st.mem[r.key := r.data]))
      else Some(st)
  }

  /** Parse and apply the record at the front of `rest`. */
  function LoadOne(env: Env, st: Store, rest: Data): Option<(Store, Data)>
  {
    if |rest| < 3 + SIZE_T then None
    else
      var key := Key(Le(rest[..2]), rest[2]);
      var size := Le(rest[3..3 + SIZE_T]);
      var body := rest[3 + SIZE_T..];
      if size == 0 || |body| < size then None
      else
        match Apply(env, st, Rec(key, body[..size]))
        case None => None
        case Some(st') => Some((st', body[size..]))
  }

  /** Whether all `n` records loaded, the resulting store and the unread part of the file. */
  function LoadAll(env: Env, st: Store, rest: Data, n: nat): (bool, Store, Data)
    decreases n
  {
    if n == 0 then (true, st, rest)
    else
      match LoadOne(env, st, rest)
      case None => (false, st, rest)
      case Some((st', rest')) => LoadAll(env, st', rest', n - 1)
  }

  function LoadFile(env: Env, st: Store, file: Data): (bool, Store, Data)
  {
    if |file| < SIZE_T then (false, st, file)
    else LoadAll(env, st, file[SIZE_T..], Le(file[..SIZE_T]))
  }

  lemma ApplyKeepsStore(env: Env, st: Store, r: Rec)
    requires OdOk(env.od) && StoreOk(env.od, st.mem)
    ensures Apply(env, st, r).Some? ==> StoreOk(env.od, Apply(env, st, r).value.mem)
  {
    hide ObjOk, OdOk, ObjFind, EntryFind, SetValue;
    match Find(env.od, r.key)
    case None =>
    case Some((o, e)) =>
      SetValueKeepsStore(env, st, o, e, r.key.subindex, Resize(r.data, 8));
  }

  // ----- reset

  /** The value described by `e` is cleared by a reset of its object. */
  function ZeroObj(o: Obj, mem: map<Key, Data>): map<Key, Data> {
    map k | k in mem ::
      if k.index == o.index && EntryFind(o, k.subindex).Some? && EntryFind(o, k.subindex).value.writable
      then Zeros(ByteLength(EntryFind(o, k.subindex).value.bitlength))
      else mem[k]
  }

  function InRange(o: Obj, min: nat, max: nat): bool {
    min <= o.index <= max
  }

  function ZeroMem(od: seq<Obj>, mem: map<Key, Data>, min: nat, max: nat): map<Key, Data>
    decreases |od|
  {
    if od == [] then mem
    else
      ZeroMem(od[1..], if InRange(od[0], min, max) && !od[0].access then ZeroObj(od[0], mem) else mem, min, max)
  }

  function RestoreEvents(od: seq<Obj>, min: nat, max: nat): seq<AccessEvent> {
    if od == [] then []
    else (if InRange(od[0], min, max) && od[0].access then [Restored(od[0].index)] else [])
         + RestoreEvents(od[1..], min, max)
  }

  function Zero(env: Env, st: Store, min: nat, max: nat): Store
  {
    st.(mem := ZeroMem(env.od, st.mem, min, max), log := st.log + RestoreEvents(env.od, min, max))
  }

  function SetDefault(env: Env, st: Store, d: Default, min: nat, max: nat): Store
  {
    if d.index < min || d.index > max then st
    else
      match Find(env.od, Key(d.index, d.subindex))
      case None => st
      case Some((o, e)) => SetValue(env, st, o, e, d.subindex, d.value).1
  }

  function SetDefaults(env: Env, st: Store, items: seq<Default>, min: nat, max: nat): Store
    decreases |items|
  {
    if items == [] then st
    else SetDefaults(env, SetDefault(env, st, items[0], min, max), items[1..], min, max)
  }

  /** Zero, then defaults, then the saved file, if it can be opened. */
  function Reset(env: Env, st: Store, file: Option<Data>, min: nat, max: nat): Store
  {
    var st' := SetDefaults(env, Zero(env, st, min, max), env.defaults, min, max);
    if file.Some? then LoadFile(env, st', file.value).1 else st'
  }

  /** The bytes written for a range of the dictionary: how many values, then each of them. */
  method WriteStream(env: Env, st: Store, min: nat, max: nat) returns (ok: bool, stream: Data)
    requires OdOk(env.od) && StoreOk(env.od, st.mem)
    ensures ok == AllReadable(env, st, OdSlots(env.od, min, max))
    ensures ok ==> stream == File(Records(env, st, OdSlots(env.od, min, max)))
  {
    var od := env.od;
    var entries := CountEntries(od, min, max);
    stream := ToLe(entries, SIZE_T);
    assert od[0..] == od;
    for i := 0 to |od|
      invariant AllReadable(env, st, OdSlots(od, min, max)) == AllReadable(env, st, OdSlots(od[i..], min, max))
      invariant stream + Emit(env, st, OdSlots(od[i..], min, max))
             == ToLe(entries, SIZE_T) + Emit(env, st, OdSlots(od, min, max))
    {
      EmitOd(env, st, i, min, max);
      hide OdOk, ObjOk, StoreOk, Emit, AllReadable, OdSlots, ObjSlots, Records, EncodeAll, ToLe;
      if od[i].index < min || od[i].index > max { continue; }
      var wrote, bytes := SaveObject(env, st, od[i]);
      Assoc(stream, bytes, Emit(env, st, OdSlots(od[i + 1..], min, max)));
      stream := stream + bytes;
      if !wrote {
        return false, stream;
      }
    }
    EmitNone(env, st, OdSlots(od[|od|..], min, max));
    return true, stream;
  }

  /** `rest` is what is left of `all` after `written`. */
  ghost predicate Continues(written: Data, rest: Data, all: Data) {
    written + rest == all
  }

  lemma Continue(written: Data, more: Data, rest: Data, all: Data)
    ensures Continues(written, more + rest, all) ==> Continues(written + more, rest, all)
    ensures Continues([], all, all)
  {
    Assoc(written, more, rest);
  }

  lemma Complete(written: Data, all: Data)
    requires Continues(written, [], all)
    ensures written == all
  {
  }

  /** Write every storable subindex of one object, stopping at the first that cannot be read. */
  method SaveObject(env: Env, st: Store, o: Obj) returns (ok: bool, bytes: Data)
    requires OdOk(env.od) && StoreOk(env.od, st.mem) && o in env.od
    ensures ok == AllReadable(env, st, ObjSlots(o, 0))
    ensures ok ==> bytes == Emit(env, st, ObjSlots(o, 0))
  {
    hide OdOk, ObjOk, StoreOk, Emit, AllReadable, ObjSlots, Continues;
    bytes := [];
    Continue([], [], Emit(env, st, ObjSlots(o, 0)), Emit(env, st, ObjSlots(o, 0)));
    for sub := 0 to o.maxSubindex + 1
      invariant AllReadable(env, st, ObjSlots(o, 0)) == AllReadable(env, st, ObjSlots(o, sub))
      invariant Continues(bytes, Emit(env, st, ObjSlots(o, sub)), Emit(env, st, ObjSlots(o, 0)))
    {
      var wrote, more := SaveSubindex(env, st, o, sub);
      if wrote {
        Continue(bytes, more, Emit(env, st, ObjSlots(o, sub + 1)), Emit(env, st, ObjSlots(o, 0)));
      }
      bytes := bytes + more;
      if !wrote {
        return false, bytes;
      }
    }
    EmitNone(env, st, ObjSlots(o, o.maxSubindex + 1));
    Complete(bytes, Emit(env, st, ObjSlots(o, 0)));
    return true, bytes;
  }

  method SaveSubindex(env: Env, st: Store, o: Obj, sub: Byte) returns (ok: bool, bytes: Data)
    requires OdOk(env.od) && StoreOk(env.od, st.mem) && o in env.od && sub <= o.maxSubindex
    ensures AllReadable(env, st, ObjSlots(o, sub)) == (ok && AllReadable(env, st, ObjSlots(o, sub + 1)))
    ensures ok ==> Emit(env, st, ObjSlots(o, sub)) == bytes + Emit(env, st, ObjSlots(o, sub + 1))
  {
    ObjFindMember(env.od, o);
    EmitObj(env, st, o, sub);
    var entry := LookupEntry(o, sub);
    hide OdOk, ObjOk, StoreOk, Emit, AllReadable, ObjSlots, EntryFind, Payload;
    if entry.Some? && entry.value.writable && !entry.value.transient {
      ok, bytes := SaveEntry(env, st, o, entry.value, sub);
    } else {
      return true, [];
    }
  }

  /** First pass of saving: how many values there are to write. */
  method CountEntries(od: seq<Obj>, min: nat, max: nat) returns (entries: nat)
    requires OdOk(od)
    ensures entries == |OdSlots(od, min, max)|
  {
    entries := 0;
    for i := 0 to |od|
      invariant entries + |OdSlots(od[i..], min, max)| == |OdSlots(od, min, max)|
    {
      assert od[i..][0] == od[i] && od[i..][1..] == od[i + 1..];
      if od[i].index < min || od[i].index > max { continue; }
      hide ObjOk, ObjSlots;
      var here := CountObject(od[i]);
      entries := entries + here;
    }
  }

  lemma SlotsFrom(o: Obj, sub: nat)
    requires sub <= o.maxSubindex + 1
    ensures |ObjSlots(o, sub)|
         == if sub > o.maxSubindex then 0 else |SlotAt(o, sub)| + |ObjSlots(o, sub + 1)|
  {
    hide EntryFind;
  }

  method CountObject(o: Obj) returns (entries: nat)
    requires ObjOk(o)
    ensures entries == |ObjSlots(o, 0)|
  {
    hide ObjOk, EntryFind, ObjSlots;
    SlotsFrom(o, o.maxSubindex + 1);
    entries := 0;
    for sub := 0 to o.maxSubindex + 1
      invariant entries + |ObjSlots(o, sub)| == |ObjSlots(o, 0)|
    {
      SlotsFrom(o, sub);
      var entry := LookupEntry(o, sub);
      if entry.Some? && entry.value.writable && !entry.value.transient {
        entries := entries + 1;
      }
    }
  }

  /** The bytes written for one value; only its header when the value cannot be read. */
  method SaveEntry(env: Env, st: Store, o: Obj, e: Entry, subindex: Byte) returns (ok: bool, bytes: Data)
    requires OdOk(env.od) && StoreOk(env.od, st.mem)
    requires Find(env.od, Key(o.index, subindex)) == Some((o, e))
    ensures var (abort, data) := Payload(env, st, Slot(o, e, subindex));
            ok == (abort == 0) && (ok ==> bytes == Encode(Rec(Key(o.index, subindex), data)))
  {
    var size := ByteLength(e.bitlength);
    bytes := ToLe(o.index, 2);
    bytes := bytes + [subindex];
    bytes := bytes + ToLe(size, SIZE_T);
    if size > 8 {
      if o.access {
        return false, bytes;
      }
      bytes := bytes + Memory(st, Key(o.index, subindex));
    } else {
      var (abort, value) := GetValue(env, st, o, e, subindex);
      if abort != 0 {
        return false, bytes;
      }
      bytes := bytes + value[..size];
    }
    return true, bytes;
  }

  lemma EventsAssoc(a: seq<AccessEvent>, b: seq<AccessEvent>, c: seq<AccessEvent>)
    ensures (a + b) + c == a + (b + c)
  {
  }

  lemma ObjectStored(od: seq<Obj>, mem: map<Key, Data>, o: Obj)
    requires OdOk(od) && StoreOk(od, mem) && o in od
    ensures forall sub | EntryFind(o, sub).Some? :: Key(o.index, sub) in mem
    ensures StoreOk(od, ZeroObj(o, mem))
  {
    ObjFindMember(od, o);
    hide OdOk, ObjOk, ObjFind, EntryFind;
  }

  lemma ZeroNone(mem: map<Key, Data>, min: nat, max: nat)
    ensures ZeroMem([], mem, min, max) == mem && RestoreEvents([], min, max) == []
  {
  }

  lemma ZeroNext(od: seq<Obj>, i: nat, mem: map<Key, Data>, log: seq<AccessEvent>, min: nat, max: nat)
    requires i < |od|
    ensures var o := od[i];
            && ZeroMem(od[i..], mem, min, max)
            == ZeroMem(od[i + 1..], if InRange(o, min, max) && !o.access then ZeroObj(o, mem) else mem, min, max)
            && log + RestoreEvents(od[i..], min, max)
            == (if InRange(o, min, max) && o.access then log + [Restored(o.index)] else log)
               + RestoreEvents(od[i + 1..], min, max)
  {
    hide ZeroObj;
    assert od[i..][0] == od[i] && od[i..][1..] == od[i + 1..];
    EventsAssoc(log, [Restored(od[i].index)], RestoreEvents(od[i + 1..], min, max));
  }

  /** Clear the writable entries of one object: an array in one go, otherwise entry by entry
      up to the one numbered `maxSubindex`. */
  method ZeroObject(o: Obj, mem: map<Key, Data>) returns (cleared: map<Key, Data>)
    requires ObjOk(o)
    requires forall sub | EntryFind(o, sub).Some? :: Key(o.index, sub) in mem
    ensures cleared == ZeroObj(o, mem)
  {
    hide ObjOk, EntryFind, ZeroObj, ClearedBefore, ClearedBy;
    cleared := mem;
    NothingClearedYet(o, mem);
    var i := 0;
    while true
      invariant 0 <= i < |o.entries|
      invariant cleared.Keys == mem.Keys
      invariant forall k | k in mem :: cleared[k] == if ClearedBefore(o, i, k) then ZeroObj(o, mem)[k] else mem[k]
      decreases |o.entries| - i
    {
      var e := o.entries[i];
      ghost var before := cleared;
      if e.writable {
        var size := ByteLength(e.bitlength);
        cleared := map k | k in cleared :: if ClearedBy(o, e, k) then Zeros(size) else cleared[k];
      }
      forall k | k in mem
        ensures cleared[k] == if ClearedBefore(o, i + 1, k) then ZeroObj(o, mem)[k] else mem[k]
      {
        ClearStep(o, i, mem, before, cleared, k);
      }
      EntryAt(o, i);
      i := i + 1;
      if e.isArray { break; }
      if e.subindex >= o.maxSubindex { break; }
    }
    AllCleared(o, mem, cleared);
  }

  lemma AllCleared(o: Obj, mem: map<Key, Data>, cleared: map<Key, Data>)
    requires ObjOk(o) && cleared.Keys == mem.Keys
    requires forall k | k in mem ::
        cleared[k] == if ClearedBefore(o, |o.entries|, k) then ZeroObj(o, mem)[k] else mem[k]
    ensures cleared == ZeroObj(o, mem)
  {
    var target := ZeroObj(o, mem);
    forall k | k in mem
      ensures cleared[k] == target[k]
    {
      if k.index == o.index && EntryFind(o, k.subindex).Some? {
        CoveredByEntry(o, k);
      }
    }
    assert target.Keys == mem.Keys;
  }

  lemma NothingClearedYet(o: Obj, mem: map<Key, Data>)
    requires ObjOk(o)
    ensures |o.entries| >= 1 && ZeroObj(o, mem).Keys == mem.Keys
    ensures forall k :: !ClearedBefore(o, 0, k)
  {
  }

  predicate ClearedBefore(o: Obj, n: nat, k: Key)
    requires n <= |o.entries|
  {
    exists j | 0 <= j < n :: ClearedBy(o, o.entries[j], k)
  }

  lemma ClearStep(o: Obj, i: nat, mem: map<Key, Data>, before: map<Key, Data>, after: map<Key, Data>, k: Key)
    requires ObjOk(o) && i < |o.entries| && k in mem && k in before && k in after
    requires before[k] == if ClearedBefore(o, i, k) then ZeroObj(o, mem)[k] else mem[k]
    requires var e := o.entries[i];
             after[k] == if e.writable && ClearedBy(o, e, k) then Zeros(ByteLength(e.bitlength)) else before[k]
    ensures after[k] == if ClearedBefore(o, i + 1, k) then ZeroObj(o, mem)[k] else mem[k]
  {
    EntryAt(o, i);
    hide ObjOk, EntryFind;
    if ClearedBy(o, o.entries[i], k) {
      assert EntryFind(o, k.subindex) == Some(o.entries[i]);
      if ClearedBefore(o, i, k) {
        var j :| 0 <= j < i && ClearedBy(o, o.entries[j], k);
        EntryAt(o, j);
      }
    }
  }

  /** The memory an entry describes: its own value, or every member of an array. */
  predicate ClearedBy(o: Obj, e: Entry, k: Key) {
    k.index == o.index && if e.isArray then 1 <= k.subindex <= o.maxSubindex else k.subindex == e.subindex
  }

  lemma EntryAt(o: Obj, i: nat)
    requires ObjOk(o) && i < |o.entries|
    ensures forall k | ClearedBy(o, o.entries[i], k) :: EntryFind(o, k.subindex) == Some(o.entries[i])
    ensures o.entries[i].subindex >= o.maxSubindex || o.entries[i].isArray <==> i == |o.entries| - 1
  {
    forall k | ClearedBy(o, o.entries[i], k)
      ensures EntryFind(o, k.subindex) == Some(o.entries[i])
    {
      EntryFindSpec(o, k.subindex);
    }
  }

  lemma CoveredByEntry(o: Obj, k: Key)
    requires ObjOk(o) && k.index == o.index && EntryFind(o, k.subindex).Some?
    ensures exists j | 0 <= j < |o.entries| :: ClearedBy(o, o.entries[j], k)
  {
    EntryFindSpec(o, k.subindex);
    var j :| 0 <= j < |o.entries| && o.entries[j] == EntryFind(o, k.subindex).value;
    assert ClearedBy(o, o.entries[j], k);
  }

  /** A dictionary together with the files it is saved in. */
  class PersistentDictionary {
    const dict: ObjectDictionary
    /** Whether the application supplied functions to open, read, write and close files. */
    const configured: bool
    var files: map<StoreId, Data>

    constructor (dict: ObjectDictionary, configured: bool)
      ensures this.dict == dict && this.configured == configured && files == map[]
    {
      this.dict := dict;
      this.configured := configured;
      files := map[];
    }

    ghost predicate Valid()
      reads this, dict
    {
      dict.Valid()
    }

    function OpenForRead(id: StoreId): Option<Data>
      reads this
    {
      if configured && id in files then Some(files[id]) else None
    }

    method Save(id: StoreId, min: nat, max: nat) returns (abort: U32)
      requires Valid()
      modifies this
      ensures Valid() && forall other | other != id :: other in files <==> other in old(files)
      ensures forall other | other != id && other in files :: files[other] == old(files)[other]
      ensures abort == 0 <==> configured && AllReadable(dict.env, dict.St(), OdSlots(dict.env.od, min, max))
      ensures abort == 0 ==> id in files
                             && files[id] == File(Records(dict.env, dict.St(), OdSlots(dict.env.od, min, max)))
      ensures abort == 0 || abort == 0x0606_0000
    {
      if !configured {
        return ABORT_HW_ERROR;
      }
      var ok, stream := WriteStream(dict.env, dict.St(), min, max);
      files := files[id := stream];
      return if ok then 0 else ABORT_HW_ERROR;
    }

    method Load(id: StoreId) returns (abort: U32)
      requires Valid()
      modifies dict
      ensures Valid()
      ensures var file := OpenForRead(id);
              if file.None? then abort == 0x0800_0000 && dict.St() == old(dict.St())
              else
                var (ok, st, _) := LoadFile(dict.env, old(dict.St()), file.value);
                dict.St() == st && abort == if ok then 0 else 0x0800_0000
    {
      var file := OpenForRead(id);
      if file.None? || |file.value| < SIZE_T {
        return ABORT_GENERAL;
      }
      var entries := Le(file.value[..SIZE_T]);
      var rest := file.value[SIZE_T..];
      while entries > 0
        invariant Valid()
        invariant LoadAll(dict.env, dict.St(), rest, entries) == LoadFile(dict.env, old(dict.St()), file.value)
      {
        var next := LoadRecord(rest);
        if next.None? { return ABORT_GENERAL; }
        rest := next.value;
        entries := entries - 1;
      }
      return 0;
    }

    /** co_od_zero: tell access functions to restore, clear the storage of everything else. */
    method ZeroRange(min: nat, max: nat)
      requires Valid()
      modifies dict
      ensures Valid() && dict.St() == Zero(dict.env, old(dict.St()), min, max)
    {
      hide OdOk, StoreOk, ObjOk, ZeroMem, ZeroObj, RestoreEvents;
      ghost var od := dict.env.od;
      assert od[..] == od && od[|od|..] == [];
      for i := 0 to |dict.env.od|
        invariant Valid() && dict.notified == old(dict.notified)
        invariant ZeroMem(od[i..], dict.mem, min, max) == ZeroMem(od, old(dict.mem), min, max)
        invariant dict.log + RestoreEvents(od[i..], min, max) == old(dict.log) + RestoreEvents(od, min, max)
      {
        ZeroNext(od, i, dict.mem, dict.log, min, max);
        if dict.env.od[i].index < min || dict.env.od[i].index > max { continue; }
        ClearOne(dict.env.od[i]);
      }
      ZeroNone(dict.mem, min, max);
      assert dict.log + [] == dict.log;
    }

    /** Tell the access function of one object, or clear its storage. */
    method ClearOne(o: Obj)
      requires Valid() && o in dict.env.od
      modifies dict`mem, dict`log
      ensures Valid()
      ensures dict.mem == if o.access then old(dict.mem) else ZeroObj(o, old(dict.mem))
      ensures dict.log == if o.access then old(dict.log) + [Restored(o.index)] else old(dict.log)
    {
      if o.access {
        dict.log := dict.log + [Restored(o.index)];
      } else {
        ObjectStored(dict.env.od, dict.mem, o);
        hide OdOk, StoreOk, ZeroObj, ObjOk;
        var cleared := ZeroObject(o, dict.mem);
        dict.mem := cleared;
      }
    }

    /** co_od_set_defaults: the default values of the range, in order. */
    method SetDefaultsRange(min: nat, max: nat)
      requires Valid()
      modifies dict
      ensures Valid() && dict.St() == SetDefaults(dict.env, old(dict.St()), dict.env.defaults, min, max)
    {
      var items := dict.env.defaults;
      for i := 0 to |items|
        invariant Valid()
        invariant SetDefaults(dict.env, dict.St(), items[i..], min, max)
               == SetDefaults(dict.env, old(dict.St()), items, min, max)
      {
        assert items[i..][0] == items[i] && items[i..][1..] == items[i + 1..];
        var item := items[i];
        if item.index < min || item.index > max { continue; }
        var obj := LookupObj(dict.env.od, item.index);
        if obj.None? { continue; }
        var entry := LookupEntry(obj.value, item.subindex);
        if entry.None? { continue; }
        var _ := dict.Set(obj.value, entry.value, item.subindex, item.value);
      }
    }

    method ResetRange(id: StoreId, min: nat, max: nat)
      requires Valid()
      modifies dict
      ensures Valid() && dict.St() == Reset(dict.env, old(dict.St()), OpenForRead(id), min, max)
    {
      ZeroRange(min, max);
      SetDefaultsRange(min, max);
      var _ := Load(id);
    }

    /** One round of the loading loop: the unread part of the file, or `None` on error. */
    method LoadRecord(file: Data) returns (r: Option<Data>)
      requires Valid()
      modifies dict
      ensures Valid()
      ensures var one := LoadOne(dict.env, old(dict.St()), file);
              if one.None? then r.None? && dict.St() == old(dict.St())
              else r.Some? && one.value == (dict.St(), r.value)
    {
      hide OdOk, ObjOk, StoreOk, SetValue, Resize, ByteLength, Le;
      var rest := file;
      if |rest| < 2 { return None; }
      var index := Le(rest[..2]);
      if |rest| < 3 { return None; }
      var subindex := rest[2];
      if |rest| < 3 + SIZE_T { return None; }
      var size := Le(rest[3..3 + SIZE_T]);
      if size == 0 { return None; }
      rest := rest[3 + SIZE_T..];

      var obj := LookupObj(dict.env.od, index);
      if obj.None? {
        r := Discard(rest, size);
        return;
      }
      MemberOk(dict.env.od, obj.value);
      var entry := LookupEntry(obj.value, subindex);
      if entry.None? || !entry.value.writable || entry.value.transient {
        r := Discard(rest, size);
        return;
      }
      if size <= 8 {
        if |rest| < size { return None; }
        var _ := dict.Set(obj.value, entry.value, subindex, Resize(rest[..size], 8));
        return Some(rest[size..]);
      } else if size == ByteLength(entry.value.bitlength) {
        if obj.value.access { return None; }
        if |rest| < size { return None; }
        ApplyKeepsStore(dict.env, dict.St(), Rec(Key(index, subindex), rest[..size]));
        dict.mem := dict.mem[Key(index, subindex) := rest[..size]];
        return Some(rest[size..]);
      }
      r := Discard(rest, size);
    }

    /** Read past `size` bytes, eight at a time. */
    method Discard(data: Data, size: nat) returns (r: Option<Data>)
      requires size > 0
      ensures r == if |data| < size then None else Some(data[size..])
    {
      var rest, left := data, size;
      while left > 8
        invariant 0 < left <= size && size - left <= |data|
        invariant rest == data[size - left..]
      {
        if |rest| < 8 { return None; }
        rest := rest[8..];
        left := left - 8;
      }
      return if |rest| < left then None else Some(rest[left..]);
    }
  }

  lemma EmitAppend(env: Env, st: Store, a: seq<Slot>, b: seq<Slot>)
    ensures Emit(env, st, a + b) == Emit(env, st, a) + Emit(env, st, b)
    ensures AllReadable(env, st, a + b) == (AllReadable(env, st, a) && AllReadable(env, st, b))
  {
    hide Payload;
    EncodeAllAppend(Records(env, st, a), Records(env, st, b));
    assert Records(env, st, a + b) == Records(env, st, a) + Records(env, st, b);
    if AllReadable(env, st, a + b) {
      assert forall i | 0 <= i < |a| :: a[i] == (a + b)[i];
      assert forall i | 0 <= i < |b| :: b[i] == (a + b)[|a| + i];
    }
  }

  lemma EmitNone(env: Env, st: Store, slots: seq<Slot>)
    requires slots == []
    ensures Emit(env, st, slots) == [] && AllReadable(env, st, slots)
  {
  }

  lemma EmitObj(env: Env, st: Store, o: Obj, sub: nat)
    requires sub <= o.maxSubindex
    ensures var here, rest := SlotAt(o, sub), ObjSlots(o, sub + 1);
            if here == [] then ObjSlots(o, sub) == rest
            else
              && Emit(env, st, ObjSlots(o, sub))
                 == Encode(Rec(Key(o.index, sub), Payload(env, st, here[0]).1)) + Emit(env, st, rest)
              && AllReadable(env, st, ObjSlots(o, sub))
                 == (Payload(env, st, here[0]).0 == 0 && AllReadable(env, st, rest))
  {
    hide Payload, EntryFind, Encode;
    var here := SlotAt(o, sub);
    EmitAppend(env, st, here, ObjSlots(o, sub + 1));
    if here != [] {
      assert EncodeAll(Records(env, st, here)[1..]) == [];
    }
  }

  lemma {:induction false} EmitOd(env: Env, st: Store, i: nat, min: nat, max: nat)
    requires i < |env.od|
    ensures var o, rest := env.od[i], OdSlots(env.od[i + 1..], min, max);
            var all := OdSlots(env.od[i..], min, max);
            if min <= o.index <= max then
              && Emit(env, st, all) == Emit(env, st, ObjSlots(o, 0)) + Emit(env, st, rest)
              && AllReadable(env, st, all) == (AllReadable(env, st, ObjSlots(o, 0)) && AllReadable(env, st, rest))
            else all == rest
  {
    hide Emit, AllReadable;
    assert env.od[i..][1..] == env.od[i + 1..];
    EmitAppend(env, st, ObjSlots(env.od[i], 0), OdSlots(env.od[i + 1..], min, max));
  }
}
