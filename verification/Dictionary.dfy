/** The object dictionary: descriptors, look-up, and atomic access to values (src/co_od.c). */
module Dictionary {
  import opened Bytes

  datatype Option<+T> = None | Some(value: T)

  datatype ObjType = NullObj | Domain | DefType | DefStruct | Var | Array | Record

  datatype DataType =
    | Boolean | Integer8 | Integer16 | Integer32 | Unsigned8 | Unsigned16 | Unsigned32
    | Real32 | VisibleString | OctetString | UnicodeString | Real64 | Integer64 | Unsigned64

  datatype Entry = Entry(
    subindex: Byte,
    readable: bool, writable: bool, transient: bool,
    tpdo: bool, rpdo: bool, isArray: bool, notify: bool,
    datatyp: DataType,
    bitlength: nat)

  datatype Obj = Obj(index: nat, objtype: ObjType, maxSubindex: Byte, entries: seq<Entry>, access: bool)

  /** One addressable value of the dictionary. */
  datatype Key = Key(index: nat, subindex: nat)

  datatype Default = Default(index: nat, subindex: Byte, value: U64)

  /** What an access function has been told so far. A deterministic access function is a
      function of this history, which is how an arbitrary one is modelled. */
  datatype AccessEvent = Written(index: nat, subindex: nat, value: nat) | Restored(index: nat)

  /** The fixed part of a node: descriptors, access functions, default values, and the eight
      bytes that happen to follow any string in memory (a string shorter than 64 bits is read
      past its end). An access function returns an SDO abort code, zero for success. */
  datatype Env = Env(
    od: seq<Obj>,
    read: (seq<AccessEvent>, nat, nat) -> (U32, U32),
    write: (seq<AccessEvent>, nat, nat, nat) -> U32,
    beyond: U64,
    defaults: seq<Default>)

  /** The mutable part: storage of each value, history of the access functions, and the
      notification callbacks made. */
  datatype Store = Store(mem: map<Key, Data>, log: seq<AccessEvent>, notified: seq<Key>)

  const ABORT_TOGGLE: U32 := 0x05030000
  const ABORT_TIMEOUT: U32 := 0x05040000
  const ABORT_UNKNOWN: U32 := 0x05040001
  const ABORT_ACCESS: U32 := 0x06010000
  const ABORT_ACCESS_WO: U32 := 0x06010001
  const ABORT_ACCESS_RO: U32 := 0x06010002
  const ABORT_BAD_INDEX: U32 := 0x06020000
  const ABORT_UNMAPPABLE: U32 := 0x06040041
  const ABORT_PDO_LENGTH: U32 := 0x06040042
  const ABORT_HW_ERROR: U32 := 0x06060000
  const ABORT_LENGTH: U32 := 0x06070010
  const ABORT_BAD_SUBINDEX: U32 := 0x06090011
  const ABORT_VALUE: U32 := 0x06090030
  const ABORT_GENERAL: U32 := 0x08000000

  function ByteLength(bitlength: nat): nat {
    (bitlength + 7) / 8
  }

  /** Bytes written by a store of this type; 0 for the strings, which cannot be set as values. */
  function Width(t: DataType): nat {
    match t
    case Boolean | Integer8 | Unsigned8 => 1
    case Integer16 | Unsigned16 => 2
    case Integer32 | Unsigned32 | Real32 => 4
    case Real64 | Integer64 | Unsigned64 => 8
    case VisibleString | OctetString | UnicodeString => 0
  }

  function TypeCode(t: DataType): Byte {
    match t
    case Boolean => 0x01 case Integer8 => 0x02 case Integer16 => 0x03 case Integer32 => 0x04
    case Unsigned8 => 0x05 case Unsigned16 => 0x06 case Unsigned32 => 0x07 case Real32 => 0x08
    case VisibleString => 0x09 case OctetString => 0x0A case UnicodeString => 0x0B
    case Real64 => 0x11 case Integer64 => 0x15 case Unsigned64 => 0x1B
  }

  function ObjCode(t: ObjType): Byte {
    match t
    case NullObj => 0 case Domain => 2 case DefType => 5 case DefStruct => 6
    case Var => 7 case Array => 8 case Record => 9
  }

  // ----- well-formed dictionaries

  predicate IsArrayObj(o: Obj) {
    o.objtype in {Array, Record} && |o.entries| >= 2 && o.entries[1].isArray
  }

  predicate EntryOk(e: Entry) {
    && 1 <= e.bitlength < 0x8000_0000_0000_0000
    && (Width(e.datatyp) != 0 ==> ByteLength(e.bitlength) == Width(e.datatyp))
  }

  /** Entries ascend from subindex 0 to `maxSubindex`, unless one array entry stands for all
      of 1..maxSubindex. */
  predicate ObjOk(o: Obj) {
    && 1 <= o.index < 0x10000
    && o.maxSubindex < 255
    && |o.entries| >= 1
    && o.entries[0].subindex == 0
    && !o.entries[0].isArray
    && (forall i | 0 <= i < |o.entries| :: EntryOk(o.entries[i]))
    && (o.objtype == Var ==> |o.entries| == 1)
    && (o.objtype in {Array, Record} ==> |o.entries| >= 2)
    && if IsArrayObj(o) then
         |o.entries| == 2 && o.maxSubindex >= 1
       else
         && (forall i, j | 0 <= i < j < |o.entries| :: o.entries[i].subindex < o.entries[j].subindex)
         && o.entries[|o.entries| - 1].subindex == o.maxSubindex
         && (forall i | 0 <= i < |o.entries| :: !o.entries[i].isArray)
  }

  predicate OdOk(od: seq<Obj>) {
    && |od| < 0x10000
    && (forall i | 0 <= i < |od| :: ObjOk(od[i]))
    && (forall i, j | 0 <= i < j < |od| :: od[i].index != od[j].index)
  }

  /** Access functions pass 32-bit values: no object has both an access function and an entry
      longer than 64 bits. */
  predicate NoLongAccess(od: seq<Obj>) {
    forall o | o in od && o.access :: forall e | e in o.entries :: e.bitlength <= 64
  }

  // ----- look-up

  /** The object with this index, if there is one. */
  function ObjFind(od: seq<Obj>, index: nat): (r: Option<Obj>)
    ensures r.Some? ==> r.value in od && r.value.index == index
    ensures r.None? ==> forall o | o in od :: o.index != index
  {
    if od == [] then None
    else if od[0].index == index then Some(od[0])
    else ObjFind(od[1..], index)
  }

  function Search(entries: seq<Entry>, subindex: nat): (r: Option<Entry>)
    ensures r.Some? ==> r.value in entries && r.value.subindex == subindex
    ensures r.None? ==> forall e | e in entries :: e.subindex != subindex
  {
    if entries == [] then None
    else if entries[0].subindex == subindex then Some(entries[0])
    else Search(entries[1..], subindex)
  }

  /** The entry describing this subindex: the one with that number, or the array entry that
      covers it. */
  function EntryFind(o: Obj, subindex: nat): Option<Entry> {
    if IsArrayObj(o) then
      if subindex == 0 then Some(o.entries[0])
      else if subindex <= o.maxSubindex then Some(o.entries[1]) else None
    else
      Search(o.entries, subindex)
  }

  function Find(od: seq<Obj>, k: Key): Option<(Obj, Entry)> {
    match ObjFind(od, k.index)
    case None => None
    case Some(o) =>
      match EntryFind(o, k.subindex)
      case None => None
      case Some(e) => Some((o, e))
  }

  /** What a well-formed object answers: subindex 0 always exists, nothing lies beyond
      `maxSubindex`, and the entry found is one of the object's own. */
  lemma EntryFindSpec(o: Obj, subindex: nat)
    requires ObjOk(o)
    ensures var r := EntryFind(o, subindex);
            && (subindex == 0 ==> r.Some?)
            && (r.Some? ==> r.value in o.entries && EntryOk(r.value) && subindex <= o.maxSubindex)
            && (r.Some? && !r.value.isArray ==> r.value.subindex == subindex)
            && (r.None? && !IsArrayObj(o) ==> forall e | e in o.entries :: e.subindex != subindex)
            && (IsArrayObj(o) ==> r == if subindex == 0 then Some(o.entries[0])
                                       else if subindex <= o.maxSubindex then Some(o.entries[1]) else None)
  {
    if IsArrayObj(o) {
    } else if EntryFind(o, subindex).Some? {
      var i :| 0 <= i < |o.entries| && o.entries[i] == EntryFind(o, subindex).value;
    }
  }

  lemma FindSpec(od: seq<Obj>, k: Key)
    requires OdOk(od) && Find(od, k).Some?
    ensures var (o, e) := Find(od, k).value;
            && o in od && o.index == k.index && ObjOk(o)
            && EntryFind(o, k.subindex) == Some(e) && EntryOk(e) && k.subindex <= o.maxSubindex
  {
    EntryFindSpec(Find(od, k).value.0, k.subindex);
  }

  lemma MemberOk(od: seq<Obj>, o: Obj)
    requires OdOk(od) && o in od
    ensures ObjOk(o)
  {
  }

  lemma {:induction false} ObjFindMember(od: seq<Obj>, o: Obj)
    requires OdOk(od) && o in od
    ensures ObjFind(od, o.index) == Some(o)
  {
    var i :| 0 <= i < |od| && od[i] == o;
    if od[0].index == o.index {
    } else {
      assert i > 0 && od[1..][i - 1] == o;
      ObjFindMember(od[1..], o);
    }
  }

  /** Storage holds exactly the bytes of every value the dictionary describes. */
  ghost predicate StoreOk(od: seq<Obj>, mem: map<Key, Data>) {
    forall k | Find(od, k).Some? :: k in mem && |mem[k]| == ByteLength(Find(od, k).value.1.bitlength)
  }

  // ----- values

  /** The bytes of a value; every key of a well-formed dictionary has some (`StoreOk`). */
  function Memory(st: Store, k: Key): Data {
    if k in st.mem then st.mem[k] else []
  }

  /** co_od_get_value: the abort code and the 64-bit value. An entry is read where its descriptor
      says, at `at`, which need not be what looking `subindex` up would give. */
  function GetAt(env: Env, st: Store, o: Obj, e: Entry, subindex: nat, at: Key): (U32, U64) {
    var (abort, v) := env.read(st.log, o.index, subindex);
    if o.access && !(subindex == 0 && abort == ABORT_BAD_SUBINDEX) then
      (abort, Resize(ToLe(v, 4), 8))
    else
      var data := Memory(st, at);
      (0, if Width(e.datatyp) != 0 then Resize(data, 8) else (data + env.beyond)[..8])
  }

  /** Reading an entry under the subindex it was found by. */
  function GetValue(env: Env, st: Store, o: Obj, e: Entry, subindex: nat): (U32, U64) {
    GetAt(env, st, o, e, subindex, Key(o.index, subindex))
  }

  function Notify(st: Store, o: Obj, e: Entry, subindex: nat): Store {
    if e.notify then st.(notified := st.notified + [Key(o.index, subindex)]) else st
  }

  /** co_od_set_value: the abort code and the resulting store. */
  function SetAt(env: Env, st: Store, o: Obj, e: Entry, subindex: nat, at: Key, value: U64): (U32, Store) {
    if o.access then
      var v := Le(value[..4]);
      var abort := env.write(st.log, o.index, subindex, v);
      (abort, Notify(st.(log := st.log + [Written(o.index, subindex, v)]), o, e, subindex))
    else if Width(e.datatyp) != 0 then
      (0, Notify(st.(mem := st.mem[at := value[..Width(e.datatyp)]]), o, e, subindex))
    else
      (ABORT_GENERAL, st)
  }

  /** Setting an entry under the subindex it was found by. */
  function SetValue(env: Env, st: Store, o: Obj, e: Entry, subindex: nat, value: U64): (U32, Store) {
    SetAt(env, st, o, e, subindex, Key(o.index, subindex), value)
  }

  lemma SetAtKeepsStore(env: Env, st: Store, o: Obj, e: Entry, subindex: nat, at: Key, value: U64)
    requires OdOk(env.od) && StoreOk(env.od, st.mem) && Find(env.od, at) == Some((o, e))
    ensures StoreOk(env.od, SetAt(env, st, o, e, subindex, at, value).1.mem)
  {
    FindSpec(env.od, at);
    hide OdOk, Find;
  }

  lemma SetValueKeepsStore(env: Env, st: Store, o: Obj, e: Entry, subindex: nat, value: U64)
    requires OdOk(env.od) && StoreOk(env.od, st.mem)
    requires Find(env.od, Key(o.index, subindex)) == Some((o, e))
    ensures StoreOk(env.od, SetValue(env, st, o, e, subindex, value).1.mem)
  {
    hide OdOk, StoreOk, Find, SetAt;
    SetAtKeepsStore(env, st, o, e, subindex, Key(o.index, subindex), value);
  }

  /** Walk the table until it ends or the index is found. */
  method LookupObj(od: seq<Obj>, index: nat) returns (r: Option<Obj>)
    ensures r == ObjFind(od, index)
  {
    var i := 0;
    while i < |od| && od[i].index != index
      invariant i <= |od|
      invariant ObjFind(od, index) == ObjFind(od[i..], index)
    {
      assert od[i..][1..] == od[i + 1..];
      i := i + 1;
    }
    if i < |od| {
      return Some(od[i]);
    }
    return None;
  }

  /** Subindex 0 and array members directly; otherwise traverse the entries up to the one
      numbered `maxSubindex`. */
  method LookupEntry(o: Obj, subindex: nat) returns (r: Option<Entry>)
    requires ObjOk(o)
    ensures r == EntryFind(o, subindex)
  {
    if subindex == 0 {
      return Some(o.entries[0]);
    }
    if o.objtype == Var {
      assert Search(o.entries[1..], subindex) == None;
      return None;
    }
    if o.objtype == Array || o.objtype == Record {
      if o.entries[1].isArray {
        return if subindex <= o.maxSubindex then Some(o.entries[1]) else None;
      }
    }
    var i := 0;
    while true
      invariant 0 <= i < |o.entries|
      invariant Search(o.entries, subindex) == Search(o.entries[i..], subindex)
      decreases |o.entries| - i
    {
      var found := o.entries[i].subindex;
      if found == subindex {
        return Some(o.entries[i]);
      }
      assert o.entries[i..][1..] == o.entries[i + 1..];
      i := i + 1;
      if found >= o.maxSubindex {
        break;
      }
    }
    return None;
  }

  /** The dictionary of one node. */
  class ObjectDictionary {
    const env: Env
    var mem: map<Key, Data>
    var log: seq<AccessEvent>
    var notified: seq<Key>

    constructor (env: Env, mem: map<Key, Data>)
      requires OdOk(env.od) && StoreOk(env.od, mem)
      ensures Valid() && St() == Store(mem, [], []) && this.env == env
    {
      this.env := env;
      this.mem := mem;
      log, notified := [], [];
    }

    ghost predicate Valid()
      reads this
    {
      OdOk(env.od) && StoreOk(env.od, mem)
    }

    function St(): Store
      reads this
    {
      Store(mem, log, notified)
    }

    method Notified(o: Obj, e: Entry, subindex: nat)
      modifies this`notified
      ensures St() == Notify(old(St()), o, e, subindex)
    {
      if e.notify {
        notified := notified + [Key(o.index, subindex)];
      }
    }

    method Set(o: Obj, e: Entry, subindex: nat, value: U64) returns (abort: U32)
      requires Valid()
      requires Find(env.od, Key(o.index, subindex)) == Some((o, e))
      modifies this
      ensures Valid()
      ensures (abort, St()) == SetValue(env, old(St()), o, e, subindex, value)
    {
      hide OdOk, StoreOk, Find, SetAt;
      abort := SetEntry(o, e, subindex, Key(o.index, subindex), value);
    }

    /** The same for an entry at hand, stored at `at`. */
    method SetEntry(o: Obj, e: Entry, subindex: nat, at: Key, value: U64) returns (abort: U32)
      requires Valid() && Find(env.od, at) == Some((o, e))
      modifies this
      ensures Valid()
      ensures (abort, St()) == SetAt(env, old(St()), o, e, subindex, at, value)
    {
      hide OdOk, StoreOk, Find;
      SetAtKeepsStore(env, St(), o, e, subindex, at, value);
      if o.access {
        var v := Le(value[..4]);
        abort := env.write(log, o.index, subindex, v);
        log := log + [Written(o.index, subindex, v)];
        Notified(o, e, subindex);
        return;
      }
      match Width(e.datatyp)
      case 0 => return ABORT_GENERAL;
      case w =>
        mem := mem[at := value[..w]];
        Notified(o, e, subindex);
        return 0;
    }
  }
}
