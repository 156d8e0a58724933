/** The PDO parameters as the object dictionary sees them: which writes are accepted, what they
    change, and what is read back (src/co_pdo.c, CiA 301 sections 7.5.2.35 to 7.5.2.38). Ranges
    and abort codes are written out. */
module PdoAccess {
  import opened Bytes
  import opened Dictionary
  import opened PdoFrame
  import opened PdoConfig

  // ----- reading

  /** co_pdo_comm_get. */
  function CommGet(p: Pdo, sub: nat): (U32, U32) {
    match sub
    case 1 => (0, p.cobid)
    case 2 => (0, p.transmission)
    case 3 => (0, p.inhibit)
    case 5 => (0, p.eventTimer)
    case 6 => (0, p.syncStart)
    case _ => (ABORT_BAD_SUBINDEX, 0)
  }

  /** co_pdo_map_get. */
  function MapGet(p: Pdo, sub: nat): (U32, U32) {
    if sub == 0 then (0, p.count)
    else if sub > MAX_PDO_ENTRIES then (ABORT_BAD_SUBINDEX, 0)
    else (0, p.slots[sub - 1].mapping)
  }

  // ----- writing communication parameters

  /** The identifiers that CiA 301 restricts, as far as the code excludes them. */
  predicate Restricted(id: nat) {
    || id <= 0x07F || 0x101 <= id <= 0x17F || 0x581 <= id <= 0x5FF || 0x601 <= id <= 0x67F
    || 0x6E0 <= id <= 0x6FF || 0x701 <= id <= 0x7FF
  }

  /** Bits of a communication parameter; 0 if there is none. */
  function CommBits(rx: bool, sub: nat): nat {
    match sub
    case 1 => 32
    case 2 => 8
    case 3 => 16
    case 5 => 16
    case 6 => if rx then 0 else 8
    case _ => 0
  }

  /** The code a write is refused with. COB-ID, inhibit time and SYNC start of a PDO in use only
      change during initialisation, except that it may be disabled. */
  function CommCode(p: Pdo, rx: bool, init: bool, sub: nat, value: U32): U32 {
    var inUse := p.cobid < 0x8000_0000 && !init;
    if CommBits(rx, sub) == 0 then 0x0609_0011
    else if sub == 1 && Restricted(value % 0x2000_0000) then 0x0609_0030
    else if sub == 1 && inUse && value < 0x8000_0000 then 0x0609_0030
    else if sub == 2 && !(value % 0x100 <= 0xF0 || value % 0x100 >= 0xFE
                          || (!rx && value % 0x100 in {0xFC, 0xFD})) then 0x0609_0030
    else if (sub == 3 || sub == 6) && inUse then 0x0609_0030
    else 0
  }

  lemma CommRefused(p: Pdo, rx: bool, init: bool, sub: Byte, value: U32)
    ensures CommSet(p, rx, init, sub, value).0 == CommCode(p, rx, init, sub, value)
    ensures CommCode(p, rx, init, sub, value) != 0 ==> CommSet(p, rx, init, sub, value).1 == p
  {
    RestrictedIff(value);
    hide ValidCobId, Restricted;
  }

  lemma RestrictedIff(cobid: U32)
    ensures ValidCobId(cobid) <==> !Restricted(cobid % 0x2000_0000)
  {
  }

  /** The parameter with this number set. */
  function With(p: Pdo, sub: nat, value: U32): Pdo {
    match sub
    case 1 => p.(cobid := value, syncCounter := 0, queued := false)
    case 2 => p.(transmission := value % 0x100)
    case 3 => p.(inhibit := value % 0x1_0000)
    case 5 => p.(eventTimer := value % 0x1_0000)
    case 6 => p.(syncStart := value % 0x100)
    case _ => p
  }

  lemma CommSets(p: Pdo, rx: bool, init: bool, sub: Byte, value: U32)
    requires CommSet(p, rx, init, sub, value).0 == 0
    ensures CommSet(p, rx, init, sub, value).1 == With(p, sub, value)
  {
    hide ValidCobId, ValidTransmission;
  }

  lemma WithReads(p: Pdo, sub: nat, value: U32)
    requires sub in {1, 2, 3, 5, 6}
    ensures var q := With(p, sub, value);
            && CommGet(q, sub) == (0, value % (if sub == 1 then 0x1_0000_0000
                                               else if sub == 3 || sub == 5 then 0x1_0000 else 0x100))
            && (forall other: nat | other != sub :: CommGet(q, other) == CommGet(p, other))
  {
  }

  /** A write to a communication parameter is refused with that code and changes nothing, or is
      read back, modulo the size of the parameter, with all others as they were. A new COB-ID also
      starts the SYNC counter again and drops what is queued. */
  lemma CommWrite(c: Context, init: bool, p: Pdo, sub: Byte, value: U32)
    ensures var (abort, q) := Step(c, init, p, Comm(sub, value));
            && abort == CommCode(p, c.rx, init, sub, value)
            && (abort != 0 ==> q == p)
            && (abort == 0 ==>
                  && CommGet(q, sub) == (0, value % (if sub == 1 then 0x1_0000_0000
                                                     else if sub == 3 || sub == 5 then 0x1_0000 else 0x100))
                  && (forall other: nat | other != sub :: CommGet(q, other) == CommGet(p, other))
                  && (sub == 1 ==> q.syncCounter == 0 && !q.queued)
                  && q == p.(cobid := q.cobid, transmission := q.transmission, inhibit := q.inhibit,
                             eventTimer := q.eventTimer, syncStart := q.syncStart,
                             syncCounter := if sub == 1 then 0 else p.syncCounter,
                             queued := if sub == 1 then false else p.queued))
  {
    hide CommSet, Restricted, CommGet;
    CommRefused(p, c.rx, init, sub, value);
    if CommCode(p, c.rx, init, sub, value) == 0 {
      CommSets(p, c.rx, init, sub, value);
      WithReads(p, sub, value);
    }
  }

  /** A restored PDO reads as disabled - with its default COB-ID if it is one of the first four -
      event-driven, without times and SYNC start, and with eight empty mappings. */
  lemma RestoredReads(c: Context, p: Pdo)
    requires c.node <= 127
    ensures var (a, q) := Step(c, true, p, RestoreComm);
            && a == 0
            && CommGet(q, 1) == (0, 0x8000_0000 + if p.number >= 4 then 0
                                                  else (if c.rx then 0x200 else 0x180) + 0x100 * p.number + c.node)
            && CommGet(q, 2) == (0, 0xFF)
            && CommGet(q, 3) == (0, 0) && CommGet(q, 5) == (0, 0) && CommGet(q, 6) == (0, 0)
            && q == p.(cobid := q.cobid, transmission := 0xFF, inhibit := 0, eventTimer := 0, syncStart := 0)
    ensures var (a, q) := Step(c, true, p, RestoreMap);
            && a == 0 && MapGet(q, 0) == (0, 8) && (forall sub: nat | 1 <= sub <= 8 :: MapGet(q, sub) == (0, 0))
            && q == p.(count := 8, slots := q.slots)
            && (forall i | 0 <= i < 8 :: q.slots[i].found == p.slots[i].found)
  {
  }

  // ----- writing mapping parameters

  /** Whether a value of this index, subindex and length may be mapped: a static data type as
      padding, or an entry of exactly this length with the flag of the direction. */
  predicate MayMap(od: seq<Obj>, rx: bool, index: nat, subindex: nat, length: nat) {
    || (subindex == 0 && index in {0x01, 0x02, 0x03, 0x04, 0x05, 0x06, 0x07, 0x10, 0x12, 0x13, 0x14, 0x15, 0x16,
                                   0x18, 0x19, 0x1A, 0x1B})
    || (Find(od, Key(index, subindex)).Some?
        && var e := Find(od, Key(index, subindex)).value.1;
        e.bitlength == length && if rx then e.rpdo else e.tpdo)
  }

  lemma WordParts(index: nat, subindex: nat, length: nat, m: U32)
    requires subindex < 0x100 && length < 0x100 && m == index * 0x1_0000 + subindex * 0x100 + length
    ensures MappedIndex(m) == index && MappedSub(m) == subindex && MappedLength(m) == length
  {
  }

  /** A mapping word is accepted exactly if what it names may be mapped, and then the entry is
      saved with it, or none for padding. */
  lemma MappableIff(od: seq<Obj>, rx: bool, index: nat, subindex: nat, length: nat, m: U32)
    requires subindex < 0x100 && length < 0x100 && m == index * 0x1_0000 + subindex * 0x100 + length
    ensures var (abort, found) := Mappable(od, rx, m);
            && (abort == 0 <==> MayMap(od, rx, index, subindex, length))
            && (abort == 0 && !IsPadding(index, subindex) ==> found == Find(od, Key(index, subindex)))
            && (abort == 0 && IsPadding(index, subindex) ==> found == None)
            && (abort != 0 ==> abort == if ObjFind(od, index).None? then 0x0602_0000
                                        else if Find(od, Key(index, subindex)).None? then 0x0609_0011
                                        else 0x0604_0041)
  {
    hide ObjFind, EntryFind, MappedIndex, MappedSub, MappedLength;
    WordParts(index, subindex, length, m);
  }

  /** The code a write to a mapping parameter is refused with, apart from words that name nothing
      mappable. */
  function MapCode(p: Pdo, init: bool, sub: nat, value: U32): U32 {
    if p.cobid < 0x8000_0000 && !init then 0x0800_0000
    else if sub > 8 then 0x0609_0011
    else if sub == 0 then
      if value % 0x100 > 8 || Bitlength(p.slots[..value % 0x100]) > 64 then 0x0604_0042 else 0
    else if p.count != 0 && !init then 0x0601_0000
    else 0
  }

  /** A write to a mapping parameter is refused with that code, or because the word may not be
      mapped, and then what is read is as before; otherwise it is read back, with all others as
      they were. */
  lemma MapWrite(c: Context, init: bool, p: Pdo, sub: Byte, value: U32)
    ensures var (abort, q) := Step(c, init, p, Map(sub, value));
            && (abort == 0 <==> && MapCode(p, init, sub, value) == 0
                                && (sub != 0 ==> MayMap(c.od, c.rx, value / 0x1_0000, value / 0x100 % 0x100,
                                                        value % 0x100)))
            && (MapCode(p, init, sub, value) != 0 ==> abort == MapCode(p, init, sub, value))
            && (abort != 0 ==> forall other: nat :: MapGet(q, other) == MapGet(p, other))
            && (abort == 0 ==>
                  && MapGet(q, sub) == (0, if sub == 0 then value % 0x100 else value)
                  && (forall other: nat | other != sub :: MapGet(q, other) == MapGet(p, other)))
            && (forall other: nat :: CommGet(q, other) == CommGet(p, other))
  {
    hide Bitlength, Mappable, MayMap, IsCyclic;
    if sub == 0 {
      CountWrite(c, init, p, value);
    } else {
      WordWrite(c, init, p, sub, value);
    }
  }

  /** Taking over a number of mappings also takes over their length, waits for the SYNC start if
      there is one, and stops deadline monitoring. A number that is refused for its length has
      overwritten the length all the same; any other refusal changes nothing. */
  lemma CountWrite(c: Context, init: bool, p: Pdo, value: U32)
    ensures var n := value % 0x100;
            var (abort, q) := MapSet(c.od, p, c.rx, init, 0, value);
            && abort == MapCode(p, init, 0, value)
            && (abort == 0 ==> q == p.(count := n, bitlength := Bitlength(p.slots[..n]),
                                       syncWait := p.syncWait || 1 <= p.syncStart <= 240, monitoring := false))
            && (abort != 0 ==>
                  q == if abort == 0x0604_0042 && n <= 8 then p.(bitlength := Bitlength(p.slots[..n])) else p)
  {
    hide Bitlength, Mappable;
  }

  /** Starting a PDO in use does the same with the number it has, and nothing to one that is not. */
  lemma StartMeans(c: Context, p: Pdo)
    ensures var (abort, q) := Step(c, false, p, Start);
            && abort == 0
            && (p.cobid >= 0x8000_0000 || p.count > 8 ==> q == p)
            && (p.cobid < 0x8000_0000 && p.count <= 8 ==>
                  var length := Bitlength(p.slots[..p.count]);
                  q == if length > 64 then p.(bitlength := length)
                       else p.(bitlength := length, syncWait := p.syncWait || 1 <= p.syncStart <= 240,
                               monitoring := false))
  {
    hide Bitlength;
  }

  lemma WordWrite(c: Context, init: bool, p: Pdo, sub: Byte, value: U32)
    requires sub != 0
    ensures var (abort, q) := MapSet(c.od, p, c.rx, init, sub, value);
            && (abort == 0 <==> && MapCode(p, init, sub, value) == 0
                                && MayMap(c.od, c.rx, value / 0x1_0000, value / 0x100 % 0x100, value % 0x100))
            && (MapCode(p, init, sub, value) != 0 ==> abort == MapCode(p, init, sub, value))
            && (abort != 0 ==> q == p)
            && (abort == 0 ==>
                  sub <= 8 && q == p.(slots := p.slots[sub - 1 := Slot(value, Mappable(c.od, c.rx, value).1)]))
  {
    hide Mappable, MayMap, Bitlength;
    ExactWord(c.od, c.rx, value);
  }

  lemma ExactWord(od: seq<Obj>, rx: bool, value: U32)
    ensures Mappable(od, rx, value).0 == 0
       <==> MayMap(od, rx, value / 0x1_0000, value / 0x100 % 0x100, value % 0x100)
  {
    hide Mappable, MayMap;
    MappableIff(od, rx, value / 0x1_0000, value / 0x100 % 0x100, value % 0x100, value);
  }
}
