/** Configuring a PDO: communication and mapping parameters, and the look-ups saved with the
    mapping (src/co_pdo.c, CiA 301 sections 7.5.2.35 to 7.5.2.38). */
module PdoConfig {
  import opened Bytes
  import opened Bits
  import opened Dictionary
  import opened PdoFrame

  const MAX_PDO_ENTRIES := 8

  const COBID_INVALID: U32 := 0x8000_0000

  type Slots = s: seq<Slot> | |s| == MAX_PDO_ENTRIES
    witness seq(MAX_PDO_ENTRIES, _ => Slot(0, None))

  /** One transmit or receive PDO. `slots` holds the mapping words with the object and entry
      looked up for each, which are always saved together; `count` of them are in use. */
  datatype Pdo = Pdo(
    number: nat, cobid: U32, transmission: Byte, syncStart: Byte, syncCounter: Byte,
    inhibit: U16, eventTimer: U16, timestamp: nat,
    frame: Word64, bitlength: nat, count: Byte,
    queued: bool, syncWait: bool, monitoring: bool, timedOut: bool,
    slots: Slots)

  predicate Enabled(p: Pdo) {
    p.cobid < COBID_INVALID
  }

  predicate IsAcyclic(tt: Byte) {
    tt == 0
  }

  predicate IsCyclic(tt: Byte) {
    1 <= tt <= 0xF0
  }

  predicate IsRtr(tt: Byte) {
    tt == 0xFC || tt == 0xFD
  }

  predicate IsEvent(tt: Byte) {
    tt >= 0xFE
  }

  /** COB-IDs that CiA 301 (section 7.3.5) does not restrict; 180h is allowed besides. */
  predicate ValidCobId(cobid: U32) {
    var id := cobid % 0x2000_0000;
    && !(id <= 0x7F) && !(0x101 <= id < 0x180)
    && !(0x581 <= id <= 0x5FF) && !(0x601 <= id <= 0x67F)
    && !(0x6E0 <= id <= 0x6FF) && !(0x701 <= id <= 0x77F) && !(0x780 <= id <= 0x7FF)
  }

  /** The static data types of the dictionary, mapped as dummy entries (CiA 301 section
      7.4.7.1). */
  predicate IsPadding(index: nat, subindex: Byte) {
    subindex == 0
    && (1 <= index <= 7 || index == 0x10 || 0x12 <= index <= 0x16 || 0x18 <= index <= 0x1B)
  }

  lemma {:induction false} BitAt(v: nat, n: nat, i: nat)
    requires i < n
    ensures BitsOfNum(v, n)[i] == (v / Pow2(i) % 2 == 1)
  {
    hide Pow2;
    Pow2Step(i);
    if i > 0 {
      BitAt(v / 2, n - 1, i - 1);
      HalfThenDivide(v, Pow2(i - 1));
    }
  }

  lemma Pow2Step(i: nat)
    ensures Pow2(0) == 1 && (i > 0 ==> Pow2(i) == 2 * Pow2(i - 1))
  {
  }

  lemma HalfThenDivide(v: nat, p: nat)
    requires p > 0
    ensures v / 2 / p == v / (2 * p)
  {
    var q, r := v / 2 / p, v / 2 % p;
    assert v == 2 * (q * p + r) + v % 2;
    assert 2 * (q * p) == q * (2 * p);
    ModUnique(v, 2 * p, q, 2 * r + v % 2);
  }

  /** The bit mask of the code lists exactly those types. */
  method PaddingTest(index: nat, subindex: Byte) returns (r: bool)
    ensures r == IsPadding(index, subindex)
  {
    var bitmask: Word32 := BitsOfNum(0x0F7D00FE, 32);
    if subindex != 0 {
      return false;
    }
    if index > 0x1B {
      return false;
    }
    MaskLists(index);
    r := And(Single(32, index), bitmask) != Zero(32);
    assert And(Single(32, index), bitmask)[index] == bitmask[index];
  }

  lemma MaskLists(index: nat)
    requires index <= 0x1B
    ensures BitsOfNum(0x0F7D00FE, 32)[index] == IsPadding(index, 0)
  {
    if index < 14 {
      LowMaskLists(index);
    } else {
      HighMaskLists(index);
    }
  }

  lemma LowMaskLists(index: nat)
    requires index < 14
    ensures BitsOfNum(0x0F7D00FE, 32)[index] == IsPadding(index, 0)
  {
    hide BitsOfNum, Pow2;
    BitAt(0x0F7D00FE, 32, index);
    LowPowers();
  }

  lemma HighMaskLists(index: nat)
    requires 14 <= index <= 0x1B
    ensures BitsOfNum(0x0F7D00FE, 32)[index] == IsPadding(index, 0)
  {
    hide BitsOfNum, Pow2;
    BitAt(0x0F7D00FE, 32, index);
    HighPowers();
  }

  lemma LowPowers()
    ensures Pow2(0) == 1 && Pow2(1) == 2 && Pow2(2) == 4 && Pow2(3) == 8 && Pow2(4) == 0x10
    ensures Pow2(5) == 0x20 && Pow2(6) == 0x40 && Pow2(7) == 0x80 && Pow2(8) == 0x100 && Pow2(9) == 0x200
    ensures Pow2(10) == 0x400 && Pow2(11) == 0x800 && Pow2(12) == 0x1000 && Pow2(13) == 0x2000
  {
  }

  lemma HighPowers()
    ensures Pow2(14) == 0x4000 && Pow2(15) == 0x8000 && Pow2(16) == 0x1_0000 && Pow2(17) == 0x2_0000
    ensures Pow2(18) == 0x4_0000 && Pow2(19) == 0x8_0000 && Pow2(20) == 0x10_0000 && Pow2(21) == 0x20_0000
    ensures Pow2(22) == 0x40_0000 && Pow2(23) == 0x80_0000 && Pow2(24) == 0x100_0000
    ensures Pow2(25) == 0x200_0000 && Pow2(26) == 0x400_0000 && Pow2(27) == 0x800_0000
  {
  }

  // ----- parameter access

  /** Sum of the mapped lengths in use. */
  function Mapped(p: Pdo): nat {
    Bitlength(p.slots[..Min(p.count, MAX_PDO_ENTRIES)])
  }

  /** co_pdo_mapping_validate: the length is overwritten before it is checked. */
  function Validate(p: Pdo, count: Byte): (U32, Pdo) {
    if count > MAX_PDO_ENTRIES then (ABORT_PDO_LENGTH, p)
    else
      var m := p.(bitlength := Bitlength(p.slots[..count]));
      if m.bitlength > 64 then (ABORT_PDO_LENGTH, m)
      else (0, m.(syncWait := m.syncWait || IsCyclic(m.syncStart), monitoring := false))
  }

  predicate ValidTransmission(tt: Byte, rx: bool) {
    IsAcyclic(tt) || IsCyclic(tt) || IsEvent(tt) || (!rx && IsRtr(tt))
  }

  function CommSet(p: Pdo, rx: bool, init: bool, sub: Byte, value: U32): (U32, Pdo) {
    match sub
    case 1 =>
      if !ValidCobId(value) || (Enabled(p) && value < COBID_INVALID && !init) then (ABORT_VALUE, p)
      else (0, p.(cobid := value, syncCounter := 0, queued := false))
    case 2 =>
      if !ValidTransmission(value % 0x100, rx) then (ABORT_VALUE, p) else (0, p.(transmission := value % 0x100))
    case 3 =>
      if Enabled(p) && !init then (ABORT_VALUE, p) else (0, p.(inhibit := value % 0x10000))
    case 5 => (0, p.(eventTimer := value % 0x10000))
    case 6 =>
      if rx then (ABORT_BAD_SUBINDEX, p)
      else if Enabled(p) && !init then (ABORT_VALUE, p)
      else (0, p.(syncStart := value % 0x100))
    case _ => (ABORT_BAD_SUBINDEX, p)
  }

  /** Whether an object may be mapped, and what to remember of it. */
  function Mappable(od: seq<Obj>, rx: bool, m: U32): (U32, Option<(Obj, Entry)>) {
    if IsPadding(MappedIndex(m), MappedSub(m)) then (0, None)
    else
      match ObjFind(od, MappedIndex(m))
      case None => (ABORT_BAD_INDEX, None)
      case Some(o) =>
        match EntryFind(o, MappedSub(m))
        case None => (ABORT_BAD_SUBINDEX, None)
        case Some(e) =>
          if e.bitlength != MappedLength(m) || (if rx then !e.rpdo else !e.tpdo) then (ABORT_UNMAPPABLE, None)
          else (0, Some((o, e)))
  }

  function MapSet(od: seq<Obj>, p: Pdo, rx: bool, init: bool, sub: Byte, value: U32): (U32, Pdo) {
    if Enabled(p) && !init then (ABORT_GENERAL, p)
    else if sub == 0 then
      var (abort, m) := Validate(p, value % 0x100);
      if abort != 0 then (abort, m) else (0, m.(count := value % 0x100))
    else if sub > MAX_PDO_ENTRIES then (ABORT_BAD_SUBINDEX, p)
    else if p.count != 0 && !init then (ABORT_ACCESS, p)
    else
      var (abort, found) := Mappable(od, rx, value);
      if abort != 0 then (abort, p)
      else (0, p.(slots := p.slots[sub - 1 := Slot(value, found)]))
  }

  /** Disabled, with the default COB-ID of one of the first four PDOs. */
  function RestoredId(number: nat, rx: bool, node: Byte): U32 {
    COBID_INVALID + if number < 4 then DefaultId(number, rx, node) else 0
  }

  function DefaultId(number: nat, rx: bool, node: Byte): U32
    requires number < 4
  {
    node + (if rx then 0x200 else 0x180) + number * 0x100
  }

  function RestoredComm(p: Pdo, rx: bool, node: Byte): Pdo {
    p.(cobid := RestoredId(p.number, rx, node), transmission := 0xFF, inhibit := 0, eventTimer := 0, syncStart := 0)
  }

  /** The mapping words are cleared; the saved look-ups are not. */
  function RestoredMap(p: Pdo): Pdo {
    p.(count := MAX_PDO_ENTRIES,
       slots := seq(MAX_PDO_ENTRIES, i requires 0 <= i < MAX_PDO_ENTRIES => Slot(0, p.slots[i].found)))
  }

  /** On entering the operational state; the verdict is ignored. */
  function Started(p: Pdo): Pdo {
    if Enabled(p) then Validate(p, p.count).1 else p
  }

  datatype Op = Comm(sub: Byte, value: U32) | Map(sub: Byte, value: U32) | RestoreComm | RestoreMap | Start

  /** What is fixed for one PDO: the dictionary, its direction, the node-ID. */
  datatype Context = Context(od: seq<Obj>, rx: bool, node: Byte)

  function Step(c: Context, init: bool, p: Pdo, op: Op): (U32, Pdo) {
    match op
    case Comm(sub, value) => CommSet(p, c.rx, init, sub, value)
    case Map(sub, value) => MapSet(c.od, p, c.rx, init, sub, value)
    case RestoreComm => (0, RestoredComm(p, c.rx, c.node))
    case RestoreMap => (0, RestoredMap(p))
    case Start => (0, Started(p))
  }

  /** A run of accesses, each with the state of initialisation it happens in. */
  function Run(c: Context, p: Pdo, ops: seq<(bool, Op)>): Pdo
    decreases |ops|
  {
    if ops == [] then p
    else
      var n := |ops| - 1;
      Step(c, ops[n].0, Run(c, p, ops[..n]), ops[n].1).1
  }

  // ----- consistency of mapping and length

  /** The length is that of the mapping, and fits in a frame. */
  predicate Consistent(p: Pdo) {
    p.count <= MAX_PDO_ENTRIES && p.bitlength == Mapped(p) <= 64
  }

  /** Accesses outside initialisation. */
  predicate Configured(ops: seq<(bool, Op)>) {
    forall i | 0 <= i < |ops| :: !ops[i].0
  }

  /** Parameter writes and starting, on a node that is not reset. */
  predicate Undisturbed(ops: seq<(bool, Op)>) {
    Configured(ops) && forall i | 0 <= i < |ops| :: ops[i].1 !in {RestoreComm, RestoreMap}
  }

  /** A restore leaves eight empty mappings under the old length. */
  lemma RestoredConsistentIff(p: Pdo)
    ensures Consistent(RestoredMap(p)) <==> p.bitlength == 0
  {
    NothingMappedUpTo(RestoredMap(p).slots, MAX_PDO_ENTRIES);
    assert RestoredMap(p).slots[..MAX_PDO_ENTRIES] == RestoredMap(p).slots;
  }

  lemma {:induction false} NothingMappedUpTo(s: Slots, n: nat)
    requires n <= MAX_PDO_ENTRIES && forall i | 0 <= i < n :: s[i].mapping == 0
    ensures Bitlength(s[..n]) == 0
  {
    if n > 0 {
      NothingMappedUpTo(s, n - 1);
      assert s[..n][..n - 1] == s[..n - 1];
    }
  }

  /** What breaks consistency: a number of mappings that would not fit in a frame, which is
      rejected but whose length is kept, and a restore that leaves a length behind. */
  predicate Breaks(p: Pdo, op: Op) {
    Overlong(p, op) || (op.RestoreMap? && p.bitlength != 0)
  }

  predicate Overlong(p: Pdo, op: Op) {
    op.Map? && op.sub == 0 && !Enabled(p)
    && op.value % 0x100 <= MAX_PDO_ENTRIES && Bitlength(p.slots[..op.value % 0x100]) > 64
  }

  /** What repairs it: an accepted number of mappings, a restore that leaves no length behind, and
      starting an enabled PDO whose mapping fits. */
  predicate Repairs(p: Pdo, op: Op) {
    Recounts(p, op) || Restarts(p, op) || (op.RestoreMap? && p.bitlength == 0)
  }

  predicate Recounts(p: Pdo, op: Op) {
    op.Map? && op.sub == 0 && !Enabled(p)
    && op.value % 0x100 <= MAX_PDO_ENTRIES && Bitlength(p.slots[..op.value % 0x100]) <= 64
  }

  predicate Restarts(p: Pdo, op: Op) {
    op.Start? && Enabled(p) && p.count <= MAX_PDO_ENTRIES && Mapped(p) <= 64
  }

  lemma CommKeepsMapping(c: Context, p: Pdo, op: Op)
    ensures op.Comm? ==> var q := CommSet(p, c.rx, false, op.sub, op.value).1;
                         q.count == p.count && q.slots == p.slots && q.bitlength == p.bitlength
  {
    hide ValidCobId, ValidTransmission;
  }

  /** On a consistent PDO, every access keeps consistency except exactly those that break it. */
  lemma StepConsistentIff(c: Context, p: Pdo, op: Op)
    requires Consistent(p)
    ensures Consistent(Step(c, false, p, op).1) <==> !Breaks(p, op)
  {
    hide CommSet, Mappable, Bitlength, RestoredMap, Enabled, IsCyclic;
    NothingMapped(p.slots);
    RestoredConsistentIff(p);
    CommKeepsMapping(c, p, op);
  }

  lemma NothingMapped(s: Slots)
    ensures Bitlength(s[..0]) == 0
  {
  }

  /** On any other, exactly those that repair it restore consistency. */
  lemma StepRepairsIff(c: Context, p: Pdo, op: Op)
    requires !Consistent(p)
    ensures Consistent(Step(c, false, p, op).1) <==> Repairs(p, op)
  {
    hide CommSet, Mappable, Bitlength, RestoredMap, Enabled, IsCyclic;
    NothingMapped(p.slots);
    RestoredConsistentIff(p);
    CommKeepsMapping(c, p, op);
  }

  /** Whether the last access that matters was a good one. */
  predicate LastWasGood(c: Context, p: Pdo, ops: seq<(bool, Op)>)
    decreases |ops|
  {
    if ops == [] then Consistent(p)
    else
      var n := |ops| - 1;
      var before := Run(c, p, ops[..n]);
      Repairs(before, ops[n].1) || (LastWasGood(c, p, ops[..n]) && !Breaks(before, ops[n].1))
  }

  /** Over any run of accesses outside initialisation. */
  lemma {:induction false} RunConsistentIff(c: Context, p: Pdo, ops: seq<(bool, Op)>)
    requires Configured(ops)
    ensures Consistent(Run(c, p, ops)) <==> LastWasGood(c, p, ops)
    decreases |ops|
  {
    hide Consistent, Breaks, Repairs, Step;
    if ops != [] {
      var n := |ops| - 1;
      var before := Run(c, p, ops[..n]);
      RunConsistentIff(c, p, ops[..n]);
      if Consistent(before) {
        StepConsistentIff(c, before, ops[n].1);
        NotBoth(before, ops[n].1);
      } else {
        StepRepairsIff(c, before, ops[n].1);
      }
    }
  }

  lemma NotBoth(p: Pdo, op: Op)
    ensures !(Breaks(p, op) && Repairs(p, op))
  {
  }

  /** The exception does happen: with two mappings of 64 bits, asking for both is refused, but
      the empty mapping is left with a length of 128 bits. */
  lemma OverlongBreaks(c: Context, p: Pdo)
    requires !Enabled(p) && p.count == 0 && p.bitlength == 0
    requires MappedLength(p.slots[0].mapping) == 64 && MappedLength(p.slots[1].mapping) == 64
    ensures Consistent(p)
    ensures var (abort, end) := Step(c, false, p, Map(0, 2));
            abort == ABORT_PDO_LENGTH && end.count == 0 && end.bitlength == 128 && !Consistent(end)
  {
    assert p.slots[..2][..1] == p.slots[..1] && p.slots[..1][..0] == p.slots[..0];
    assert Bitlength(p.slots[..1]) == 64;
    assert Bitlength(p.slots[..2]) == 128;
  }

  /** At all times, also during initialisation, at most eight mappings are in use. */
  lemma {:induction false} CountBounded(c: Context, p: Pdo, ops: seq<(bool, Op)>)
    requires p.count <= MAX_PDO_ENTRIES
    ensures Run(c, p, ops).count <= MAX_PDO_ENTRIES
    decreases |ops|
  {
    if ops != [] {
      CountBounded(c, p, ops[..|ops| - 1]);
      StepCount(c, ops[|ops| - 1].0, Run(c, p, ops[..|ops| - 1]), ops[|ops| - 1].1);
    }
  }

  lemma StepCount(c: Context, init: bool, p: Pdo, op: Op)
    requires p.count <= MAX_PDO_ENTRIES
    ensures Step(c, init, p, op).1.count <= MAX_PDO_ENTRIES
  {
    hide Mappable, ValidCobId, Bitlength;
  }

  // ----- an enabled PDO does not change under its users

  /** What must not change while the COB-ID is valid. */
  predicate SameShape(p: Pdo, q: Pdo) {
    p.cobid == q.cobid && p.slots == q.slots && p.count == q.count
    && p.inhibit == q.inhibit && p.syncStart == q.syncStart
  }

  lemma StepKeepsShape(c: Context, p: Pdo, op: Op)
    requires Enabled(p) && op !in {RestoreComm, RestoreMap}
    ensures var q := Step(c, false, p, op).1; Enabled(q) ==> SameShape(p, q)
  {
    hide Mappable, ValidCobId, Bitlength;
  }

  /** Over a run, an enabled PDO keeps its COB-ID, mapping, inhibit time and SYNC start until
      it has been disabled: between two different valid COB-IDs there is an invalid one. */
  lemma {:induction false} ChangesNeedDisabling(c: Context, p: Pdo, ops: seq<(bool, Op)>)
    requires Undisturbed(ops) && Enabled(p) && Enabled(Run(c, p, ops))
    ensures SameShape(p, Run(c, p, ops)) || exists k | 0 < k < |ops| :: !Enabled(Run(c, p, ops[..k]))
    decreases |ops|
  {
    hide Step, Enabled;
    if ops != [] {
      var n := |ops| - 1;
      if Enabled(Run(c, p, ops[..n])) {
        ChangesNeedDisabling(c, p, ops[..n]);
        StepKeepsShape(c, Run(c, p, ops[..n]), ops[n].1);
        if k :| 0 < k < n && !Enabled(Run(c, p, ops[..n][..k])) {
          assert ops[..n][..k] == ops[..k];
        }
      } else {
        assert n > 0 by {
          assert Run(c, p, ops[..0]) == p;
        }
      }
    }
  }

  // ----- the saved look-ups

  /** The saved object and entry are what looking the mapping word up would give now. */
  predicate Agrees(c: Context, s: Slot) {
    Mappable(c.od, c.rx, s.mapping) == (0, s.found)
  }

  /** What is saved is mapped at exactly the length of its entry, which has the flag of the
      direction of the PDO. */
  predicate RightDirection(c: Context, s: Slot) {
    s.found.Some? ==>
      var e := s.found.value.1; e.bitlength == MappedLength(s.mapping) && if c.rx then e.rpdo else e.tpdo
  }

  /** Slots written successfully since their mapping words were last cleared. */
  function Fresh(c: Context, p: Pdo, ops: seq<(bool, Op)>): set<nat>
    decreases |ops|
  {
    if ops == [] then {}
    else
      var n := |ops| - 1;
      var (init, op) := ops[n];
      var written := Fresh(c, p, ops[..n]);
      match op
      case RestoreMap => {}
      case Map(sub, value) =>
        if 1 <= sub <= MAX_PDO_ENTRIES && Step(c, init, Run(c, p, ops[..n]), op).0 == 0
        then written + {sub - 1} else written
      case _ => written
  }

  lemma StepAgrees(c: Context, init: bool, p: Pdo, op: Op, i: nat)
    requires i < MAX_PDO_ENTRIES && op != RestoreMap
    ensures var (abort, q) := Step(c, init, p, op);
            if op.Map? && op.sub == i + 1 && abort == 0 then Agrees(c, q.slots[i]) else q.slots[i] == p.slots[i]
  {
    hide Mappable, ValidCobId, Bitlength;
  }

  /** The saved look-ups agree with the dictionary in every slot written since the last
      restore, over any run and in any state. */
  lemma {:induction false} CacheAgrees(c: Context, p: Pdo, ops: seq<(bool, Op)>, i: nat)
    requires i < MAX_PDO_ENTRIES && i in Fresh(c, p, ops)
    ensures Agrees(c, Run(c, p, ops).slots[i]) && RightDirection(c, Run(c, p, ops).slots[i])
    decreases |ops|
  {
    hide Step, Agrees, RightDirection;
    if ops != [] {
      var n := |ops| - 1;
      StepAgrees(c, ops[n].0, Run(c, p, ops[..n]), ops[n].1, i);
      if i in Fresh(c, p, ops[..n]) {
        CacheAgrees(c, p, ops[..n], i);
      }
      AgreeingDirection(c, Run(c, p, ops).slots[i]);
    }
  }

  lemma AgreeingDirection(c: Context, s: Slot)
    requires Agrees(c, s)
    ensures RightDirection(c, s)
  {
    hide ObjFind, EntryFind, IsPadding;
  }

  /** Packing by looking every mapping word up again. */
  function LookedUp(c: Context, slots: seq<Slot>): seq<Slot> {
    seq(|slots|, i requires 0 <= i < |slots| => Slot(slots[i].mapping, Mappable(c.od, c.rx, slots[i].mapping).1))
  }

  /** A restore keeps the saved look-up although the mapping word is gone, so the slot agrees
      with the dictionary exactly if nothing had been saved in it. */
  lemma RestoreAgreesIff(c: Context, p: Pdo, i: nat)
    requires i < MAX_PDO_ENTRIES && OdOk(c.od)
    ensures var slots := RestoredMap(p).slots;
            LookedUp(c, slots)[i] == slots[i] <==> p.slots[i].found == None
  {
    assert forall o | o in c.od :: o.index >= 1;
  }

  /** With fresh slots, packing through the saved look-ups is packing by look-up. */
  lemma {:induction false} PackingThroughCache(c: Context, env: Env, st: Store, p: Pdo, ops: seq<(bool, Op)>)
    requires var q := Run(c, p, ops);
             q.count <= MAX_PDO_ENTRIES && forall i: nat | i < q.count :: i in Fresh(c, p, ops)
    ensures var q := Run(c, p, ops);
            var slots := q.slots[..q.count];
            Packed(q.frame, Fields(env, st, slots)) == Packed(q.frame, Fields(env, st, LookedUp(c, slots)))
  {
    hide Run, Fresh, Mappable;
    var q := Run(c, p, ops);
    var slots := q.slots[..q.count];
    forall i: nat | i < |slots|
      ensures slots[i] == LookedUp(c, slots)[i]
    {
      CacheAgrees(c, p, ops, i);
    }
    assert slots == LookedUp(c, slots);
  }

  /** A slot that agrees with the dictionary has storage as wide as its field, names the entry of
      its own key, and has the flag of its direction. */
  lemma AgreesIsSound(c: Context, s: Slot)
    requires OdOk(c.od) && Agrees(c, s)
    ensures WideEnough(s) && RightDirection(c, s)
    ensures s.found.Some? ==> MappedLength(s.mapping) >= 1 && Find(c.od, SlotKey(s)) == s.found
  {
    if s.found.Some? {
      FindSpec(c.od, Key(MappedIndex(s.mapping), MappedSub(s.mapping)));
    }
  }

  // ----- the pre-defined connection set

  /** A restored PDO is disabled. Enabling one of the first four under the COB-ID it was given is
      accepted, and makes it the one of CiA 301 section 7.3.3: node-ID in the low seven bits,
      function code 3 to 10 above. */
  lemma RestoredIsDefault(p: Pdo, rx: bool, node: Byte)
    requires 1 <= node <= 127
    ensures var q := RestoredComm(p, rx, node);
            && !Enabled(q) && q.slots == p.slots && q.count == p.count && q.frame == p.frame
            && if p.number >= 4 then q.cobid == COBID_INVALID
               else
                 var id := DefaultId(p.number, rx, node);
                 && q.cobid == COBID_INVALID + id
                 && id % 0x80 == node && id / 0x80 == (if rx then 4 else 3) + 2 * p.number
                 && CommSet(q, rx, false, 1, id) == (0, q.(cobid := id, syncCounter := 0, queued := false))
                 && Enabled(q.(cobid := id))
  {
    hide DefaultId, ValidCobId;
    if p.number < 4 {
      DefaultIdParts(p.number, rx, node);
    }
  }

  lemma DefaultIdParts(number: nat, rx: bool, node: Byte)
    requires number < 4 && 1 <= node <= 127
    ensures var id := DefaultId(number, rx, node);
            && id < 0x580 && ValidCobId(id)
            && id % 0x80 == node && id / 0x80 == (if rx then 4 else 3) + 2 * number
  {
    var code := (if rx then 4 else 3) + 2 * number;
    assert DefaultId(number, rx, node) == code * 0x80 + node;
  }

  /** No two PDOs of a network share a default COB-ID. */
  lemma DefaultIdsDistinct(n1: nat, rx1: bool, node1: Byte, n2: nat, rx2: bool, node2: Byte)
    requires n1 < 4 && n2 < 4 && 1 <= node1 <= 127 && 1 <= node2 <= 127
    ensures DefaultId(n1, rx1, node1) == DefaultId(n2, rx2, node2) <==> n1 == n2 && rx1 == rx2 && node1 == node2
  {
  }

  // ----- where saved entries are stored

  /** What is saved in a slot is an entry of the dictionary. */
  ghost predicate Remembered(c: Context, s: Slot) {
    s.found.Some? ==>
      && var (o, e) := s.found.value;
      && ObjFind(c.od, o.index) == Some(o) && exists sub: nat :: EntryFind(o, sub) == Some(e)
  }

  /** A saved array entry has a place only for the members 1..max_subindex. */
  predicate HasPlace(s: Slot) {
    s.found.Some? && s.found.value.1.isArray ==> 1 <= MappedSub(s.mapping) <= s.found.value.0.maxSubindex
  }

  lemma AgreesIsRemembered(c: Context, s: Slot)
    requires Agrees(c, s)
    ensures Remembered(c, s)
  {
    if s.found.Some? {
      assert EntryFind(s.found.value.0, MappedSub(s.mapping)) == Some(s.found.value.1);
    }
  }

  /** At all times, over any run in any state, restores included, every slot remembers an entry of
      the dictionary or none. */
  lemma {:induction false} SlotsRemember(c: Context, p: Pdo, ops: seq<(bool, Op)>, i: nat)
    requires i < MAX_PDO_ENTRIES && Remembered(c, p.slots[i])
    ensures Remembered(c, Run(c, p, ops).slots[i])
    decreases |ops|
  {
    hide Step, Agrees;
    if ops != [] {
      var n := |ops| - 1;
      var before := Run(c, p, ops[..n]);
      SlotsRemember(c, p, ops[..n], i);
      if ops[n].1 == RestoreMap {
        RestoreRemembers(c, ops[n].0, before, i);
      } else {
        StepAgrees(c, ops[n].0, before, ops[n].1, i);
        var q := Step(c, ops[n].0, before, ops[n].1).1;
        if Agrees(c, q.slots[i]) {
          AgreesIsRemembered(c, q.slots[i]);
        }
      }
    }
  }

  lemma RestoreRemembers(c: Context, init: bool, p: Pdo, i: nat)
    requires i < MAX_PDO_ENTRIES
    ensures Step(c, init, p, RestoreMap).1.slots[i].found == p.slots[i].found
  {
  }

  /** A remembered entry is stored where its slot reads and writes it exactly if the slot has a
      place: only a restored mapping word of an array member has none, and then what lies before
      the array would be touched. */
  lemma StoredIffHasPlace(c: Context, s: Slot)
    requires OdOk(c.od) && Remembered(c, s) && s.found.Some?
    ensures Find(c.od, SlotKey(s)) == s.found <==> HasPlace(s)
  {
    var (o, e) := s.found.value;
    var sub: nat :| EntryFind(o, sub) == Some(e);
    EntryFindSpec(o, sub);
    EntryFindSpec(o, SlotKey(s).subindex);
    if !e.isArray {
      OwnSubindex(o, e);
    }
  }

  lemma OwnSubindex(o: Obj, e: Entry)
    requires ObjOk(o) && e in o.entries && !e.isArray
    ensures EntryFind(o, e.subindex) == Some(e)
  {
    EntryFindSpec(o, e.subindex);
    if !IsArrayObj(o) {
      var i :| 0 <= i < |o.entries| && o.entries[i] == e;
      var j :| 0 <= j < |o.entries| && o.entries[j] == EntryFind(o, e.subindex).value;
      assert i == j;
    }
  }
}
