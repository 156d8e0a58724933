/** PDO parameters across a reset: restored, written back from the store in ascending order of
    subindex, and started (src/co_pdo.c, src/co_od.c). */
module PdoReload {
  import opened Bytes
  import opened Dictionary
  import opened PdoFrame
  import opened PdoConfig

  predicate SavableComm(c: Context, p: Pdo) {
    && ValidTransmission(p.transmission, c.rx) && (c.rx ==> p.syncStart == 0)
    && (ValidCobId(p.cobid) || p.cobid == RestoredId(p.number, c.rx, c.node))
  }

  predicate SavableMap(c: Context, count: Byte, slots: Slots) {
    && count <= MAX_PDO_ENTRIES
    && forall i | 0 <= i < MAX_PDO_ENTRIES :: slots[i].mapping == 0 || Mappable(c.od, c.rx, slots[i].mapping).0 == 0
  }

  /** Parameters that the PDO could have been given: every value it saves is one it accepts, or one
      a restore leaves. */
  predicate Savable(c: Context, p: Pdo) {
    SavableComm(c, p) && SavableMap(c, p.count, p.slots)
  }

  lemma StepKeepsSavable(c: Context, init: bool, p: Pdo, op: Op)
    requires Savable(c, p)
    ensures Savable(c, Step(c, init, p, op).1)
  {
    hide Savable, CommSet, MapSet, RestoredComm, RestoredMap, Started;
    match op
    case Comm(sub, value) => CommKeepsSavable(c, init, p, sub, value);
    case Map(sub, value) => MapKeepsSavable(c, init, p, sub, value);
    case _ => OthersKeepSavable(c, p);
  }

  lemma CommKeepsSavable(c: Context, init: bool, p: Pdo, sub: Byte, value: U32)
    requires Savable(c, p)
    ensures Savable(c, CommSet(p, c.rx, init, sub, value).1)
  {
    hide SavableMap, ValidCobId, ValidTransmission, RestoredId;
  }

  lemma MapKeepsSavable(c: Context, init: bool, p: Pdo, sub: Byte, value: U32)
    requires Savable(c, p)
    ensures Savable(c, MapSet(c.od, p, c.rx, init, sub, value).1)
  {
    hide SavableComm, Mappable, Bitlength;
    SameComm(c, p, MapSet(c.od, p, c.rx, init, sub, value).1);
  }

  lemma SameComm(c: Context, p: Pdo, q: Pdo)
    requires SavableComm(c, p) && q.number == p.number && q.cobid == p.cobid
    requires q.transmission == p.transmission && q.syncStart == p.syncStart
    ensures SavableComm(c, q)
  {
    hide ValidCobId, ValidTransmission, RestoredId;
  }

  lemma OthersKeepSavable(c: Context, p: Pdo)
    requires Savable(c, p)
    ensures Savable(c, RestoredComm(p, c.rx, c.node)) && Savable(c, RestoredMap(p)) && Savable(c, Started(p))
  {
    hide Mappable, ValidCobId, Bitlength;
  }

  /** Once restored, a PDO has such parameters over any run in any state. */
  lemma {:induction false} RunKeepsSavable(c: Context, p: Pdo, ops: seq<(bool, Op)>)
    requires Savable(c, p)
    ensures Savable(c, Run(c, p, ops))
    decreases |ops|
  {
    hide Savable, Step;
    if ops != [] {
      var n := |ops| - 1;
      RunKeepsSavable(c, p, ops[..n]);
      StepKeepsSavable(c, ops[n].0, Run(c, p, ops[..n]), ops[n].1);
    }
  }

  lemma RestoredIsSavable(c: Context, p: Pdo)
    ensures Savable(c, RestoredMap(RestoredComm(p, c.rx, c.node)))
  {
  }

  // ----- the accesses of a reset

  /** Mapping words 1 to `k` as they were saved. */
  function Words(p: Pdo, k: nat): seq<(bool, Op)>
    requires k <= MAX_PDO_ENTRIES
  {
    if k == 0 then [] else Words(p, k - 1) + [(true, Map(k, p.slots[k - 1].mapping))]
  }

  /** The communication parameters as they were saved; a receive PDO has no SYNC start. */
  function Parameters(rx: bool, p: Pdo): seq<(bool, Op)> {
    [(true, Comm(1, p.cobid)), (true, Comm(2, p.transmission)), (true, Comm(3, p.inhibit)),
     (true, Comm(5, p.eventTimer))] + if rx then [] else [(true, Comm(6, p.syncStart))]
  }

  /** Restoring both objects, then loading what was saved for them, during initialisation. */
  function Reload(rx: bool, p: Pdo): seq<(bool, Op)> {
    [(true, RestoreComm), (true, RestoreMap)] + Parameters(rx, p) + [(true, Map(0, p.count))]
    + Words(p, MAX_PDO_ENTRIES)
  }

  lemma {:induction false} RunFrom(c: Context, p: Pdo, x: (bool, Op), rest: seq<(bool, Op)>)
    ensures Run(c, p, [x] + rest) == Run(c, Step(c, x.0, p, x.1).1, rest)
    decreases |rest|
  {
    hide Step;
    var ops := [x] + rest;
    if rest == [] {
      assert ops[..0] == [] && ops == [x];
      assert Run(c, p, ops[..0]) == p;
    } else {
      var n := |rest| - 1;
      assert ops[..n + 1] == [x] + rest[..n];
      RunFrom(c, p, x, rest[..n]);
    }
  }

  /** The PDO after restoring it and loading everything but the mapping words: as saved, but with
      eight empty mappings and no length. */
  function Prepared(p: Pdo, q: Pdo): Pdo {
    RestoredMap(q).(cobid := p.cobid, syncCounter := if ValidCobId(p.cobid) then 0 else q.syncCounter,
                    queued := !ValidCobId(p.cobid) && q.queued,
                    transmission := p.transmission, inhibit := p.inhibit, eventTimer := p.eventTimer,
                    syncStart := p.syncStart, bitlength := 0, count := p.count,
                    syncWait := q.syncWait || IsCyclic(p.syncStart), monitoring := false)
  }

  lemma CobIdLoaded(c: Context, p: Pdo, a: Pdo)
    requires Savable(c, p) && a.cobid == RestoredId(p.number, c.rx, c.node)
    ensures Step(c, true, a, Comm(1, p.cobid)).1
         == a.(cobid := p.cobid, syncCounter := if ValidCobId(p.cobid) then 0 else a.syncCounter,
               queued := !ValidCobId(p.cobid) && a.queued)
  {
    hide ValidCobId, Mappable, RestoredId;
  }

  lemma ParametersLoaded(c: Context, p: Pdo, a: Pdo)
    requires Savable(c, p) && a.syncStart == 0
    ensures var b := Step(c, true, a, Comm(2, p.transmission)).1;
            var d := Step(c, true, Step(c, true, b, Comm(3, p.inhibit)).1, Comm(5, p.eventTimer)).1;
            Step(c, true, d, Comm(6, p.syncStart)).1
            == a.(transmission := p.transmission, inhibit := p.inhibit, eventTimer := p.eventTimer,
                  syncStart := p.syncStart)
  {
    hide Mappable, ValidTransmission;
    var b := Step(c, true, a, Comm(2, p.transmission)).1;
    assert b == a.(transmission := p.transmission);
  }

  lemma CommLoaded(c: Context, p: Pdo, q: Pdo)
    requires Savable(c, p) && p.number == q.number
    ensures var a := Step(c, true, Step(c, true, q, RestoreComm).1, RestoreMap).1;
            var b := Step(c, true, Step(c, true, a, Comm(1, p.cobid)).1, Comm(2, p.transmission)).1;
            var d := Step(c, true, Step(c, true, b, Comm(3, p.inhibit)).1, Comm(5, p.eventTimer)).1;
            Step(c, true, d, Comm(6, p.syncStart)).1
            == Prepared(p, q).(bitlength := q.bitlength, count := MAX_PDO_ENTRIES, syncWait := q.syncWait,
                               monitoring := q.monitoring)
  {
    var a := Step(c, true, Step(c, true, q, RestoreComm).1, RestoreMap).1;
    assert a == RestoredMap(RestoredComm(q, c.rx, c.node));
    hide ValidCobId, Mappable, CommSet, Savable, ValidTransmission;
    CobIdLoaded(c, p, a);
    ParametersLoaded(c, p, Step(c, true, a, Comm(1, p.cobid)).1);
  }

  lemma CountLoaded(c: Context, p: Pdo, q: Pdo)
    requires Savable(c, p)
    ensures Step(c, true, Prepared(p, q).(bitlength := q.bitlength, count := MAX_PDO_ENTRIES, syncWait := q.syncWait,
                                          monitoring := q.monitoring), Map(0, p.count)).1 == Prepared(p, q)
  {
    hide ValidCobId, Mappable, Bitlength, IsCyclic;
    NothingMappedUpTo(RestoredMap(q).slots, p.count);
  }

  /** The words written so far, over what the slots held. */
  function Overlaid(c: Context, slots: Slots, p: Pdo, k: nat): (r: Slots)
    requires k <= MAX_PDO_ENTRIES
    ensures forall i | 0 <= i < MAX_PDO_ENTRIES ::
              var (abort, found) := Mappable(c.od, c.rx, p.slots[i].mapping);
              r[i] == if i < k && abort == 0 then Slot(p.slots[i].mapping, found) else slots[i]
  {
    seq(MAX_PDO_ENTRIES, i requires 0 <= i < MAX_PDO_ENTRIES =>
      var (abort, found) := Mappable(c.od, c.rx, p.slots[i].mapping);
      if i < k && abort == 0 then Slot(p.slots[i].mapping, found) else slots[i])
  }

  lemma WordLoaded(c: Context, r: Pdo, k: nat, m: U32)
    requires 1 <= k <= MAX_PDO_ENTRIES
    ensures var (abort, found) := Mappable(c.od, c.rx, m);
            Step(c, true, r, Map(k, m)).1
            == if abort == 0 then r.(slots := r.slots[k - 1 := Slot(m, found)]) else r
  {
    hide Mappable, Bitlength;
  }

  lemma NextOverlaid(c: Context, slots: Slots, p: Pdo, k: nat)
    requires 1 <= k <= MAX_PDO_ENTRIES
    ensures var (abort, found) := Mappable(c.od, c.rx, p.slots[k - 1].mapping);
            var before := Overlaid(c, slots, p, k - 1);
            Overlaid(c, slots, p, k)
            == if abort == 0 then before[k - 1 := Slot(p.slots[k - 1].mapping, found)] else before
  {
    hide Mappable;
  }

  lemma {:induction false} WordsLoaded(c: Context, r: Pdo, p: Pdo, k: nat)
    requires k <= MAX_PDO_ENTRIES
    ensures Run(c, r, Words(p, k)) == r.(slots := Overlaid(c, r.slots, p, k))
  {
    hide Mappable, Step, Overlaid;
    if k == 0 {
      assert Overlaid(c, r.slots, p, 0) == r.slots;
    } else {
      WordsLoaded(c, r, p, k - 1);
      var ops := Words(p, k);
      assert ops[..|ops| - 1] == Words(p, k - 1);
      WordLoaded(c, r.(slots := Overlaid(c, r.slots, p, k - 1)), k, p.slots[k - 1].mapping);
      NextOverlaid(c, r.slots, p, k);
    }
  }

  /** A word of zero maps nothing. */
  lemma ZeroWord(c: Context)
    requires OdOk(c.od)
    ensures Mappable(c.od, c.rx, 0).0 != 0
  {
    assert forall o | o in c.od :: o.index >= 1;
  }

  /** After the reset of any PDO of the same number, with what was saved for `p` loaded, the
      communication parameters, the count and the mapping words are those of `p`, and every word
      in use has been looked up afresh. The count is written before the words it counts, so the
      length is zero; starting the PDO makes it that of the mapping if the PDO is enabled. */
  lemma ReloadRestores(c: Context, p: Pdo, q: Pdo)
    requires OdOk(c.od) && Savable(c, p) && p.number == q.number
    ensures var e := Run(c, q, Reload(c.rx, p));
            && e.cobid == p.cobid && e.transmission == p.transmission && e.inhibit == p.inhibit
            && e.eventTimer == p.eventTimer && e.syncStart == p.syncStart && e.count == p.count && e.bitlength == 0
            && (forall i | 0 <= i < MAX_PDO_ENTRIES ::
                  && e.slots[i].mapping == p.slots[i].mapping
                  && (e.slots[i].mapping != 0 ==> Agrees(c, e.slots[i])))
            && (forall i | 0 <= i < MAX_PDO_ENTRIES && Agrees(c, p.slots[i]) :: e.slots[i] == p.slots[i])
  {
    hide Run, Step, Mappable, Prepared, Words, Overlaid;
    var s1 := Step(c, true, q, RestoreComm).1;
    var s2 := Step(c, true, s1, RestoreMap).1;
    var s3 := Step(c, true, s2, Comm(1, p.cobid)).1;
    var s4 := Step(c, true, s3, Comm(2, p.transmission)).1;
    var s5 := Step(c, true, s4, Comm(3, p.inhibit)).1;
    var s6 := Step(c, true, s5, Comm(5, p.eventTimer)).1;
    var s7 := Step(c, true, s6, Comm(6, p.syncStart)).1;
    var w8 := Words(p, MAX_PDO_ENTRIES);
    var w7 := [(true, Map(0, p.count))] + w8;
    var w6 := if c.rx then w7 else [(true, Comm(6, p.syncStart))] + w7;
    var w5 := [(true, Comm(5, p.eventTimer))] + w6;
    var w4 := [(true, Comm(3, p.inhibit))] + w5;
    var w3 := [(true, Comm(2, p.transmission))] + w4;
    var w2 := [(true, Comm(1, p.cobid))] + w3;
    var w1 := [(true, RestoreMap)] + w2;
    assert Reload(c.rx, p) == [(true, RestoreComm)] + w1;
    NoSyncStart(c, s6, p.syncStart);
    RunFrom(c, q, (true, RestoreComm), w1);
    RunFrom(c, s1, (true, RestoreMap), w2);
    RunFrom(c, s2, (true, Comm(1, p.cobid)), w3);
    RunFrom(c, s3, (true, Comm(2, p.transmission)), w4);
    RunFrom(c, s4, (true, Comm(3, p.inhibit)), w5);
    RunFrom(c, s5, (true, Comm(5, p.eventTimer)), w6);
    if !c.rx {
      RunFrom(c, s6, (true, Comm(6, p.syncStart)), w7);
    }
    RunFrom(c, s7, (true, Map(0, p.count)), w8);
    CommLoaded(c, p, q);
    CountLoaded(c, p, q);
    WordsLoaded(c, Prepared(p, q), p, MAX_PDO_ENTRIES);
    PreparedIs(p, q);
    ZeroWord(c);
  }

  lemma NoSyncStart(c: Context, p: Pdo, value: U32)
    ensures c.rx ==> Step(c, true, p, Comm(6, value)).1 == p
  {
  }

  lemma PreparedIs(p: Pdo, q: Pdo)
    ensures var r := Prepared(p, q);
            && r.cobid == p.cobid && r.transmission == p.transmission && r.inhibit == p.inhibit
            && r.eventTimer == p.eventTimer && r.syncStart == p.syncStart && r.count == p.count && r.bitlength == 0
            && forall i | 0 <= i < MAX_PDO_ENTRIES :: r.slots[i].mapping == 0
  {
  }

  /** Started, such a PDO is consistent exactly if its mapping fits and it is enabled, or nothing
      is mapped. */
  lemma ReloadedAndStarted(c: Context, p: Pdo, q: Pdo)
    requires OdOk(c.od) && Savable(c, p) && p.number == q.number
    ensures var e := Step(c, false, Run(c, q, Reload(c.rx, p)), Start).1;
            && e.bitlength == (if Enabled(p) then Mapped(p) else 0)
            && (Consistent(e) <==> if Enabled(p) then Mapped(p) <= 64 else Mapped(p) == 0)
  {
    hide Run, Reload, Agrees;
    ReloadRestores(c, p, q);
    var e := Run(c, q, Reload(c.rx, p));
    SameWords(e.slots, p.slots, p.count);
    hide Bitlength;
  }

  lemma {:induction false} SameWords(a: Slots, b: Slots, n: nat)
    requires n <= MAX_PDO_ENTRIES && forall i | 0 <= i < MAX_PDO_ENTRIES :: a[i].mapping == b[i].mapping
    ensures Bitlength(a[..n]) == Bitlength(b[..n])
  {
    if n > 0 {
      SameWords(a, b, n - 1);
      assert a[..n][..n - 1] == a[..n - 1] && b[..n][..n - 1] == b[..n - 1];
    }
  }
}
