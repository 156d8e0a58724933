/** What a reset tells access functions and callbacks: restores, defaults and saved values, in
    that order (src/co_od.c). */
module StoreEvents {
  import opened Bytes
  import opened Dictionary
  import opened Values
  import opened Persistence
  import opened StoreLoad
  import R = ResetOrder

  // ----- loading

  /** A record of a value this dictionary keeps, and that is set as a number. */
  predicate SetByLoad(od: seq<Obj>, r: Rec) {
    Find(od, r.key).Some? && Storable(Find(od, r.key).value.1) && |r.data| <= 8
  }

  /** What the access functions are told when a record is read: the low 32 bits of the number. */
  function RecordTells(od: seq<Obj>, r: Rec): seq<AccessEvent> {
    if SetByLoad(od, r) && Find(od, r.key).value.0.access
    then [Written(r.key.index, r.key.subindex, Le(r.data) % 0x1_0000_0000)] else []
  }

  function RecordsTell(od: seq<Obj>, rs: seq<Rec>): seq<AccessEvent> {
    if rs == [] then [] else RecordTells(od, rs[0]) + RecordsTell(od, rs[1..])
  }

  /** The callbacks made for a record. */
  function RecordNotifies(od: seq<Obj>, r: Rec): seq<Key> {
    if SetByLoad(od, r)
       && var (o, e) := Find(od, r.key).value; e.notify && (o.access || Width(e.datatyp) != 0)
    then [r.key] else []
  }

  function RecordsNotify(od: seq<Obj>, rs: seq<Rec>): seq<Key> {
    if rs == [] then [] else RecordNotifies(od, rs[0]) + RecordsNotify(od, rs[1..])
  }

  lemma ApplyTells(env: Env, st: Store, r: Rec)
    requires OdOk(env.od) && Apply(env, st, r).Some?
    ensures var st' := Apply(env, st, r).value;
            && st'.log == st.log + RecordTells(env.od, r)
            && st'.notified == st.notified + RecordNotifies(env.od, r)
  {
    hide OdOk, ObjFind, EntryFind, SetAt, Le, Resize;
    if SetByLoad(env.od, r) {
      FindSpec(env.od, r.key);
      var (o, e) := Find(env.od, r.key).value;
      ExtendedNumber(r.data);
      SetWrites(env, st, o, e, r.key.subindex, r.key, Resize(r.data, 8));
    }
  }

  lemma {:induction false} ApplyAllTells(env: Env, st: Store, rs: seq<Rec>)
    requires OdOk(env.od)
    ensures var st' := ApplyAll(env, st, rs);
            && st'.log == st.log + RecordsTell(env.od, Reached(env, rs))
            && st'.notified == st.notified + RecordsNotify(env.od, Reached(env, rs))
    decreases |rs|
  {
    hide OdOk, Apply, Blocks, RecordTells, RecordNotifies;
    if rs != [] {
      BlocksIff(env, st, rs[0]);
      if !Blocks(env, rs[0]) {
        ApplyTells(env, st, rs[0]);
        ApplyAllTells(env, Apply(env, st, rs[0]).value, rs[1..]);
        var reached := Reached(env, rs);
        assert reached[0] == rs[0] && reached[1..] == Reached(env, rs[1..]);
      }
    }
  }

  /** Loading a saved file tells the access functions exactly the saved numbers that this
      dictionary keeps, modulo 2^32, in the order of the file, as far as it is read; and notifies
      exactly the values set so. */
  lemma LoadTells(a: Env, sa: Store, b: Env, sb: Store, min: nat, max: nat, tail: Data)
    requires OdOk(a.od) && StoreOk(a.od, sa.mem) && AllReadable(a, sa, OdSlots(a.od, min, max))
    requires OdOk(b.od) && StoreOk(b.od, sb.mem)
    ensures var rs := Records(a, sa, OdSlots(a.od, min, max));
            var st := LoadFile(b, sb, File(rs) + tail).1;
            && st.log == sb.log + RecordsTell(b.od, Reached(b, rs))
            && st.notified == sb.notified + RecordsNotify(b.od, Reached(b, rs))
  {
    hide OdOk, StoreOk, AllReadable, OdSlots, Records, LoadFile, File, ApplyAll, Reached, RecOk, Saved, SavedData;
    hide RecordsTell, RecordsNotify;
    var rs := Records(a, sa, OdSlots(a.od, min, max));
    RecordsSpec(a, sa, min, max);
    LoadFileOfRecords(b, sb, rs, tail);
    ApplyAllTells(b, sb, rs);
  }

  // ----- the rest of a reset

  /** The access functions restored: those of the range, in the order of the table. */
  function Restores(od: seq<Obj>, min: nat, max: nat): seq<AccessEvent> {
    if od == [] then []
    else
      var init, last := od[..|od| - 1], od[|od| - 1];
      Restores(init, min, max) + if last.access && min <= last.index <= max then [Restored(last.index)] else []
  }

  lemma {:induction false} RestoreEventsAppend(a: seq<Obj>, b: seq<Obj>, min: nat, max: nat)
    ensures RestoreEvents(a + b, min, max) == RestoreEvents(a, min, max) + RestoreEvents(b, min, max)
  {
    if a == [] {
      assert a + b == b;
    } else {
      assert (a + b)[1..] == a[1..] + b;
      RestoreEventsAppend(a[1..], b, min, max);
    }
  }

  lemma {:induction false} RestoreEventsAre(od: seq<Obj>, min: nat, max: nat)
    ensures RestoreEvents(od, min, max) == Restores(od, min, max)
    decreases |od|
  {
    if od != [] {
      var init, last := od[..|od| - 1], od[|od| - 1];
      assert od == init + [last];
      RestoreEventsAppend(init, [last], min, max);
      RestoreEventsAre(init, min, max);
      assert [last][1..] == [];
    }
  }

  /** What a default tells: any value there is, also one that may not be written. */
  function DefaultTells(od: seq<Obj>, d: Default, min: nat, max: nat): seq<AccessEvent> {
    var k := Key(d.index, d.subindex);
    if min <= d.index <= max && Find(od, k).Some? && Find(od, k).value.0.access
    then [Written(d.index, d.subindex, Le(d.value) % 0x1_0000_0000)] else []
  }

  function DefaultsTell(od: seq<Obj>, items: seq<Default>, min: nat, max: nat): seq<AccessEvent> {
    if items == [] then [] else DefaultTells(od, items[0], min, max) + DefaultsTell(od, items[1..], min, max)
  }

  function DefaultNotifies(od: seq<Obj>, d: Default, min: nat, max: nat): seq<Key> {
    var k := Key(d.index, d.subindex);
    if min <= d.index <= max && Find(od, k).Some?
       && var (o, e) := Find(od, k).value; e.notify && (o.access || Width(e.datatyp) != 0)
    then [k] else []
  }

  function DefaultsNotify(od: seq<Obj>, items: seq<Default>, min: nat, max: nat): seq<Key> {
    if items == [] then [] else DefaultNotifies(od, items[0], min, max) + DefaultsNotify(od, items[1..], min, max)
  }

  lemma SetDefaultTells(env: Env, st: Store, d: Default, min: nat, max: nat)
    requires OdOk(env.od)
    ensures SetDefault(env, st, d, min, max).log == st.log + DefaultTells(env.od, d, min, max)
    ensures SetDefault(env, st, d, min, max).notified == st.notified + DefaultNotifies(env.od, d, min, max)
  {
    hide OdOk, ObjFind, EntryFind, SetAt, Le;
    var k := Key(d.index, d.subindex);
    if Find(env.od, k).Some? {
      FindSpec(env.od, k);
      var (o, e) := Find(env.od, k).value;
      SetWrites(env, st, o, e, d.subindex, k, d.value);
    }
  }

  lemma {:induction false} SetDefaultsTell(env: Env, st: Store, items: seq<Default>, min: nat, max: nat)
    requires OdOk(env.od)
    ensures SetDefaults(env, st, items, min, max).log == st.log + DefaultsTell(env.od, items, min, max)
    ensures SetDefaults(env, st, items, min, max).notified == st.notified + DefaultsNotify(env.od, items, min, max)
    decreases |items|
  {
    hide OdOk, SetDefault, DefaultTells, DefaultNotifies;
    if items != [] {
      SetDefaultTells(env, st, items[0], min, max);
      SetDefaultsTell(env, SetDefault(env, st, items[0], min, max), items[1..], min, max);
    }
  }

  /** A reset tells the access functions of the range, in this order: to restore, then their
      defaults, then the saved numbers. Defaults and saved numbers are notified. */
  lemma ResetTells(env: Env, st: Store, a: Env, sa: Store, min: nat, max: nat)
    requires OdOk(env.od) && StoreOk(env.od, st.mem)
    requires OdOk(a.od) && StoreOk(a.od, sa.mem) && AllReadable(a, sa, OdSlots(a.od, min, max))
    ensures var rs := Records(a, sa, OdSlots(a.od, min, max));
            var end := Reset(env, st, Some(File(rs)), min, max);
            && end.log == st.log + Restores(env.od, min, max) + DefaultsTell(env.od, env.defaults, min, max)
                          + RecordsTell(env.od, Reached(env, rs))
            && end.notified == st.notified + DefaultsNotify(env.od, env.defaults, min, max)
                               + RecordsNotify(env.od, Reached(env, rs))
  {
    hide OdOk, StoreOk, AllReadable, OdSlots, Records, LoadFile, File, Reached, SetDefaults, ZeroMem, RestoreEvents;
    hide Restores, DefaultsTell, DefaultsNotify, RecordsTell, RecordsNotify;
    var rs := Records(a, sa, OdSlots(a.od, min, max));
    RestoreEventsAre(env.od, min, max);
    SetDefaultsTell(env, Zero(env, st, min, max), env.defaults, min, max);
    R.InitialAt(env, st, min, max, Key(0, 0));
    LoadTells(a, sa, env, SetDefaults(env, Zero(env, st, min, max), env.defaults, min, max), min, max, []);
    assert File(rs) + [] == File(rs);
  }
}
