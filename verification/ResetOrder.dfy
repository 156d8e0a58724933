/** What a value holds after a reset: the saved value, else the last default, else zero. */
module ResetOrder {
  import opened Bytes
  import opened Dictionary
  import opened Persistence
  import opened StoreLoad

  /** The last default value listed for a key. */
  function LastDefault(items: seq<Default>, k: Key): Option<U64>
    decreases |items|
  {
    if items == [] then None
    else
      var last := items[|items| - 1];
      if Key(last.index, last.subindex) == k then Some(last.value) else LastDefault(items[..|items| - 1], k)
  }

  /** An entry after zeroing and defaults; strings ignore their default. */
  function Initial(e: Entry, default: Option<U64>, was: Data): Data {
    if default.Some? && Width(e.datatyp) != 0 then default.value[..Width(e.datatyp)]
    else if e.writable then Zeros(ByteLength(e.bitlength))
    else was
  }

  lemma SetDefaultAt(env: Env, st: Store, d: Default, min: nat, max: nat, k: Key)
    requires OdOk(env.od)
    ensures Memory(SetDefault(env, st, d, min, max), k)
         == if Key(d.index, d.subindex) == k && min <= k.index <= max && Plain(env.od, k)
               && Width(Find(env.od, k).value.1.datatyp) != 0
            then d.value[..Width(Find(env.od, k).value.1.datatyp)]
            else Memory(st, k)
  {
    if Find(env.od, Key(d.index, d.subindex)).Some? {
      FindSpec(env.od, Key(d.index, d.subindex));
    }
    hide OdOk, ObjOk, Find, EntryFind;
  }

  lemma {:induction false} SetDefaultsSnoc(env: Env, st: Store, items: seq<Default>, d: Default, min: nat, max: nat)
    ensures SetDefaults(env, st, items + [d], min, max)
         == SetDefault(env, SetDefaults(env, st, items, min, max), d, min, max)
    decreases |items|
  {
    hide SetDefault;
    if items == [] {
      assert [d][1..] == [];
      assert items + [d] == [d];
    } else {
      assert (items + [d])[1..] == items[1..] + [d];
      SetDefaultsSnoc(env, SetDefault(env, st, items[0], min, max), items[1..], d, min, max);
    }
  }

  lemma {:induction false} SetDefaultsAt(env: Env, st: Store, items: seq<Default>, min: nat, max: nat, k: Key)
    requires OdOk(env.od)
    ensures Memory(SetDefaults(env, st, items, min, max), k)
         == if LastDefault(items, k).Some? && min <= k.index <= max && Plain(env.od, k)
               && Width(Find(env.od, k).value.1.datatyp) != 0
            then LastDefault(items, k).value[..Width(Find(env.od, k).value.1.datatyp)]
            else Memory(st, k)
    decreases |items|
  {
    hide OdOk, Find, Plain, SetDefault, Memory;
    if items != [] {
      var init, last := items[..|items| - 1], items[|items| - 1];
      assert items == init + [last];
      SetDefaultsSnoc(env, st, init, last, min, max);
      SetDefaultsAt(env, st, init, min, max, k);
      SetDefaultAt(env, SetDefaults(env, st, init, min, max), last, min, max, k);
    }
  }

  lemma {:induction false} ZeroMemAt(od: seq<Obj>, mem: map<Key, Data>, min: nat, max: nat, k: Key)
    requires OdOk(od) && k in mem
    ensures k in ZeroMem(od, mem, min, max)
    ensures ZeroMem(od, mem, min, max)[k]
         == if Plain(od, k) && min <= k.index <= max && Find(od, k).value.1.writable
            then Zeros(ByteLength(Find(od, k).value.1.bitlength)) else mem[k]
    decreases |od|
  {
    hide ObjOk, EntryFind;
    if od != [] {
      var mem' := if InRange(od[0], min, max) && !od[0].access then ZeroObj(od[0], mem) else mem;
      ZeroMemAt(od[1..], mem', min, max, k);
      if od[0].index == k.index {
        assert ObjFind(od[1..], k.index).None?;
      }
    }
  }

  lemma {:induction false} ZeroKeepsStore(od: seq<Obj>, mem: map<Key, Data>, min: nat, max: nat)
    requires OdOk(od) && StoreOk(od, mem)
    ensures StoreOk(od, ZeroMem(od, mem, min, max))
  {
    forall k | Find(od, k).Some?
      ensures k in ZeroMem(od, mem, min, max)
      ensures |ZeroMem(od, mem, min, max)[k]| == ByteLength(Find(od, k).value.1.bitlength)
    {
      ZeroMemAt(od, mem, min, max, k);
    }
  }

  lemma {:induction false} SetDefaultsKeepStore(env: Env, st: Store, items: seq<Default>, min: nat, max: nat)
    requires OdOk(env.od) && StoreOk(env.od, st.mem)
    ensures StoreOk(env.od, SetDefaults(env, st, items, min, max).mem)
    decreases |items|
  {
    hide OdOk, StoreOk, SetValue;
    if items != [] {
      var d := items[0];
      if Find(env.od, Key(d.index, d.subindex)).Some? {
        FindSpec(env.od, Key(d.index, d.subindex));
        var (o, e) := Find(env.od, Key(d.index, d.subindex)).value;
        SetValueKeepsStore(env, st, o, e, d.subindex, d.value);
      }
      hide Find;
      SetDefaultsKeepStore(env, SetDefault(env, st, d, min, max), items[1..], min, max);
    }
  }

  /** Zeroing followed by defaults, key by key; the result can be loaded into. */
  lemma InitialAt(env: Env, st: Store, min: nat, max: nat, k: Key)
    requires OdOk(env.od) && StoreOk(env.od, st.mem)
    ensures var st' := SetDefaults(env, Zero(env, st, min, max), env.defaults, min, max);
            && StoreOk(env.od, st'.mem)
            && Memory(st', k)
               == if Plain(env.od, k) && min <= k.index <= max
                  then Initial(Find(env.od, k).value.1, LastDefault(env.defaults, k), Memory(st, k))
                  else Memory(st, k)
  {
    ZeroKeepsStore(env.od, st.mem, min, max);
    ZeroOutside(env.od, st.mem, min, max);
    assert Find(env.od, k).Some? ==> k in st.mem;
    if k in st.mem {
      ZeroMemAt(env.od, st.mem, min, max, k);
    }
    hide OdOk, StoreOk, Find, ZeroMem, RestoreEvents;
    SetDefaultsKeepStore(env, Zero(env, st, min, max), env.defaults, min, max);
    SetDefaultsAt(env, Zero(env, st, min, max), env.defaults, min, max, k);
  }

  lemma {:induction false} ZeroOutside(od: seq<Obj>, mem: map<Key, Data>, min: nat, max: nat)
    ensures ZeroMem(od, mem, min, max).Keys == mem.Keys
    decreases |od|
  {
    if od != [] {
      hide EntryFind;
      ZeroOutside(od[1..], if InRange(od[0], min, max) && !od[0].access then ZeroObj(od[0], mem) else mem, min, max);
    }
  }

  /** The precedence of a reset, for a file saved under any dictionary `a`: the saved value if
      there is one this dictionary keeps, else the last default truncated to the width of the
      entry, else zero, and read-only values without a default stay. */
  lemma {:induction false} ResetPrecedence(env: Env, st: Store, a: Env, sa: Store, min: nat, max: nat, k: Key)
    requires OdOk(env.od) && StoreOk(env.od, st.mem)
    requires OdOk(a.od) && StoreOk(a.od, sa.mem) && AllReadable(a, sa, OdSlots(a.od, min, max))
    ensures var file := File(Records(a, sa, OdSlots(a.od, min, max)));
            var st' := Reset(env, st, Some(file), min, max);
            && StoreOk(env.od, st'.mem)
            && Memory(st', k)
               == if !Plain(env.od, k) || !(min <= k.index <= max) then Memory(st, k)
                  else
                    var e := Find(env.od, k).value.1;
                    var initial := Initial(e, LastDefault(env.defaults, k), Memory(st, k));
                    if Arrives(a, sa, env, min, max, k) then Loaded(e, initial, SavedData(a, sa, k)) else initial
  {
    hide OdOk, StoreOk, Arrives, AllReadable, OdSlots, Records, Zero, SetDefaults, LoadFile, File, Find;
    hide Loaded, Initial, Memory, SavedData;
    var file := File(Records(a, sa, OdSlots(a.od, min, max)));
    assert file + [] == file;
    InitialAt(env, st, min, max, k);
    ArrivesIsSaved(a, sa, env, min, max, k);
    StoreThenLoad(a, sa, env, SetDefaults(env, Zero(env, st, min, max), env.defaults, min, max), min, max, [], k);
  }

  /** Two results are alike for a key if they agree on it, or have both left it alone. */
  predicate Alike(k: Key, s1: Store, t1: Store, s2: Store, t2: Store) {
    Memory(t1, k) == Memory(t2, k) || (Memory(t1, k) == Memory(s1, k) && Memory(t2, k) == Memory(s2, k))
  }

  /** Whether a record loads, and what it does to a key, does not depend on what is there. */
  lemma LoadOneAlike(env: Env, s1: Store, s2: Store, rest: Data, k: Key)
    requires OdOk(env.od)
    ensures var r1, r2 := LoadOne(env, s1, rest), LoadOne(env, s2, rest);
            if r1.None? then r2.None?
            else r2.Some? && r1.value.1 == r2.value.1 && Alike(k, s1, r1.value.0, s2, r2.value.0)
  {
    hide OdOk, Apply, Memory, Find, Blocks, Le;
    if |rest| >= 3 + SIZE_T {
      var key := Key(Le(rest[..2]), rest[2]);
      var size := Le(rest[3..3 + SIZE_T]);
      var body := rest[3 + SIZE_T..];
      if size > 0 && |body| >= size {
        ApplyAlike(env, s1, s2, Rec(key, body[..size]), k);
      }
    }
  }

  lemma ApplyAlike(env: Env, s1: Store, s2: Store, r: Rec, k: Key)
    requires OdOk(env.od)
    ensures Apply(env, s1, r).None? <==> Apply(env, s2, r).None?
    ensures Apply(env, s1, r).Some? ==> Alike(k, s1, Apply(env, s1, r).value, s2, Apply(env, s2, r).value)
  {
    hide OdOk, Apply, Memory, Find, Blocks;
    BlocksIff(env, s1, r);
    BlocksIff(env, s2, r);
    if Apply(env, s1, r).Some? {
      ApplyAt(env, s1, r, k);
      ApplyAt(env, s2, r, k);
    }
  }

  lemma {:induction false} LoadAllAlike(env: Env, s1: Store, s2: Store, rest: Data, n: nat, k: Key)
    requires OdOk(env.od)
    ensures Alike(k, s1, LoadAll(env, s1, rest, n).1, s2, LoadAll(env, s2, rest, n).1)
    decreases n
  {
    hide OdOk, LoadOne, Memory;
    if n > 0 {
      LoadOneAlike(env, s1, s2, rest, k);
      if LoadOne(env, s1, rest).Some? {
        var (t1, rest') := LoadOne(env, s1, rest).value;
        LoadAllAlike(env, t1, LoadOne(env, s2, rest).value.0, rest', n - 1, k);
      }
    }
  }

  lemma LoadFileAlike(env: Env, s1: Store, s2: Store, file: Data, k: Key)
    requires OdOk(env.od)
    ensures Alike(k, s1, LoadFile(env, s1, file).1, s2, LoadFile(env, s2, file).1)
  {
    hide OdOk, LoadAll, Memory, Le;
    if |file| >= SIZE_T {
      LoadAllAlike(env, s1, s2, file[SIZE_T..], Le(file[..SIZE_T]), k);
    }
  }

  lemma {:induction false} LoadAllKeepsStore(env: Env, st: Store, rest: Data, n: nat)
    requires OdOk(env.od) && StoreOk(env.od, st.mem)
    ensures StoreOk(env.od, LoadAll(env, st, rest, n).1.mem)
    decreases n
  {
    hide OdOk, StoreOk, LoadOne;
    if n > 0 {
      LoadOneKeepsStore(env, st, rest);
      if LoadOne(env, st, rest).Some? {
        LoadAllKeepsStore(env, LoadOne(env, st, rest).value.0, LoadOne(env, st, rest).value.1, n - 1);
      }
    }
  }

  lemma LoadOneKeepsStore(env: Env, st: Store, rest: Data)
    requires OdOk(env.od) && StoreOk(env.od, st.mem)
    ensures LoadOne(env, st, rest).Some? ==> StoreOk(env.od, LoadOne(env, st, rest).value.0.mem)
  {
    hide OdOk, StoreOk, Apply, Le;
    if |rest| >= 3 + SIZE_T {
      var key := Key(Le(rest[..2]), rest[2]);
      var size := Le(rest[3..3 + SIZE_T]);
      var body := rest[3 + SIZE_T..];
      if size > 0 && |body| >= size {
        ApplyKeepsStore(env, st, Rec(key, body[..size]));
      }
    }
  }

  lemma ResetKeepsStore(env: Env, st: Store, file: Option<Data>, min: nat, max: nat)
    requires OdOk(env.od) && StoreOk(env.od, st.mem)
    ensures StoreOk(env.od, Reset(env, st, file, min, max).mem)
  {
    InitialAt(env, st, min, max, Key(0, 0));
    hide OdOk, StoreOk, LoadAll, SetDefaults, Zero, Find, Le;
    if file.Some? && |file.value| >= SIZE_T {
      var st' := SetDefaults(env, Zero(env, st, min, max), env.defaults, min, max);
      LoadAllKeepsStore(env, st', file.value[SIZE_T..], Le(file.value[..SIZE_T]));
    }
  }

  /** Resetting twice is resetting once, whatever the store file holds, and without one. */
  lemma ResetIdempotent(env: Env, st: Store, file: Option<Data>, min: nat, max: nat, k: Key)
    requires OdOk(env.od) && StoreOk(env.od, st.mem)
    ensures Memory(Reset(env, Reset(env, st, file, min, max), file, min, max), k)
         == Memory(Reset(env, st, file, min, max), k)
  {
    hide OdOk, StoreOk, LoadFile, Find, Memory, SetDefaults, Zero, Plain;
    var once := Reset(env, st, file, min, max);
    ResetKeepsStore(env, st, file, min, max);
    InitialAt(env, st, min, max, k);
    InitialAt(env, once, min, max, k);
    if file.Some? {
      LoadFileAlike(env, SetDefaults(env, Zero(env, st, min, max), env.defaults, min, max),
                    SetDefaults(env, Zero(env, once, min, max), env.defaults, min, max), file.value, k);
    }
  }

  lemma OwnFileArrives(env: Env, sa: Store, min: nat, max: nat, k: Key)
    requires OdOk(env.od) && StoreOk(env.od, sa.mem) && AllReadable(env, sa, OdSlots(env.od, min, max))
    ensures Arrives(env, sa, env, min, max, k) <==> Saved(env, min, max, k)
  {
    hide OdOk, StoreOk, AllReadable, OdSlots, Records, LoadFile, File, Find, Memory, SavedData, Arrives, Saved;
    hide Obstructed;
    forall k'
      ensures !Obstructed(env, sa, env, min, max, k')
    {
      NotObstructed(env, sa, env, min, max, k');
    }
    StoreThenLoad(env, sa, env, sa, min, max, [], k);
    ArrivesIsSaved(env, sa, env, min, max, k);
  }

  /** The three layers in numbers, for an integer of a dictionary reset from its own file. */
  lemma IntegerAfterReset(env: Env, st: Store, sa: Store, min: nat, max: nat, k: Key)
    requires OdOk(env.od) && StoreOk(env.od, st.mem)
    requires StoreOk(env.od, sa.mem) && AllReadable(env, sa, OdSlots(env.od, min, max))
    requires Plain(env.od, k) && min <= k.index <= max
    requires Find(env.od, k).value.1.writable && Width(Find(env.od, k).value.1.datatyp) != 0
    ensures var e := Find(env.od, k).value.1;
            var st' := Reset(env, st, Some(File(Records(env, sa, OdSlots(env.od, min, max)))), min, max);
            Le(Memory(st', k))
            == if !e.transient then Le(Memory(sa, k))
               else if LastDefault(env.defaults, k).Some?
               then Le(LastDefault(env.defaults, k).value) % Pow256(Width(e.datatyp))
               else 0
  {
    hide OdOk, StoreOk, Arrives, AllReadable, OdSlots, Records, Reset, File, Find, Memory, SavedData;
    ResetPrecedence(env, st, env, sa, min, max, k);
    SavedIsMemory(env, sa, k);
    OwnFileArrives(env, sa, min, max, k);
    var e := Find(env.od, k).value.1;
    var w := Width(e.datatyp);
    if e.transient {
      if LastDefault(env.defaults, k).Some? {
        var v := LastDefault(env.defaults, k).value;
        assert v[..w] == Resize(v, w);
        LeOfResize(v, w);
      } else {
        LeOfZeros(w);
      }
    } else {
      assert Resize(Memory(sa, k), w) == Memory(sa, k);
    }
  }

  lemma {:induction false} LeOfZeros(n: nat)
    ensures Le(Zeros(n)) == 0
  {
    if n > 0 {
      assert Zeros(n)[1..] == Zeros(n - 1);
      LeOfZeros(n - 1);
    }
  }
}
