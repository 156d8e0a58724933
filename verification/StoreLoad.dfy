/** Saving and loading undo each other, even when the dictionary changed in between, and the
    reset has a fixed precedence. */
module StoreLoad {
  import opened Bytes
  import opened Dictionary
  import opened Values
  import opened Persistence

  /** The one record that stops a load: a value of more than 64 bits, kept at the same size, of an
      object with an access function. */
  predicate Blocks(env: Env, r: Rec) {
    && Find(env.od, r.key).Some?
    && var (o, e) := Find(env.od, r.key).value;
    Storable(e) && |r.data| > 8 && |r.data| == ByteLength(e.bitlength) && o.access
  }

  /** The records before the first that blocks. */
  function Reached(env: Env, rs: seq<Rec>): (r: seq<Rec>)
    ensures |r| <= |rs| && r == rs[..|r|]
  {
    if rs == [] || Blocks(env, rs[0]) then [] else [rs[0]] + Reached(env, rs[1..])
  }

  lemma {:induction false} ReachesAllIff(env: Env, rs: seq<Rec>)
    ensures |Reached(env, rs)| == |rs| <==> forall x | x in rs :: !Blocks(env, x)
  {
    hide Blocks;
    if rs != [] {
      assert rs == [rs[0]] + rs[1..] && rs[0] in rs;
      ReachesAllIff(env, rs[1..]);
    }
  }

  function ApplyAll(env: Env, st: Store, rs: seq<Rec>): Store
    decreases |rs|
  {
    if rs == [] then st
    else
      match Apply(env, st, rs[0])
      case None => st
      case Some(st') => ApplyAll(env, st', rs[1..])
  }

  lemma BlocksIff(env: Env, st: Store, r: Rec)
    ensures Apply(env, st, r).None? <==> Blocks(env, r)
  {
    hide Find, SetValue;
  }

  lemma LoadOneOfEncode(env: Env, st: Store, r: Rec, tail: Data)
    requires RecOk(r)
    ensures LoadOne(env, st, Encode(r) + tail)
         == match Apply(env, st, r) case None => None case Some(st') => Some((st', tail))
  {
    hide Apply;
    Pow256Values();
    LeOfToLeFits(r.key.index, 2);
    LeOfToLeFits(|r.data|, SIZE_T);
    SplitRecord(ToLe(r.key.index, 2), r.key.subindex, ToLe(|r.data|, SIZE_T), r.data, tail);
  }

  /** A record on file: index, subindex and size, least significant byte first, and the bytes of the
      value. */
  lemma RecordLayout(r: Rec)
    requires RecOk(r)
    ensures var d := Encode(r);
            && |d| == 11 + |r.data|
            && d[0] + 0x100 * (d[1] as int) == r.key.index && d[2] == r.key.subindex
            && Le(d[3..11]) == |r.data| && d[11..] == r.data
  {
    hide Le, ToLe;
    Pow256Values();
    LeOfToLeFits(r.key.index, 2);
    LeOfToLeFits(|r.data|, SIZE_T);
    var index := ToLe(r.key.index, 2);
    SplitRecord(index, r.key.subindex, ToLe(|r.data|, SIZE_T), r.data, []);
    assert Encode(r) + [] == Encode(r);
    assert index == [index[0], index[1]];
    TwoBytes(index[0], index[1]);
  }

  lemma TwoBytes(a: Byte, b: Byte)
    ensures Le([a, b]) == a + 0x100 * (b as int)
  {
    assert [a, b][1..] == [b] && Le([b]) == b;
  }

  /** A file: the number of records in eight bytes, and one after the other. */
  lemma FileLayout(rs: seq<Rec>)
    requires |rs| < 0x1_0000_0000_0000_0000
    ensures var d := File(rs);
            |d| >= 8 && Le(d[..8]) == |rs| && d[8..] == EncodeAll(rs)
  {
    hide Le, ToLe, EncodeAll;
    Pow256Values();
    LeOfToLeFits(|rs|, SIZE_T);
  }

  /** Whatever is on file, reading a record fails exactly if its header or its value is incomplete,
      its size is zero, or it blocks; otherwise reading goes on right behind it. */
  lemma LoadOneFailsIff(env: Env, st: Store, rest: Data)
    ensures var one := LoadOne(env, st, rest);
            && (one.Some? <==> && |rest| >= 11 && 1 <= Le(rest[3..11]) <= |rest| - 11
                               && !Blocks(env, Rec(Key(Le(rest[..2]), rest[2]), rest[11..][..Le(rest[3..11])])))
            && (one.Some? ==> one.value.1 == rest[11 + Le(rest[3..11])..])
  {
    hide Le, Apply, Blocks;
    if |rest| >= 11 && 1 <= Le(rest[3..11]) <= |rest| - 11 {
      BlocksIff(env, st, Rec(Key(Le(rest[..2]), rest[2]), rest[11..][..Le(rest[3..11])]));
    }
  }

  lemma SplitRecord(index: Data, subindex: Byte, size: Data, data: Data, tail: Data)
    requires |index| == 2 && |size| == SIZE_T
    ensures var file := ((index + [subindex] + size) + data) + tail;
            && |file| == 3 + SIZE_T + |data| + |tail|
            && file[..2] == index && file[2] == subindex && file[3..3 + SIZE_T] == size
            && file[3 + SIZE_T..][..|data|] == data && file[3 + SIZE_T..][|data|..] == tail
  {
    var file := ((index + [subindex] + size) + data) + tail;
    assert file[3 + SIZE_T..] == data + tail;
  }

  /** Loading what was saved never loses alignment: it reads record after record, every byte
      written and no more, up to the first that blocks. */
  lemma {:induction false} LoadAllOfEncode(env: Env, st: Store, rs: seq<Rec>, tail: Data)
    requires forall r | r in rs :: RecOk(r)
    ensures var n := |Reached(env, rs)|;
            LoadAll(env, st, EncodeAll(rs) + tail, |rs|)
            == (n == |rs|, ApplyAll(env, st, rs), EncodeAll(rs[n..]) + tail)
    decreases |rs|
  {
    hide Apply, Encode, LoadOne, Blocks, EncodeAll;
    if rs == [] {
      NothingLeft(tail);
    } else {
      EncodeAllNext(rs);
      var rest := EncodeAll(rs[1..]) + tail;
      Assoc(Encode(rs[0]), EncodeAll(rs[1..]), tail);
      LoadOneOfEncode(env, st, rs[0], rest);
      BlocksIff(env, st, rs[0]);
      if !Blocks(env, rs[0]) {
        LoadAllOfEncode(env, Apply(env, st, rs[0]).value, rs[1..], tail);
        DropShift(rs, |Reached(env, rs[1..])|);
      }
    }
  }

  lemma EncodeAllNext(rs: seq<Rec>)
    requires rs != []
    ensures EncodeAll(rs) == Encode(rs[0]) + EncodeAll(rs[1..])
  {
  }

  lemma DropShift(rs: seq<Rec>, n: nat)
    requires n < |rs|
    ensures rs[1..][n..] == rs[n + 1..] && rs[0..] == rs
  {
  }

  /** What loading `saved` leaves in an entry that held `was`: integers are zero-extended or
      truncated, values above 64 bits are copied when the size is unchanged, anything else -
      strings of up to 64 bits included - is left alone. */
  function Loaded(e: Entry, was: Data, saved: Data): Data {
    if !Storable(e) then was
    else if |saved| <= 8 then if Width(e.datatyp) != 0 then Resize(saved, Width(e.datatyp)) else was
    else if |saved| == ByteLength(e.bitlength) then saved
    else was
  }

  predicate Plain(od: seq<Obj>, k: Key) {
    Find(od, k).Some? && !Find(od, k).value.0.access
  }

  lemma ApplyAt(env: Env, st: Store, r: Rec, k: Key)
    requires OdOk(env.od) && Apply(env, st, r).Some?
    ensures Memory(Apply(env, st, r).value, k)
         == if r.key == k && Plain(env.od, k) then Loaded(Find(env.od, k).value.1, Memory(st, k), r.data)
            else Memory(st, k)
  {
    if Find(env.od, r.key).Some? {
      FindSpec(env.od, r.key);
      hide OdOk, ObjOk, ObjFind, EntryFind, Find;
      var (o, e) := Find(env.od, r.key).value;
      var w := Width(e.datatyp);
      assert Resize(r.data, 8)[..w] == Resize(r.data, w);
    }
  }

  ghost predicate DistinctKeys(rs: seq<Rec>) {
    forall i, j | 0 <= i < j < |rs| :: rs[i].key != rs[j].key
  }

  /** The value of every key after loading distinct records. */
  lemma {:induction false} ApplyAllAt(env: Env, st: Store, rs: seq<Rec>, k: Key)
    requires OdOk(env.od) && DistinctKeys(rs)
    ensures var st' := ApplyAll(env, st, rs);
            && (forall r | r in Reached(env, rs) && r.key == k && Plain(env.od, k) ::
                  Memory(st', k) == Loaded(Find(env.od, k).value.1, Memory(st, k), r.data))
            && ((!Plain(env.od, k) || forall r | r in Reached(env, rs) :: r.key != k)
                ==> Memory(st', k) == Memory(st, k))
    decreases |rs|
  {
    hide Apply, OdOk, Find, Loaded, Plain, Memory, Blocks;
    if rs != [] {
      BlocksIff(env, st, rs[0]);
      if !Blocks(env, rs[0]) {
        ApplyAt(env, st, rs[0], k);
        ApplyAllAt(env, Apply(env, st, rs[0]).value, rs[1..], k);
        var later := Reached(env, rs[1..]);
        assert forall r | r in later :: r in rs[1..];
        assert forall r | r in rs[1..] :: r.key != rs[0].key;
      }
    }
  }

  lemma {:induction false} ApplyAllKeepsStore(env: Env, st: Store, rs: seq<Rec>)
    requires OdOk(env.od) && StoreOk(env.od, st.mem)
    ensures StoreOk(env.od, ApplyAll(env, st, rs).mem)
    decreases |rs|
  {
    hide OdOk, StoreOk, Apply;
    if rs != [] {
      ApplyKeepsStore(env, st, rs[0]);
      if Apply(env, st, rs[0]).Some? {
        ApplyAllKeepsStore(env, Apply(env, st, rs[0]).value, rs[1..]);
      }
    }
  }

  // ----- saving under one dictionary, loading under another

  /** The saved value of a key, if the range contains one. */
  predicate Saved(env: Env, min: nat, max: nat, k: Key) {
    min <= k.index <= max && Find(env.od, k).Some? && Storable(Find(env.od, k).value.1)
  }

  /** What is saved of a key: its bytes in storage above 64 bits, and below the number read. */
  function SavedData(env: Env, st: Store, k: Key): Data
    requires Find(env.od, k).Some?
  {
    var (o, e) := Find(env.od, k).value;
    var size := ByteLength(e.bitlength);
    if size > 8 then Memory(st, k) else ToLe(Number(env, st, o, e, k.subindex), size)
  }

  /** Everything can be read: no access function refuses, and none is asked for a long value. */
  predicate Readable(env: Env, st: Store, s: Slot) {
    if ByteLength(s.entry.bitlength) > 8 then !s.obj.access else ReadCode(env, st, s.obj, s.subindex) == 0
  }

  lemma PayloadIs(env: Env, st: Store, s: Slot)
    ensures Payload(env, st, s).0 == 0 <==> Readable(env, st, s)
    ensures Readable(env, st, s) ==>
              var size := ByteLength(s.entry.bitlength);
              Payload(env, st, s).1
              == if size > 8 then Memory(st, SlotKey(s)) else ToLe(Number(env, st, s.obj, s.entry, s.subindex), size)
  {
    hide GetValue, ReadCode, Number, ToLe;
    if ByteLength(s.entry.bitlength) <= 8 {
      ReadsBytes(env, st, s.obj, s.entry, s.subindex, ByteLength(s.entry.bitlength));
    }
  }

  /** A range can be saved exactly if each of its values can be read. */
  lemma AllReadableIff(env: Env, st: Store, min: nat, max: nat)
    requires OdOk(env.od)
    ensures AllReadable(env, st, OdSlots(env.od, min, max))
       <==> forall s: Slot | s.obj in env.od && min <= s.obj.index <= max && StorableSlot(s) :: Readable(env, st, s)
  {
    hide StorableSlot, Payload, Readable, OdSlots, ObjOk;
    OdSlotsSpec(env.od, min, max);
    forall s
      ensures Payload(env, st, s).0 == 0 <==> Readable(env, st, s)
    {
      PayloadIs(env, st, s);
    }
    var slots := OdSlots(env.od, min, max);
    if AllReadable(env, st, slots) {
      forall s | s in slots
        ensures Readable(env, st, s)
      {
        var i :| 0 <= i < |slots| && slots[i] == s;
      }
    }
  }

  lemma SlotOfKey(env: Env, min: nat, max: nat, k: Key)
    requires OdOk(env.od) && Saved(env, min, max, k)
    ensures Slot(Find(env.od, k).value.0, Find(env.od, k).value.1, k.subindex) in OdSlots(env.od, min, max)
  {
    OdSlotsSpec(env.od, min, max);
    FindSpec(env.od, k);
  }

  lemma KeyOfSlot(env: Env, min: nat, max: nat, s: Slot)
    requires OdOk(env.od) && s in OdSlots(env.od, min, max)
    ensures Saved(env, min, max, SlotKey(s)) && Find(env.od, SlotKey(s)) == Some((s.obj, s.entry))
    ensures EntryOk(s.entry) && SlotKey(s).index < 0x10000 && s.subindex < 255
  {
    OdSlotsSpec(env.od, min, max);
    ObjFindMember(env.od, s.obj);
    EntryFindSpec(s.obj, s.subindex);
  }

  /** The records in a saved file: one for each saved key, no more. */
  lemma RecordsSpec(env: Env, st: Store, min: nat, max: nat)
    requires OdOk(env.od) && StoreOk(env.od, st.mem)
    requires AllReadable(env, st, OdSlots(env.od, min, max))
    ensures var rs := Records(env, st, OdSlots(env.od, min, max));
            && DistinctKeys(rs)
            && |rs| < 0x1_0000_0000_0000_0000
            && (forall r | r in rs :: RecOk(r) && Saved(env, min, max, r.key) && r.data == SavedData(env, st, r.key))
            && (forall k | Saved(env, min, max, k) :: Rec(k, SavedData(env, st, k)) in rs)
  {
    RecordsDistinct(env, st, min, max);
    var slots := OdSlots(env.od, min, max);
    var rs := Records(env, st, slots);
    hide OdSlots, OdOk, StoreOk, Payload, Find, StorableSlot, DistinctKeys, RecOk, Saved, SavedData, SlotKey;
    forall r | r in rs
      ensures RecOk(r) && Saved(env, min, max, r.key) && r.data == SavedData(env, st, r.key)
    {
      var i :| 0 <= i < |rs| && rs[i] == r;
      RecordSpec(env, st, min, max, slots[i]);
    }
    forall k | Saved(env, min, max, k)
      ensures Rec(k, SavedData(env, st, k)) in rs
    {
      RecordOfKey(env, st, min, max, k);
    }
  }

  lemma RecordsDistinct(env: Env, st: Store, min: nat, max: nat)
    requires OdOk(env.od)
    ensures var rs := Records(env, st, OdSlots(env.od, min, max));
            DistinctKeys(rs) && |rs| < 0x1_0000_0000_0000_0000
  {
    hide Payload, StorableSlot, ObjOk;
    OdSlotsSpec(env.od, min, max);
    assert |env.od| < 0x10000;
    hide OdOk, OdSlots;
  }

  lemma RecordOfKey(env: Env, st: Store, min: nat, max: nat, k: Key)
    requires OdOk(env.od) && Saved(env, min, max, k) && AllReadable(env, st, OdSlots(env.od, min, max))
    ensures Rec(k, SavedData(env, st, k)) in Records(env, st, OdSlots(env.od, min, max))
  {
    hide OdSlots, OdOk, Payload, Find, StorableSlot, Readable, Number, ToLe;
    SlotOfKey(env, min, max, k);
    FindSpec(env.od, k);
    PayloadIs(env, st, Slot(Find(env.od, k).value.0, Find(env.od, k).value.1, k.subindex));
    var slots := OdSlots(env.od, min, max);
    var i :| 0 <= i < |slots| && slots[i] == Slot(Find(env.od, k).value.0, Find(env.od, k).value.1, k.subindex);
    assert Records(env, st, slots)[i] == Rec(k, SavedData(env, st, k));
  }

  lemma RecordSpec(env: Env, st: Store, min: nat, max: nat, s: Slot)
    requires OdOk(env.od) && StoreOk(env.od, st.mem)
    requires s in OdSlots(env.od, min, max) && Payload(env, st, s).0 == 0
    ensures var r := Rec(SlotKey(s), Payload(env, st, s).1);
            RecOk(r) && Saved(env, min, max, r.key) && r.data == SavedData(env, st, r.key)
  {
    KeyOfSlot(env, min, max, s);
    hide OdSlots, OdOk, Find, Payload, Readable, StorableSlot, Number, ToLe;
    PayloadIs(env, st, s);
  }

  lemma {:induction false} LoadFileOfRecords(env: Env, st: Store, rs: seq<Rec>, tail: Data)
    requires OdOk(env.od) && StoreOk(env.od, st.mem)
    requires |rs| < 0x1_0000_0000_0000_0000 && forall r | r in rs :: RecOk(r)
    ensures StoreOk(env.od, ApplyAll(env, st, rs).mem)
    ensures var n := |Reached(env, rs)|;
            LoadFile(env, st, File(rs) + tail) == (n == |rs|, ApplyAll(env, st, rs), EncodeAll(rs[n..]) + tail)
  {
    hide ApplyAll, EncodeAll, OdOk, StoreOk, LoadAll, Reached, RecOk, Blocks;
    ApplyAllKeepsStore(env, st, rs);
    LoadAllOfEncode(env, st, rs, tail);
    Pow256Values();
    LeOfToLeFits(|rs|, SIZE_T);
    SplitFile(ToLe(|rs|, SIZE_T), EncodeAll(rs), tail);
  }

  lemma SplitFile(count: Data, body: Data, tail: Data)
    requires |count| == SIZE_T
    ensures var file := (count + body) + tail;
            |file| >= SIZE_T && file[..SIZE_T] == count && file[SIZE_T..] == body + tail
  {
  }

  /** What A saved for a key is read before B's loading stops. */
  ghost predicate Arrives(a: Env, sa: Store, b: Env, min: nat, max: nat, k: Key) {
    Saved(a, min, max, k)
    && Rec(k, SavedData(a, sa, k)) in Reached(b, Records(a, sa, OdSlots(a.od, min, max)))
  }

  /** B keeps what A saved for a key, but has put an access function on a long value. */
  predicate Obstructed(a: Env, sa: Store, b: Env, min: nat, max: nat, k: Key) {
    Saved(a, min, max, k) && Blocks(b, Rec(k, SavedData(a, sa, k)))
  }

  /** A file saved under dictionary A loads under any dictionary B. It loads completely exactly if
      no key is obstructed, and then consumes every byte written and no other. In any case each
      key of B ends with A's value if A saved one that B keeps and that is read before loading
      stops, and with its old value otherwise. */
  lemma StoreThenLoad(a: Env, sa: Store, b: Env, sb: Store, min: nat, max: nat, tail: Data, k: Key)
    requires OdOk(a.od) && StoreOk(a.od, sa.mem) && AllReadable(a, sa, OdSlots(a.od, min, max))
    requires OdOk(b.od) && StoreOk(b.od, sb.mem)
    ensures var file := File(Records(a, sa, OdSlots(a.od, min, max)));
            var (ok, st, unread) := LoadFile(b, sb, file + tail);
            && (ok <==> forall k' :: !Obstructed(a, sa, b, min, max, k'))
            && (ok ==> unread == tail && (Saved(a, min, max, k) ==> Arrives(a, sa, b, min, max, k)))
            && StoreOk(b.od, st.mem)
            && Memory(st, k)
               == if Plain(b.od, k) && Arrives(a, sa, b, min, max, k)
                  then Loaded(Find(b.od, k).value.1, Memory(sb, k), SavedData(a, sa, k))
                  else Memory(sb, k)
  {
    hide OdSlots, Records, StoreOk, AllReadable, Find, Loaded, Memory, LoadFile, File, RecOk, Apply, OdOk, Blocks;
    hide Reached, ApplyAll, Saved, SavedData, EncodeAll;
    var rs := Records(a, sa, OdSlots(a.od, min, max));
    var reached := Reached(b, rs);
    RecordsSpec(a, sa, min, max);
    LoadFileOfRecords(b, sb, rs, tail);
    ApplyAllAt(b, sb, rs, k);
    assert forall r | r in reached :: r in rs;
    SavedHasData(a, k);
    if |reached| == |rs| {
      assert reached == rs && rs[|rs|..] == [];
      NothingLeft(tail);
    }
    ObstructedIff(a, sa, b, min, max);
    if exists r :: r in reached && r.key == k {
      var r :| r in reached && r.key == k;
      assert r == Rec(k, SavedData(a, sa, k));
    }
  }

  lemma SavedHasData(a: Env, k: Key)
    ensures forall min, max | Saved(a, min, max, k) :: Find(a.od, k).Some?
  {
  }

  lemma ArrivesIsSaved(a: Env, sa: Store, b: Env, min: nat, max: nat, k: Key)
    ensures Arrives(a, sa, b, min, max, k) ==> Saved(a, min, max, k) && min <= k.index <= max
  {
  }

  lemma NothingLeft(tail: Data)
    ensures EncodeAll([]) + tail == tail
  {
    assert EncodeAll([]) == [];
  }

  lemma ObstructedIff(a: Env, sa: Store, b: Env, min: nat, max: nat)
    requires OdOk(a.od) && StoreOk(a.od, sa.mem) && AllReadable(a, sa, OdSlots(a.od, min, max))
    ensures var rs := Records(a, sa, OdSlots(a.od, min, max));
            |Reached(b, rs)| == |rs| <==> forall k' :: !Obstructed(a, sa, b, min, max, k')
  {
    hide OdSlots, Records, StoreOk, AllReadable, Find, RecOk, OdOk, Blocks, SavedData, Saved;
    var rs := Records(a, sa, OdSlots(a.od, min, max));
    RecordsSpec(a, sa, min, max);
    ReachesAllIff(b, rs);
    if exists k' :: Obstructed(a, sa, b, min, max, k') {
      var k' :| Obstructed(a, sa, b, min, max, k');
      SavedHasData(a, k');
      assert Rec(k', SavedData(a, sa, k')) in rs;
    } else {
      forall r | r in rs
        ensures !Blocks(b, r)
      {
        SavedHasData(a, r.key);
        assert r == Rec(r.key, SavedData(a, sa, r.key));
        assert !Obstructed(a, sa, b, min, max, r.key);
      }
    }
  }

  /** A dictionary without long values behind access functions obstructs nothing; neither does
      one that could save the file itself. */
  lemma NotObstructed(a: Env, sa: Store, b: Env, min: nat, max: nat, k: Key)
    requires OdOk(a.od) && OdOk(b.od) && AllReadable(a, sa, OdSlots(a.od, min, max))
    requires NoLongAccess(b.od) || a.od == b.od
    ensures !Obstructed(a, sa, b, min, max, k)
  {
    if Obstructed(a, sa, b, min, max, k) {
      FindSpec(b.od, k);
      EntryFindSpec(Find(b.od, k).value.0, k.subindex);
      if a.od == b.od {
        SlotOfKey(a, min, max, k);
      }
    }
  }

  /** What is saved for a value in storage is its bytes, however it is read. */
  lemma SavedIsMemory(env: Env, st: Store, k: Key)
    requires OdOk(env.od) && StoreOk(env.od, st.mem) && Plain(env.od, k)
    ensures SavedData(env, st, k) == Memory(st, k) && |Memory(st, k)| == ByteLength(Find(env.od, k).value.1.bitlength)
    ensures EntryOk(Find(env.od, k).value.1)
  {
    FindSpec(env.od, k);
    hide OdOk, ObjOk, Find, ObjFind, EntryFind;
    var e := Find(env.od, k).value.1;
    if ByteLength(e.bitlength) <= 8 {
      StoredNumber(env, Memory(st, k), ByteLength(e.bitlength));
      Pow256Values();
      LeOfResize(Memory(st, k), 8);
    }
  }

  /** A value in storage is read as the number it stands for. */
  lemma StoredNumber(env: Env, d: Data, n: nat)
    requires |d| == n <= 8
    ensures ToLe(Le(Resize(d, 8)), n) == d && ToLe(Le((d + env.beyond)[..8]), n) == d
  {
    hide Le, ToLe;
    ToLeOfLe(Resize(d, 8), n);
    ToLeOfLe((d + env.beyond)[..8], n);
    assert Resize(Resize(d, 8), n) == d;
    assert Resize((d + env.beyond)[..8], n) == d;
  }

  /** In numbers: an integer kept by both dictionaries ends as A's value modulo B's width, once it
      is read. */
  lemma IntegerSurvives(a: Env, sa: Store, b: Env, sb: Store, min: nat, max: nat, k: Key)
    requires OdOk(a.od) && StoreOk(a.od, sa.mem) && AllReadable(a, sa, OdSlots(a.od, min, max))
    requires OdOk(b.od) && StoreOk(b.od, sb.mem)
    requires Plain(a.od, k) && Saved(a, min, max, k) && Width(Find(a.od, k).value.1.datatyp) != 0
    requires Plain(b.od, k) && Storable(Find(b.od, k).value.1) && Width(Find(b.od, k).value.1.datatyp) != 0
    ensures var st := LoadFile(b, sb, File(Records(a, sa, OdSlots(a.od, min, max)))).1;
            Le(Memory(st, k))
            == if Arrives(a, sa, b, min, max, k)
               then Le(Memory(sa, k)) % Pow256(Width(Find(b.od, k).value.1.datatyp)) else Le(Memory(sb, k))
  {
    hide OdOk, StoreOk, AllReadable, OdSlots, Records, LoadFile, File, Find, Memory, SavedData, Arrives;
    var file := File(Records(a, sa, OdSlots(a.od, min, max)));
    assert file + [] == file;
    StoreThenLoad(a, sa, b, sb, min, max, [], k);
    SavedIsMemory(a, sa, k);
    LeOfResize(Memory(sa, k), Width(Find(b.od, k).value.1.datatyp));
  }

  /** A string kept by both dictionaries at the same size comes back exactly when it is read
      and longer than 64 bits; a shorter one is written to the file but never restored. */
  lemma StringSurvivesIffLong(a: Env, sa: Store, b: Env, sb: Store, min: nat, max: nat, k: Key)
    requires OdOk(a.od) && StoreOk(a.od, sa.mem) && AllReadable(a, sa, OdSlots(a.od, min, max))
    requires OdOk(b.od) && StoreOk(b.od, sb.mem)
    requires Plain(a.od, k) && Saved(a, min, max, k) && Width(Find(a.od, k).value.1.datatyp) == 0
    requires Plain(b.od, k) && Storable(Find(b.od, k).value.1) && Width(Find(b.od, k).value.1.datatyp) == 0
    requires ByteLength(Find(a.od, k).value.1.bitlength) == ByteLength(Find(b.od, k).value.1.bitlength)
    requires Memory(sa, k) != Memory(sb, k)
    ensures var st := LoadFile(b, sb, File(Records(a, sa, OdSlots(a.od, min, max)))).1;
            var long := ByteLength(Find(a.od, k).value.1.bitlength) > 8 && Arrives(a, sa, b, min, max, k);
            && (Memory(st, k) == Memory(sa, k) <==> long)
            && (Memory(st, k) == Memory(sb, k) <==> !long)
  {
    hide OdOk, StoreOk, AllReadable, OdSlots, Records, LoadFile, File, Find, Memory, SavedData, Arrives;
    var file := File(Records(a, sa, OdSlots(a.od, min, max)));
    assert file + [] == file;
    StoreThenLoad(a, sa, b, sb, min, max, [], k);
    SavedIsMemory(a, sa, k);
  }
}
