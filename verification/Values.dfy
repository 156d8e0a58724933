/** What reading and setting a value of the dictionary mean, in numbers (src/co_od.c). */
module Values {
  import opened Bytes
  import opened Dictionary

  // ----- reading

  /** The access function of the object answers for this subindex. For subindex 0 it may leave the
      answer to the descriptor by refusing it as a bad subindex. */
  predicate Answered(env: Env, st: Store, o: Obj, subindex: nat) {
    o.access && (subindex == 0 ==> env.read(st.log, o.index, 0).0 != 0x0609_0011)
  }

  /** The abort code a read ends with. */
  function ReadCode(env: Env, st: Store, o: Obj, subindex: nat): U32 {
    if Answered(env, st, o, subindex) then env.read(st.log, o.index, subindex).0 else 0
  }

  /** The number read: what the access function answers, the integer in storage, or the first 64
      bits of a string. */
  function NumberAt(env: Env, st: Store, o: Obj, e: Entry, subindex: nat, at: Key): nat {
    if Answered(env, st, o, subindex) then env.read(st.log, o.index, subindex).1
    else if Width(e.datatyp) != 0 then Le(Memory(st, at)) % 0x1_0000_0000_0000_0000
    else Le((Memory(st, at) + env.beyond)[..8])
  }

  /** The same for an entry read under the subindex it was found by. */
  function Number(env: Env, st: Store, o: Obj, e: Entry, subindex: nat): nat {
    NumberAt(env, st, o, e, subindex, Key(o.index, subindex))
  }

  /** Reading gives that code, and that number as 64 bits. */
  lemma ReadsNumber(env: Env, st: Store, o: Obj, e: Entry, subindex: nat, at: Key)
    ensures var (abort, value) := GetAt(env, st, o, e, subindex, at);
            && abort == ReadCode(env, st, o, subindex)
            && value == ToLe(NumberAt(env, st, o, e, subindex, at), 8)
            && Le(value) == NumberAt(env, st, o, e, subindex, at)
  {
    hide Resize, Le, ToLe, Memory;
    Pow256Values();
    var (abort, v) := env.read(st.log, o.index, subindex);
    if Answered(env, st, o, subindex) {
      LeOfToLeFits(v, 4);
      LeOfResize(ToLe(v, 4), 8);
      ToLeOfLe(ToLe(v, 4), 8);
      ModUnique(v, 0x1_0000_0000_0000_0000, 0, v);
    } else if Width(e.datatyp) != 0 {
      LeOfResize(Memory(st, at), 8);
      AsSixtyFour(Resize(Memory(st, at), 8));
    } else {
      AsSixtyFour((Memory(st, at) + env.beyond)[..8]);
    }
  }

  lemma AsSixtyFour(d: U64)
    ensures ToLe(Le(d), 8) == d
  {
    ToLeOfLe(d, 8);
    assert Resize(d, 8) == d;
  }

  lemma {:induction false} ToLePrefix(v: nat, n: nat, m: nat)
    requires n <= m
    ensures ToLe(v, m)[..n] == ToLe(v, n)
  {
    if n > 0 {
      ToLePrefix(v / 256, n - 1, m - 1);
    }
  }

  /** Its low bytes are that number's. */
  lemma ReadsBytes(env: Env, st: Store, o: Obj, e: Entry, subindex: nat, n: nat)
    requires n <= 8
    ensures GetValue(env, st, o, e, subindex).1[..n] == ToLe(Number(env, st, o, e, subindex), n)
    ensures GetValue(env, st, o, e, subindex).0 == ReadCode(env, st, o, subindex)
  {
    hide ToLe, NumberAt, ReadCode, GetAt;
    ReadsNumber(env, st, o, e, subindex, Key(o.index, subindex));
    ToLePrefix(Number(env, st, o, e, subindex), n, 8);
  }

  /** Numbers are stored with the least significant byte first. */
  lemma LittleEndian(a: nat, b: nat, c: nat, d: nat)
    requires a < 256 && b < 256 && c < 256 && d < 256
    ensures Le([a, b, c, d]) == a + 0x100 * b + 0x1_0000 * c + 0x100_0000 * d
  {
    assert Le([d]) == d && [b, c, d][1..] == [c, d] && [a, b, c, d][1..] == [b, c, d] && [c, d][1..] == [d];
    assert Le([c, d]) == c + 0x100 * d;
    assert Le([b, c, d]) == b + 0x100 * c + 0x1_0000 * d;
  }

  /** Zero-extending to 64 bits keeps the number. */
  lemma ExtendedNumber(data: Data)
    requires |data| <= 8
    ensures Le(Resize(data, 8)) == Le(data)
  {
    hide Le, Resize;
    LeOfResize(data, 8);
    LeBound(data);
    Pow256Grows(|data|, 8);
    ModUnique(Le(data), Pow256(8), 0, Le(data));
  }

  lemma {:induction false} Pow256Grows(n: nat, m: nat)
    requires n <= m
    ensures Pow256(n) <= Pow256(m)
  {
    if n < m {
      Pow256Grows(n, m - 1);
    }
  }

  // ----- setting

  /** What setting a value to the number `n` does. An access function is told the low 32 bits and
      its verdict is the result; an integer is stored modulo its size; a string is refused. All
      but the last are notified, a refusal by the function included. */
  predicate Wrote(env: Env, st: Store, o: Obj, e: Entry, subindex: nat, at: Key, n: nat, abort: U32, end: Store) {
    var told := n % 0x1_0000_0000;
    var notified := st.notified + if e.notify then [Key(o.index, subindex)] else [];
    if o.access then
      && abort == env.write(st.log, o.index, subindex, told)
      && end == Store(st.mem, st.log + [Written(o.index, subindex, told)], notified)
    else if Width(e.datatyp) != 0 then
      && abort == 0 && end == Store(st.mem[at := Memory(end, at)], st.log, notified)
      && |Memory(end, at)| == Width(e.datatyp) && Le(Memory(end, at)) == n % Pow256(Width(e.datatyp))
    else abort == 0x0800_0000 && end == st
  }

  lemma SetWrites(env: Env, st: Store, o: Obj, e: Entry, subindex: nat, at: Key, value: U64)
    ensures var (abort, end) := SetAt(env, st, o, e, subindex, at, value);
            Wrote(env, st, o, e, subindex, at, Le(value), abort, end)
  {
    hide Resize, Le, Pow256;
    Pow256Values();
    var w := Width(e.datatyp);
    assert value[..4] == Resize(value, 4) && value[..w] == Resize(value, w);
    LeOfResize(value, 4);
    LeOfResize(value, w);
  }

  // ----- types

  /** Codes and sizes of the data types in CiA 301, section 7.4.7. */
  const DATA_TYPES: map<Byte, (DataType, nat)> :=
    map[0x01 := (Boolean, 1), 0x02 := (Integer8, 1), 0x03 := (Integer16, 2), 0x04 := (Integer32, 4),
        0x05 := (Unsigned8, 1), 0x06 := (Unsigned16, 2), 0x07 := (Unsigned32, 4), 0x08 := (Real32, 4),
        0x09 := (VisibleString, 0), 0x0A := (OctetString, 0), 0x0B := (UnicodeString, 0),
        0x11 := (Real64, 8), 0x15 := (Integer64, 8), 0x1B := (Unsigned64, 8)]

  /** Codes of the object types, section 7.4.3. */
  const OBJECT_TYPES: map<Byte, ObjType> :=
    map[0 := NullObj, 2 := Domain, 5 := DefType, 6 := DefStruct, 7 := Var, 8 := Array, 9 := Record]

  lemma TypeCodes(t: DataType, o: ObjType)
    ensures TypeCode(t) in DATA_TYPES && DATA_TYPES[TypeCode(t)] == (t, Width(t))
    ensures ObjCode(o) in OBJECT_TYPES && OBJECT_TYPES[ObjCode(o)] == o
  {
  }
}
