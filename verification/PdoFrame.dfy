/** Packing process data into the 64 bits of a CAN frame and back (src/co_pdo.c, CiA 301
    section 7.2.2). */
module PdoFrame {
  import opened Bytes
  import opened Bits
  import opened Dictionary
  import opened Values

  /** The data of a CAN frame. */
  type Payload = d: Data | |d| <= 8

  // ----- one field of the frame

  /** What bitslice_set leaves: the field, what was below it, and above it whatever was there
      mixed with the part of the value that is wider than the field. */
  function Deposit(data: Word64, offset: nat, length: nat, value: Word64): (r: Word64)
    ensures forall k | 0 <= k < 64 ::
              r[k] == if k < offset then data[k]
                      else if k < offset + length then value[k - offset]
                      else data[k] || value[k - offset]
  {
    seq(64, k requires 0 <= k < 64 =>
      if k < offset then data[k]
      else if k < offset + length then value[k - offset] else data[k] || value[k - offset])
  }

  /** The field alone, zero-extended. */
  function Extract(data: Word64, offset: nat, length: nat): (r: Word64)
    ensures forall k | 0 <= k < 64 :: r[k] == (k < length && offset + k < 64 && data[offset + k])
  {
    seq(64, k => 0 <= k < length && offset + k < 64 && data[offset + k])
  }

  method BitsliceGet(data: Word64, offset: nat, length: nat) returns (value: Word64)
    requires offset < 64 && length <= 64
    ensures value == Extract(data, offset, length)
  {
    var mask: Word64 := if length == 64 then Ones(64) else Decrement(Single(64, length));
    if length < 64 {
      LowMask(64, length);
    }
    value := And(Shr(data, offset), mask);
  }

  method BitsliceSet(data: Word64, offset: nat, length: nat, value: Word64) returns (data': Word64)
    requires offset < 64 && length <= 64
    ensures data' == Deposit(data, offset, length, value)
  {
    var mask: Word64 := if length == 64 then Ones(64) else Decrement(Single(64, length));
    if length < 64 {
      LowMask(64, length);
    }
    mask := Shl(mask, offset);
    data' := Or(And(data, Not(mask)), Shl(value, offset));
  }

  // ----- all fields

  datatype Field = Field(length: nat, value: Word64)

  function Total(fs: seq<Field>): nat {
    if fs == [] then 0 else Total(fs[..|fs| - 1]) + fs[|fs| - 1].length
  }

  /** The frame after writing the fields in order. */
  function Packed(frame: Word64, fs: seq<Field>): Word64 {
    if fs == [] then frame
    else
      var init, last := fs[..|fs| - 1], fs[|fs| - 1];
      Deposit(Packed(frame, init), Total(init), last.length, last.value)
  }

  lemma {:induction false} TotalUpTo(fs: seq<Field>, i: nat)
    requires i < |fs|
    ensures Total(fs[..i]) + fs[i].length <= Total(fs)
    decreases |fs|
  {
    if i < |fs| - 1 {
      assert fs[..|fs| - 1][..i] == fs[..i];
      TotalUpTo(fs[..|fs| - 1], i);
    }
  }

  /** Every field reads back as the low bits of its value, although the values are not masked:
      what spills out of a field only reaches fields that are written later. */
  lemma {:induction false} PackedBit(frame: Word64, fs: seq<Field>, i: nat, b: nat)
    requires Total(fs) <= 64 && i < |fs| && b < fs[i].length
    ensures Total(fs[..i]) + b < Total(fs)
    ensures Packed(frame, fs)[Total(fs[..i]) + b] == fs[i].value[b]
    decreases |fs|
  {
    var init := fs[..|fs| - 1];
    TotalUpTo(fs, i);
    if i < |fs| - 1 {
      assert init[..i] == fs[..i];
      TotalUpTo(init, i);
      PackedBit(frame, init, i, b);
    }
  }

  /** Some value has a one that lands on bit `k`, counting from where its field starts. */
  predicate Reaches(fs: seq<Field>, k: nat)
    requires k < 64
  {
    fs != []
    && var init, last := fs[..|fs| - 1], fs[|fs| - 1];
    (Reaches(init, k) || (Total(init) <= k && last.value[k - Total(init)]))
  }

  /** The bits past the last field are never cleared: they hold what was there before and
      anything that spilled so far. */
  lemma {:induction false} PackedBeyond(frame: Word64, fs: seq<Field>, k: nat)
    requires Total(fs) <= k < 64
    ensures Packed(frame, fs)[k] <==> frame[k] || Reaches(fs, k)
    decreases |fs|
  {
    if fs != [] {
      PackedBeyond(frame, fs[..|fs| - 1], k);
    }
  }

  /** Slot `i` of the frame is value `i` modulo 2^length. */
  lemma SlotIsValue(frame: Word64, fs: seq<Field>, i: nat)
    requires Total(fs) <= 64 && i < |fs|
    ensures Total(fs[..i]) + fs[i].length <= 64
    ensures var slot := Packed(frame, fs)[Total(fs[..i])..Total(fs[..i]) + fs[i].length];
            Num(slot) == Num(fs[i].value) % Pow2(fs[i].length)
  {
    hide Packed, Num, Pow2;
    TotalUpTo(fs, i);
    var n := fs[i].length;
    var slot := Packed(frame, fs)[Total(fs[..i])..Total(fs[..i]) + n];
    forall b: nat | b < n
      ensures slot[b] == fs[i].value[..n][b]
    {
      PackedBit(frame, fs, i, b);
    }
    assert slot == fs[i].value[..n];
    NumOfPrefix(fs[i].value, n);
  }

  // ----- mapped values

  /** A mapping word and the object and entry saved for it (none for padding). */
  datatype Slot = Slot(mapping: U32, found: Option<(Obj, Entry)>)

  function MappedIndex(m: U32): nat {
    m / 0x10000
  }

  function MappedSub(m: U32): Byte {
    m / 0x100 % 0x100
  }

  function MappedLength(m: U32): Byte {
    m % 0x100
  }

  /** Where the saved entry is stored: an array member by the mapped subindex, anything else where
      its descriptor points. */
  function SlotKey(s: Slot): Key
    requires s.found.Some?
  {
    var (o, e) := s.found.value;
    Key(o.index, if e.isArray then MappedSub(s.mapping) else e.subindex)
  }

  function ValueOf(env: Env, st: Store, s: Slot): Word64 {
    match s.found
    case None => Zero(64)
    case Some((o, e)) => BitsOf(GetAt(env, st, o, e, MappedSub(s.mapping), SlotKey(s)).1)
  }

  /** The number a slot carries: that of its value, zero for padding. */
  function NumberOf(env: Env, st: Store, s: Slot): nat {
    match s.found
    case None => 0
    case Some((o, e)) => NumberAt(env, st, o, e, MappedSub(s.mapping), SlotKey(s))
  }

  lemma ValueIsNumber(env: Env, st: Store, s: Slot)
    ensures Num(ValueOf(env, st, s)) == NumberOf(env, st, s)
  {
    hide Num, Zero, GetAt, NumberAt, BitsOf, SlotKey, ToLe;
    match s.found
    case None => NumOfZero(64);
    case Some((o, e)) =>
      ReadsNumber(env, st, o, e, MappedSub(s.mapping), SlotKey(s));
      NumOfBitsOf(GetAt(env, st, o, e, MappedSub(s.mapping), SlotKey(s)).1);
  }

  function Fields(env: Env, st: Store, slots: seq<Slot>): (fs: seq<Field>)
    ensures |fs| == |slots|
    ensures forall i | 0 <= i < |fs| :: fs[i] == Field(MappedLength(slots[i].mapping), ValueOf(env, st, slots[i]))
  {
    seq(|slots|, i requires 0 <= i < |slots| =>
      Field(MappedLength(slots[i].mapping), ValueOf(env, st, slots[i])))
  }

  function Deliver(env: Env, st: Store, s: Slot, value: Word64): Store {
    match s.found
    case None => st
    case Some((o, e)) => SetAt(env, st, o, e, MappedSub(s.mapping), SlotKey(s), BytesOf(value)).1
  }

  /** The store after writing one value to each slot in order. */
  function Delivered(env: Env, st: Store, slots: seq<Slot>, values: seq<Word64>): Store
    requires |values| == |slots|
  {
    if slots == [] then st
    else
      var n := |slots| - 1;
      Deliver(env, Delivered(env, st, slots[..n], values[..n]), slots[n], values[n])
  }

  /** The fields of a frame with the lengths of these slots. */
  function Contents(frame: Word64, slots: seq<Slot>): (vs: seq<Word64>)
    ensures |vs| == |slots|
  {
    if slots == [] then []
    else
      var n := |slots| - 1;
      Contents(frame, slots[..n]) + [Extract(frame, Bitlength(slots[..n]), MappedLength(slots[n].mapping))]
  }

  function Bitlength(slots: seq<Slot>): nat {
    if slots == [] then 0 else Bitlength(slots[..|slots| - 1]) + MappedLength(slots[|slots| - 1].mapping)
  }

  lemma {:induction false} TotalIsBitlength(env: Env, st: Store, slots: seq<Slot>)
    ensures Total(Fields(env, st, slots)) == Bitlength(slots)
    decreases |slots|
  {
    if slots != [] {
      FieldsInit(env, st, slots);
      TotalIsBitlength(env, st, slots[..|slots| - 1]);
    }
  }

  lemma {:induction false} LengthUpTo(slots: seq<Slot>, i: nat)
    requires i < |slots|
    ensures Bitlength(slots[..i]) + MappedLength(slots[i].mapping) <= Bitlength(slots)
    decreases |slots|
  {
    if i < |slots| - 1 {
      assert slots[..|slots| - 1][..i] == slots[..i];
      LengthUpTo(slots[..|slots| - 1], i);
    }
  }

  /** A full frame followed by a field of no bits. */
  predicate Overhang(slots: seq<Slot>) {
    slots != [] && Bitlength(slots) == 64 && MappedLength(slots[|slots| - 1].mapping) == 0
  }

  /** In a mapping that fits, every field starts inside the frame, as the assertions of packing
      demand, exactly if no field of no bits follows a full frame. */
  lemma StartsInsideIff(slots: seq<Slot>)
    requires Bitlength(slots) <= 64
    ensures (forall i | 0 <= i < |slots| :: Bitlength(slots[..i]) < 64) <==> !Overhang(slots)
  {
    var n := |slots| - 1;
    forall i: nat | i < |slots| && Bitlength(slots[..i]) >= 64
      ensures Overhang(slots)
    {
      LengthUpTo(slots, i);
      if i < n {
        assert slots[..n][..i] == slots[..i];
        LengthUpTo(slots[..n], i);
      }
    }
    if Overhang(slots) {
      assert Bitlength(slots[..n]) == 64;
    }
  }

  lemma FieldsInit(env: Env, st: Store, slots: seq<Slot>)
    requires slots != []
    ensures Fields(env, st, slots)[..|slots| - 1] == Fields(env, st, slots[..|slots| - 1])
  {
  }

  lemma {:induction false} ContentsAt(frame: Word64, slots: seq<Slot>, i: nat)
    requires i < |slots|
    ensures Contents(frame, slots)[i] == Extract(frame, Bitlength(slots[..i]), MappedLength(slots[i].mapping))
    decreases |slots|
  {
    var n := |slots| - 1;
    if i < n {
      assert slots[..n][..i] == slots[..i];
      ContentsAt(frame, slots[..n], i);
    }
  }

  // ----- between nodes

  predicate SameLengths(a: seq<Slot>, b: seq<Slot>) {
    && |a| == |b|
    && forall i | 0 <= i < |a| :: MappedLength(a[i].mapping) == MappedLength(b[i].mapping)
  }

  /** What a frame carries: the low bits of each value. */
  function Carried(fs: seq<Field>): (vs: seq<Word64>)
    ensures |vs| == |fs| && forall i | 0 <= i < |fs| :: vs[i] == Extract(fs[i].value, 0, fs[i].length)
  {
    seq(|fs|, i requires 0 <= i < |fs| => Extract(fs[i].value, 0, fs[i].length))
  }

  /** The bytes sent for a frame of `bitlength` bits, which is at most 64. */
  function Sent(frame: Word64, bitlength: nat): (d: Payload)
    ensures |d| == Min(8, ByteLength(bitlength))
  {
    BytesOf(frame)[..Min(8, ByteLength(bitlength))]
  }

  /** The frame after copying a message over it. */
  function Received(frame: Word64, msg: Payload): Word64
  {
    BitsOf(Patch(BytesOf(frame), 0, msg))
  }

  /** Every mapped bit survives the trip in the bytes that are sent. */
  lemma ReceivedBits(sender: Word64, receiver: Word64, bitlength: nat, k: nat)
    requires k < bitlength <= 64
    ensures Received(receiver, Sent(sender, bitlength))[k] == sender[k]
  {
    hide BytesOf, BitsOf;
    var n := ByteLength(bitlength);
    var data := Patch(BytesOf(receiver), 0, Sent(sender, bitlength));
    assert data[..n] == BytesOf(sender)[..n];
    BitsOfSlice(data, n);
    BitsOfSlice(BytesOf(sender), n);
    BitsOfBytesOf(sender);
    assert BitsOf(data)[..8 * n][k] == BitsOf(data)[k];
    assert sender[..8 * n][k] == sender[k];
  }

  lemma SameBitlength(a: seq<Slot>, b: seq<Slot>, i: nat)
    requires SameLengths(a, b) && i <= |a|
    ensures Bitlength(a[..i]) == Bitlength(b[..i])
  {
    if i > 0 {
      SameBitlength(a, b, i - 1);
      assert a[..i][..i - 1] == a[..i - 1] && b[..i][..i - 1] == b[..i - 1];
    }
  }

  lemma CarriedAt(frame: Word64, fs: seq<Field>, other: Word64, i: nat)
    requires Total(fs) <= 64 && i < |fs|
    requires forall k: nat | k < Total(fs) :: other[k] == Packed(frame, fs)[k]
    ensures Extract(other, Total(fs[..i]), fs[i].length) == Carried(fs)[i]
  {
    hide Packed, Total;
    TotalUpTo(fs, i);
    var x, y := Extract(other, Total(fs[..i]), fs[i].length), Carried(fs)[i];
    forall b: nat | b < 64
      ensures x[b] == y[b]
    {
      if b < fs[i].length {
        PackedBit(frame, fs, i, b);
      }
    }
  }

  lemma TotalPrefix(env: Env, st: Store, slots: seq<Slot>, i: nat)
    requires i <= |slots|
    ensures Total(Fields(env, st, slots)[..i]) == Bitlength(slots[..i])
  {
    assert Fields(env, st, slots)[..i] == Fields(env, st, slots[..i]);
    TotalIsBitlength(env, st, slots[..i]);
  }

  /** A frame packed by one node and received by another whose mapping has the same lengths
      contains exactly the carried values, whatever the receiver's buffer held. */
  lemma FrameCarries(env: Env, st: Store, tx: seq<Slot>, rx: seq<Slot>, sender: Word64, receiver: Word64)
    requires SameLengths(tx, rx) && Bitlength(tx) <= 64
    ensures var fs := Fields(env, st, tx);
            var msg := Sent(Packed(sender, fs), Bitlength(tx));
            Contents(Received(receiver, msg), rx) == Carried(fs)
  {
    hide Packed, Received, Sent, Contents, Total, Bitlength;
    var fs := Fields(env, st, tx);
    var frame := Packed(sender, fs);
    var other := Received(receiver, Sent(frame, Bitlength(tx)));
    TotalIsBitlength(env, st, tx);
    forall k: nat | k < Total(fs)
      ensures other[k] == frame[k]
    {
      ReceivedBits(frame, receiver, Bitlength(tx), k);
    }
    forall i: nat | i < |rx|
      ensures Contents(other, rx)[i] == Carried(fs)[i]
    {
      ContentsAt(other, rx, i);
      SameBitlength(tx, rx, i);
      TotalPrefix(env, st, tx, i);
      CarriedAt(sender, fs, other, i);
    }
  }

  // ----- what delivery does to a store

  /** The access functions told, in slot order, with the low 32 bits of each value. */
  function Told(slots: seq<Slot>, values: seq<Word64>): seq<AccessEvent>
    requires |values| == |slots|
  {
    if slots == [] then []
    else
      var n := |slots| - 1;
      Told(slots[..n], values[..n])
      + if slots[n].found.Some? && slots[n].found.value.0.access
        then [Written(slots[n].found.value.0.index, MappedSub(slots[n].mapping), Num(values[n]) % 0x1_0000_0000)]
        else []
  }

  /** The callbacks made, in slot order: for every value set that asks for it. */
  function Notified(slots: seq<Slot>): seq<Key> {
    if slots == [] then []
    else
      var n := |slots| - 1;
      Notified(slots[..n])
      + match slots[n].found
        case None => []
        case Some((o, e)) =>
          if e.notify && (o.access || Width(e.datatyp) != 0) then [Key(o.index, MappedSub(slots[n].mapping))] else []
  }

  /** Slots that write storage, and none twice. */
  predicate Stores(s: Slot) {
    s.found.Some? && !s.found.value.0.access && Width(s.found.value.1.datatyp) != 0
  }

  predicate DistinctKeys(slots: seq<Slot>) {
    forall i, j | 0 <= i < j < |slots| && Stores(slots[i]) && Stores(slots[j]) :: SlotKey(slots[i]) != SlotKey(slots[j])
  }

  lemma DeliverTells(env: Env, st: Store, s: Slot, value: Word64, k: Key)
    ensures Deliver(env, st, s, value).log
         == st.log + if s.found.Some? && s.found.value.0.access
                     then [Written(s.found.value.0.index, MappedSub(s.mapping), Num(value) % 0x1_0000_0000)] else []
    ensures Deliver(env, st, s, value).notified == st.notified + Notified([s])
    ensures !Stores(s) || SlotKey(s) != k ==> Memory(Deliver(env, st, s, value), k) == Memory(st, k)
  {
    hide BytesOf, Num;
    var d := BytesOf(value);
    LowLong(value);
    if s.found.Some? {
      var (o, e) := s.found.value;
      hide SetAt;
      SetWrites(env, st, o, e, MappedSub(s.mapping), SlotKey(s), d);
    }
  }

  lemma LowLong(value: Word64)
    ensures Le(BytesOf(value)) == Num(value)
  {
    BitsOfBytesOf(value);
    NumOfBitsOf(BytesOf(value));
  }

  /** Delivery tells access functions in order, and touches no storage that is not mapped. */
  lemma {:induction false} DeliveredFrame(env: Env, st: Store, slots: seq<Slot>, values: seq<Word64>, k: Key)
    requires |values| == |slots|
    ensures Delivered(env, st, slots, values).log == st.log + Told(slots, values)
    ensures Delivered(env, st, slots, values).notified == st.notified + Notified(slots)
    ensures (forall s | s in slots && Stores(s) :: SlotKey(s) != k)
            ==> Memory(Delivered(env, st, slots, values), k) == Memory(st, k)
    decreases |slots|
  {
    hide BytesOf, Deliver, Memory, Num;
    if slots != [] {
      var n := |slots| - 1;
      DeliveredFrame(env, st, slots[..n], values[..n], k);
      DeliverTells(env, Delivered(env, st, slots[..n], values[..n]), slots[n], values[n], k);
      assert forall s | s in slots[..n] :: s in slots;
      assert slots[n] in slots;
    }
  }

  /** Each mapped value ends up in its storage. */
  lemma {:induction false} DeliveredAt(env: Env, st: Store, slots: seq<Slot>, values: seq<Word64>, i: nat)
    requires |values| == |slots| && i < |slots| && DistinctKeys(slots) && Stores(slots[i])
    ensures Memory(Delivered(env, st, slots, values), SlotKey(slots[i]))
         == BytesOf(values[i])[..Width(slots[i].found.value.1.datatyp)]
    decreases |slots|
  {
    hide BytesOf;
    var n := |slots| - 1;
    if i < n {
      DeliveredAt(env, st, slots[..n], values[..n], i);
    }
  }

  /** Storage is wide enough for the slot, as the dictionary and the mapping check ensure. */
  predicate WideEnough(s: Slot) {
    Stores(s) ==> MappedLength(s.mapping) <= 8 * Width(s.found.value.1.datatyp)
  }

  lemma BytesOfField(value: Word64, length: nat, width: nat)
    requires length <= 8 * width <= 64
    ensures Le(BytesOf(Extract(value, 0, length))[..width]) == Num(value) % Pow2(length)
  {
    hide BytesOf, BitsOf, Num, Pow2, Le;
    var x := Extract(value, 0, length);
    var d := BytesOf(x)[..width];
    BitsOfBytesOf(x);
    BitsOfSlice(BytesOf(x), width);
    NumOfBitsOf(d);
    assert x[..8 * width] == value[..length] + Zero(8 * width - length);
    NumOfConcat(value[..length], Zero(8 * width - length));
    NumOfZero(8 * width - length);
    NumOfPrefix(value, length);
  }

  lemma {:induction false} NumOfZero(n: nat)
    ensures Num(Zero(n)) == 0
  {
    if n > 0 {
      NumOfZero(n - 1);
      assert Zero(n)[1..] == Zero(n - 1);
    }
  }

  /** The access functions a transfer tells: the sender's numbers modulo the size of their fields,
      as 32 bits. */
  function TransferTells(env: Env, st: Store, tx: seq<Slot>, rx: seq<Slot>): seq<AccessEvent>
    requires |tx| == |rx|
  {
    if rx == [] then []
    else
      var n := |rx| - 1;
      TransferTells(env, st, tx[..n], rx[..n])
      + if rx[n].found.Some? && rx[n].found.value.0.access
        then [Written(rx[n].found.value.0.index, MappedSub(rx[n].mapping),
                      NumberOf(env, st, tx[n]) % Pow2(MappedLength(tx[n].mapping)) % 0x1_0000_0000)]
        else []
  }

  lemma {:induction false} CarriedTells(env: Env, st: Store, tx: seq<Slot>, rx: seq<Slot>)
    requires |tx| == |rx| && forall s | s in tx :: MappedLength(s.mapping) <= 64
    ensures Told(rx, Carried(Fields(env, st, tx))) == TransferTells(env, st, tx, rx)
    decreases |rx|
  {
    hide Num, Pow2, NumberOf, ValueOf;
    if rx != [] {
      var n := |rx| - 1;
      assert forall s | s in tx[..n] :: s in tx;
      CarriedTells(env, st, tx[..n], rx[..n]);
      assert Carried(Fields(env, st, tx))[..n] == Carried(Fields(env, st, tx[..n]));
      assert tx[n] in tx;
      NumOfExtract(ValueOf(env, st, tx[n]), MappedLength(tx[n].mapping));
      ValueIsNumber(env, st, tx[n]);
    }
  }

  lemma NumOfExtract(value: Word64, length: nat)
    requires length <= 64
    ensures Num(Extract(value, 0, length)) == Num(value) % Pow2(length)
  {
    hide Num, Pow2;
    assert Extract(value, 0, length) == value[..length] + Zero(64 - length);
    NumOfConcat(value[..length], Zero(64 - length));
    NumOfZero(64 - length);
    NumOfPrefix(value, length);
  }

  lemma {:induction false} EachFits(slots: seq<Slot>)
    requires Bitlength(slots) <= 64
    ensures forall s | s in slots :: MappedLength(s.mapping) <= 64
  {
    forall i | 0 <= i < |slots|
      ensures MappedLength(slots[i].mapping) <= 64
    {
      LengthUpTo(slots, i);
    }
  }

  /** Process data round trip: pack on one node, receive and unpack on another with the same
      lengths. Every mapped integer becomes the sender's number modulo 2^length, access functions
      are told the carried numbers in order, the values set are notified, and nothing else
      changes; padding carries nothing. */
  lemma ProcessDataRoundTrip(
    env: Env, st: Store, tx: seq<Slot>, sender: Word64,
    env': Env, st': Store, rx: seq<Slot>, receiver: Word64)
    requires SameLengths(tx, rx) && Bitlength(tx) <= 64
    requires DistinctKeys(rx) && forall s | s in rx :: WideEnough(s)
    ensures var fs := Fields(env, st, tx);
            var frame := Received(receiver, Sent(Packed(sender, fs), Bitlength(tx)));
            var end := Delivered(env', st', rx, Contents(frame, rx));
            && (forall i | 0 <= i < |rx| && Stores(rx[i]) ::
                  Le(Memory(end, SlotKey(rx[i]))) == NumberOf(env, st, tx[i]) % Pow2(MappedLength(tx[i].mapping)))
            && (forall k | forall s | s in rx && Stores(s) :: SlotKey(s) != k :: Memory(end, k) == Memory(st', k))
            && end.log == st'.log + TransferTells(env, st, tx, rx)
            && end.notified == st'.notified + Notified(rx)
  {
    hide Packed, Received, Sent, Contents, Delivered, Told, Memory, Le, Num, Pow2, ValueOf, NumberOf;
    hide TransferTells, Notified;
    hide DistinctKeys, WideEnough, Bitlength, SlotKey;
    var fs := Fields(env, st, tx);
    FrameCarries(env, st, tx, rx, sender, receiver);
    SameCount(tx, rx);
    EachFits(tx);
    CarriedTells(env, st, tx, rx);
    DeliveredFrame(env', st', rx, Carried(fs), Key(0, 0));
    forall k: Key
      ensures (forall s | s in rx && Stores(s) :: SlotKey(s) != k)
              ==> Memory(Delivered(env', st', rx, Carried(fs)), k) == Memory(st', k)
    {
      DeliveredFrame(env', st', rx, Carried(fs), k);
    }
    forall i: nat | i < |rx| && Stores(rx[i])
      ensures Le(Memory(Delivered(env', st', rx, Carried(fs)), SlotKey(rx[i])))
           == NumberOf(env, st, tx[i]) % Pow2(MappedLength(tx[i].mapping))
    {
      DeliveredAt(env', st', rx, Carried(fs), i);
      assert rx[i] in rx;
      CarriedField(env, st, tx, rx, i);
    }
  }

  lemma SameCount(a: seq<Slot>, b: seq<Slot>)
    requires SameLengths(a, b)
    ensures |a| == |b|
  {
  }

  lemma CarriedField(env: Env, st: Store, tx: seq<Slot>, rx: seq<Slot>, i: nat)
    requires SameLengths(tx, rx) && i < |rx| && Stores(rx[i]) && WideEnough(rx[i])
    ensures Le(BytesOf(Carried(Fields(env, st, tx))[i])[..Width(rx[i].found.value.1.datatyp)])
         == NumberOf(env, st, tx[i]) % Pow2(MappedLength(tx[i].mapping))
  {
    hide BytesOf, BitsOf, ValueOf, Num, Pow2, Le, NumberOf;
    ValueIsNumber(env, st, tx[i]);
    BytesOfField(ValueOf(env, st, tx[i]), MappedLength(tx[i].mapping), Width(rx[i].found.value.1.datatyp));
  }

  // ----- and back

  lemma StoredBits(value: Word64, width: nat, b: nat)
    requires b < 8 * width <= 64
    ensures BitsOf(Resize(BytesOf(value)[..width], 8))[b] == value[b]
  {
    hide BytesOf, BitsOf;
    var d := BytesOf(value)[..width];
    assert Resize(d, 8)[..width] == d;
    BitsOfSlice(Resize(d, 8), width);
    BitsOfSlice(BytesOf(value), width);
    BitsOfBytesOf(value);
    assert BitsOf(Resize(d, 8))[..8 * width][b] == BitsOf(Resize(d, 8))[b];
    assert value[..8 * width][b] == value[b];
  }

  lemma ReadsBack(env: Env, st: Store, slots: seq<Slot>, values: seq<Word64>, i: nat, b: nat)
    requires |values| == |slots| && i < |slots| && DistinctKeys(slots)
    requires Stores(slots[i]) && WideEnough(slots[i]) && b < MappedLength(slots[i].mapping)
    requires MappedLength(slots[i].mapping) <= 64
    ensures ValueOf(env, Delivered(env, st, slots, values), slots[i])[b] == values[i][b]
  {
    hide BytesOf, BitsOf, Delivered;
    DeliveredAt(env, st, slots, values, i);
    StoredBits(values[i], Width(slots[i].found.value.1.datatyp), b);
  }

  /** Unpacking a frame and packing the same mapping reproduces every mapped bit, with zeros in
      the padding. */
  lemma RepackReproduces(env: Env, st: Store, slots: seq<Slot>, frame: Word64, buffer: Word64, i: nat, b: nat)
    requires Bitlength(slots) <= 64 && DistinctKeys(slots)
    requires forall s | s in slots :: (s.found.Some? ==> Stores(s)) && WideEnough(s)
    requires i < |slots| && b < MappedLength(slots[i].mapping)
    ensures Bitlength(slots[..i]) + b < 64
    ensures var st' := Delivered(env, st, slots, Contents(frame, slots));
            Packed(buffer, Fields(env, st', slots))[Bitlength(slots[..i]) + b]
            == (slots[i].found.Some? && frame[Bitlength(slots[..i]) + b])
  {
    hide Packed, Delivered, Contents, Total, Bitlength, BytesOf, BitsOf;
    var values := Contents(frame, slots);
    var st' := Delivered(env, st, slots, values);
    var fs := Fields(env, st', slots);
    TotalIsBitlength(env, st', slots);
    TotalPrefix(env, st', slots, i);
    PackedBit(buffer, fs, i, b);
    TotalUpTo(fs, i);
    assert slots[i] in slots;
    if slots[i].found.Some? {
      ReadsBack(env, st, slots, values, i, b);
      ContentsAt(frame, slots, i);
    }
  }
}
