/** LSS addressing: which slave is selected by a run of matching frames (src/co_lss.c,
    CiA 305). */
module Lss {
  import opened Bits
  import opened Bytes

  /** Vendor, product, revision and serial number of a slave. */
  datatype Identity = Identity(vendor: U32, product: U32, revision: U32, serial: U32)

  /** The criteria, in the order in which they must be met. */
  datatype Criterion = Vendor | Product | RevisionLow | RevisionHigh | SerialLow | SerialHigh

  type Word8 = w: Word | |w| == 8 witness Zero(8)

  function Rank(c: Criterion): (n: nat)
    ensures n < 6
  {
    match c
    case Vendor => 0 case Product => 1 case RevisionLow => 2
    case RevisionHigh => 3 case SerialLow => 4 case SerialHigh => 5
  }

  predicate Meets(id: Identity, c: Criterion, expected: nat) {
    match c
    case Vendor => id.vendor == expected
    case Product => id.product == expected
    case RevisionLow => id.revision >= expected
    case RevisionHigh => id.revision <= expected
    case SerialLow => id.serial >= expected
    case SerialHigh => id.serial <= expected
  }

  /** How many criteria have been met in order, after one more test: a test out of order is
      ignored, a failed one starts over. */
  function Advance(id: Identity, level: nat, c: Criterion, expected: nat): (r: nat)
    ensures level <= 6 ==> r <= 6
  {
    if level < Rank(c) then level
    else if !Meets(id, c, expected) then 0
    else if level == Rank(c) then level + 1 else level
  }

  /** The mask with the `k` low bits set. */
  function Prefix(k: nat): (w: Word8)
    ensures forall i | 0 <= i < 8 :: w[i] == (i < k)
  {
    seq(8, i => i < k)
  }

  lemma PreviousHits(level: nat, rank: nat)
    requires rank < 8
    ensures And(Prefix(level), Decrement(Single(8, rank))) == Decrement(Single(8, rank)) <==> level >= rank
  {
    LowMask(8, rank);
    var previous: Word8 := Decrement(Single(8, rank));
    if level < rank {
      assert !And(Prefix(level), previous)[level] && previous[level];
    }
  }

  /** co_lss_match keeps a prefix mask, and the mask counts the criteria met in order. */
  method Match(id: Identity, mask: Word8, c: Criterion, expected: nat, ghost level: nat) returns (mask': Word8)
    requires level <= 6 && mask == Prefix(level)
    ensures mask' == Prefix(Advance(id, level, c, expected))
  {
    var previous: Word8 := Decrement(Single(8, Rank(c)));
    PreviousHits(level, Rank(c));
    if And(mask, previous) != previous {
      return mask;
    }
    var isMatch := false;
    match c {
      case Vendor => isMatch := id.vendor == expected;
      case Product => isMatch := id.product == expected;
      case RevisionLow => isMatch := id.revision >= expected;
      case RevisionHigh => isMatch := id.revision <= expected;
      case SerialLow => isMatch := id.serial >= expected;
      case SerialHigh => isMatch := id.serial <= expected;
    }
    if isMatch {
      mask' := Or(mask, Single(8, Rank(c)));
      assert mask' == Prefix(Advance(id, level, c, expected));
    } else {
      mask' := Zero(8);
      assert mask' == Prefix(0);
    }
  }

  // ----- switch selective and identify remote

  datatype Command =
    | SwitchVendor | SwitchProduct | SwitchRevision | SwitchSerial
    | IdentifyVendor | IdentifyProduct | IdentifyRevisionLow | IdentifyRevisionHigh
    | IdentifySerialLow | IdentifySerialHigh

  datatype Frame = Frame(command: Command, expected: U32)

  predicate IsSwitch(c: Command) {
    c in {SwitchVendor, SwitchProduct, SwitchRevision, SwitchSerial}
  }

  /** The tests a frame stands for. */
  function Tests(c: Command): seq<Criterion> {
    match c
    case SwitchVendor | IdentifyVendor => [Vendor]
    case SwitchProduct | IdentifyProduct => [Product]
    case SwitchRevision => [RevisionLow, RevisionHigh]
    case SwitchSerial => [SerialLow, SerialHigh]
    case IdentifyRevisionLow => [RevisionLow]
    case IdentifyRevisionHigh => [RevisionHigh]
    case IdentifySerialLow => [SerialLow]
    case IdentifySerialHigh => [SerialHigh]
  }

  /** Level before the check for success. */
  function Tested(id: Identity, level: nat, f: Frame): nat {
    var ts := Tests(f.command);
    var first := Advance(id, level, ts[0], f.expected);
    if |ts| == 1 then first else Advance(id, first, ts[1], f.expected)
  }

  /** The slave answers a frame when every criterion has been met. */
  predicate Succeeds(id: Identity, level: nat, f: Frame) {
    Tested(id, level, f) == 6
  }

  function Step(id: Identity, level: nat, f: Frame): nat {
    if Succeeds(id, level, f) then 0 else Tested(id, level, f)
  }

  function Run(id: Identity, level: nat, fs: seq<Frame>): nat
    decreases |fs|
  {
    if fs == [] then level else Step(id, Run(id, level, fs[..|fs| - 1]), fs[|fs| - 1])
  }

  /** The last value seen for a command. */
  function Last(fs: seq<Frame>, c: Command): int
    decreases |fs|
  {
    if fs == [] then -1
    else if fs[|fs| - 1].command == c then fs[|fs| - 1].expected
    else Last(fs[..|fs| - 1], c)
  }

  predicate AllSwitches(fs: seq<Frame>) {
    forall f | f in fs :: IsSwitch(f.command)
  }

  /** Over switch-selective frames alone, every criterion counted as met was met by the last
      frame of its kind, exactly. */
  lemma {:induction false} LevelMeansLast(id: Identity, fs: seq<Frame>)
    requires AllSwitches(fs)
    ensures var k := Run(id, 0, fs);
            && k in {0, 1, 2, 4}
            && (k >= 1 ==> Last(fs, SwitchVendor) == id.vendor)
            && (k >= 2 ==> Last(fs, SwitchProduct) == id.product)
            && (k >= 4 ==> Last(fs, SwitchRevision) == id.revision)
    decreases |fs|
  {
    if fs != [] {
      var init, f := fs[..|fs| - 1], fs[|fs| - 1];
      assert fs == init + [f];
      assert f in fs;
      LevelMeansLast(id, init);
    }
  }

  /** A slave entering configuration on the last of a run of switch-selective frames has exactly
      the identity last asked for. */
  lemma EntersOnlyIfAddressed(id: Identity, fs: seq<Frame>)
    requires AllSwitches(fs) && fs != []
    requires Succeeds(id, Run(id, 0, fs[..|fs| - 1]), fs[|fs| - 1])
    ensures Last(fs, SwitchVendor) == id.vendor && Last(fs, SwitchProduct) == id.product
    ensures Last(fs, SwitchRevision) == id.revision && Last(fs, SwitchSerial) == id.serial
  {
    var init, f := fs[..|fs| - 1], fs[|fs| - 1];
    assert fs == init + [f];
    assert f in fs;
    LevelMeansLast(id, init);
  }

  /** Selective addressing is unique: two slaves listening to the same switch-selective frames
      never enter configuration together unless they share one identity. */
  lemma AtMostOneSelected(a: Identity, b: Identity, fs: seq<Frame>)
    requires AllSwitches(fs) && fs != []
    requires Succeeds(a, Run(a, 0, fs[..|fs| - 1]), fs[|fs| - 1])
    requires Succeeds(b, Run(b, 0, fs[..|fs| - 1]), fs[|fs| - 1])
    ensures a == b
  {
    EntersOnlyIfAddressed(a, fs);
    EntersOnlyIfAddressed(b, fs);
  }

  /** The four frames that name a slave select it and no other, whatever was matched before. */
  lemma AddressedIff(id: Identity, level: nat, named: Identity)
    requires level <= 5
    ensures var f1, f2 := Frame(SwitchVendor, named.vendor), Frame(SwitchProduct, named.product);
            var f3, f4 := Frame(SwitchRevision, named.revision), Frame(SwitchSerial, named.serial);
            var l1 := Step(id, level, f1);
            var l2 := Step(id, l1, f2);
            var l3 := Step(id, l2, f3);
            && !Succeeds(id, level, f1) && !Succeeds(id, l1, f2) && !Succeeds(id, l2, f3)
            && (Succeeds(id, l3, f4) <==> id == named)
            && (id == named ==> Step(id, l3, f4) == 0)
  {
  }

  /** A test whose predecessors have not been met is ignored, whatever it asks for. */
  lemma OutOfOrderIgnored(id: Identity, level: nat, f: Frame)
    requires level <= 5 && forall c | c in Tests(f.command) :: level < Rank(c)
    ensures Step(id, level, f) == level && !Succeeds(id, level, f)
  {
    assert Tests(f.command)[0] in Tests(f.command);
    if |Tests(f.command)| > 1 {
      assert Tests(f.command)[1] in Tests(f.command);
    }
  }

  /** Between frames of either kind the mask never holds all six criteria. */
  lemma {:induction false} LevelBounded(id: Identity, level: nat, fs: seq<Frame>)
    requires level <= 5
    ensures Run(id, level, fs) <= 5
    decreases |fs|
  {
    if fs != [] {
      LevelBounded(id, level, fs[..|fs| - 1]);
    }
  }

  // ----- mixing the two services

  /** The last value a criterion was tested against, by either service. */
  function LastTest(fs: seq<Frame>, c: Criterion): int
    decreases |fs|
  {
    if fs == [] then -1
    else if c in Tests(fs[|fs| - 1].command) then fs[|fs| - 1].expected
    else LastTest(fs[..|fs| - 1], c)
  }

  predicate MeetsLast(id: Identity, fs: seq<Frame>, c: Criterion) {
    LastTest(fs, c) >= 0 && Meets(id, c, LastTest(fs, c))
  }

  /** Over any mix of frames, every criterion counted as met was met by its last test. */
  lemma {:induction false} LevelMeansLastTest(id: Identity, fs: seq<Frame>)
    ensures forall c | Rank(c) < Run(id, 0, fs) :: MeetsLast(id, fs, c)
    decreases |fs|
  {
    if fs != [] {
      LevelMeansLastTest(id, fs[..|fs| - 1]);
    }
  }

  /** With identify-remote frames in between, a slave that enters configuration lies within the
      last range tested for its revision; everything else is still exact. */
  lemma MixedEntersWithin(id: Identity, fs: seq<Frame>)
    requires fs != [] && IsSwitch(fs[|fs| - 1].command)
    requires Succeeds(id, Run(id, 0, fs[..|fs| - 1]), fs[|fs| - 1])
    ensures LastTest(fs, Vendor) == id.vendor && LastTest(fs, Product) == id.product
    ensures LastTest(fs, RevisionLow) <= id.revision <= LastTest(fs, RevisionHigh)
    ensures LastTest(fs, SerialLow) == id.serial == LastTest(fs, SerialHigh)
  {
    var init := fs[..|fs| - 1];
    LevelMeansLastTest(id, init);
    LevelBounded(id, 0, init);
    assert forall c | Rank(c) < Run(id, 0, init) :: MeetsLast(id, init, c);
    assert MeetsLast(id, init, Vendor) && MeetsLast(id, init, Product);
    assert MeetsLast(id, init, RevisionLow) && MeetsLast(id, init, RevisionHigh);
  }

  /** So uniqueness holds for any mix in which the last tests of the revision asked for one
      value, as a switch-selective frame does. */
  lemma AtMostOneSelectedMixed(a: Identity, b: Identity, fs: seq<Frame>)
    requires fs != [] && IsSwitch(fs[|fs| - 1].command)
    requires LastTest(fs, RevisionLow) == LastTest(fs, RevisionHigh)
    requires Succeeds(a, Run(a, 0, fs[..|fs| - 1]), fs[|fs| - 1])
    requires Succeeds(b, Run(b, 0, fs[..|fs| - 1]), fs[|fs| - 1])
    ensures a == b
  {
    MixedEntersWithin(a, fs);
    MixedEntersWithin(b, fs);
  }

  /** A complete addressing sequence in which the revision is asked for as a range. */
  function RangeSequence(vendor: U32, product: U32, low: U32, high: U32, serial: U32): (fs: seq<Frame>)
    ensures |fs| == 5
  {
    [Frame(SwitchVendor, vendor), Frame(SwitchProduct, product), Frame(IdentifyRevisionLow, low),
     Frame(IdentifyRevisionHigh, high), Frame(SwitchSerial, serial)]
  }

  /** The slave enters configuration on the last of these frames, after any others. */
  predicate SelectedAfter(id: Identity, before: seq<Frame>, fs: seq<Frame>)
    requires fs != []
  {
    Succeeds(id, Run(id, 0, before + fs[..|fs| - 1]), fs[|fs| - 1])
  }

  lemma RunFive(id: Identity, before: seq<Frame>, fs: seq<Frame>)
    requires |fs| == 5
    ensures Run(id, 0, before + fs[..4])
         == Step(id, Step(id, Step(id, Step(id, Run(id, 0, before), fs[0]), fs[1]), fs[2]), fs[3])
  {
    hide Step, Run;
    assert before + fs[..1] == before + [fs[0]];
    RunNext(id, before, fs[0]);
    assert before + fs[..2] == (before + fs[..1]) + [fs[1]];
    RunNext(id, before + fs[..1], fs[1]);
    assert before + fs[..3] == (before + fs[..2]) + [fs[2]];
    RunNext(id, before + fs[..2], fs[2]);
    assert before + fs[..4] == (before + fs[..3]) + [fs[3]];
    RunNext(id, before + fs[..3], fs[3]);
  }

  lemma RunNext(id: Identity, fs: seq<Frame>, f: Frame)
    ensures Run(id, 0, fs + [f]) == Step(id, Run(id, 0, fs), f)
  {
    assert (fs + [f])[..|fs|] == fs;
  }

  /** Whatever came before, by either service, such a sequence selects exactly the slaves of that
      vendor, product and serial number whose revision lies in the range. */
  lemma RangeSelectsIff(id: Identity, before: seq<Frame>, vendor: U32, product: U32, low: U32, high: U32, serial: U32)
    ensures SelectedAfter(id, before, RangeSequence(vendor, product, low, high, serial))
       <==> id.vendor == vendor && id.product == product && low <= id.revision <= high && id.serial == serial
  {
    LevelBounded(id, 0, before);
    RunFive(id, before, RangeSequence(vendor, product, low, high, serial));
    hide Run;
  }

  /** So after any frames it selects at most one slave exactly if its range has at most one
      revision. */
  lemma RangeUniqueIff(before: seq<Frame>, vendor: U32, product: U32, low: U32, high: U32, serial: U32)
    ensures var fs := RangeSequence(vendor, product, low, high, serial);
            (forall a, b | SelectedAfter(a, before, fs) && SelectedAfter(b, before, fs) :: a == b) <==> low >= high
  {
    hide SelectedAfter;
    var fs := RangeSequence(vendor, product, low, high, serial);
    forall id
      ensures SelectedAfter(id, before, fs)
         <==> id.vendor == vendor && id.product == product && low <= id.revision <= high && id.serial == serial
    {
      RangeSelectsIff(id, before, vendor, product, low, high, serial);
    }
    if low < high {
      var a, b := Identity(vendor, product, low, serial), Identity(vendor, product, high, serial);
      assert SelectedAfter(a, before, fs) && SelectedAfter(b, before, fs) && a != b;
    }
  }

  /** The two services share the mask, so without that uniqueness is lost: ranges can
      stand in for the exact revision, and two different slaves enter configuration on the same
      switch-selective frame. */
  lemma MixingSelectsTwo()
    ensures var fs := [Frame(SwitchVendor, 1), Frame(SwitchProduct, 2), Frame(IdentifyRevisionLow, 3),
                       Frame(IdentifyRevisionHigh, 9), Frame(SwitchSerial, 4)];
            forall revision | 3 <= revision <= 9 ::
              var id := Identity(1, 2, revision, 4);
              Succeeds(id, Run(id, 0, fs[..4]), fs[4])
  {
    var fs := [Frame(SwitchVendor, 1), Frame(SwitchProduct, 2), Frame(IdentifyRevisionLow, 3),
               Frame(IdentifyRevisionHigh, 9), Frame(SwitchSerial, 4)];
    forall revision | 3 <= revision <= 9
      ensures var id := Identity(1, 2, revision, 4); Succeeds(id, Run(id, 0, fs[..4]), fs[4])
    {
      var id := Identity(1, 2, revision, 4);
      assert fs[..4][..3] == fs[..3] && fs[..3][..2] == fs[..2] && fs[..2][..1] == fs[..1];
      assert Run(id, 0, fs[..1]) == 1;
      assert Run(id, 0, fs[..2]) == 2;
      assert Run(id, 0, fs[..3]) == 3;
      assert Run(id, 0, fs[..4]) == 4;
    }
  }
}
