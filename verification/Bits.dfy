/** Machine words as their bits, least significant first, with the operators of C. */
module Bits {
  import opened Bytes

  type Word = seq<bool>

  type Word32 = w: Word | |w| == 32 witness Zero(32)

  type Word64 = w: Word | |w| == 64 witness Zero(64)

  function Zero(n: nat): (w: Word)
    ensures |w| == n && forall i | 0 <= i < n :: !w[i]
  {
    seq(n, _ => false)
  }

  function Ones(n: nat): (w: Word)
    ensures |w| == n && forall i | 0 <= i < n :: w[i]
  {
    seq(n, _ => true)
  }

  function And(a: Word, b: Word): (w: Word)
    requires |a| == |b|
    ensures |w| == |a| && forall i | 0 <= i < |a| :: w[i] == (a[i] && b[i])
  {
    seq(|a|, i requires 0 <= i < |a| => a[i] && b[i])
  }

  function Or(a: Word, b: Word): (w: Word)
    requires |a| == |b|
    ensures |w| == |a| && forall i | 0 <= i < |a| :: w[i] == (a[i] || b[i])
  {
    seq(|a|, i requires 0 <= i < |a| => a[i] || b[i])
  }

  function Not(a: Word): (w: Word)
    ensures |w| == |a| && forall i | 0 <= i < |a| :: w[i] == !a[i]
  {
    seq(|a|, i requires 0 <= i < |a| => !a[i])
  }

  function Shl(a: Word, n: nat): (w: Word)
    ensures |w| == |a| && forall i | 0 <= i < |a| :: w[i] == (i >= n && a[i - n])
  {
    seq(|a|, i requires 0 <= i < |a| => i >= n && a[i - n])
  }

  function Shr(a: Word, n: nat): (w: Word)
    ensures |w| == |a| && forall i | 0 <= i < |a| :: w[i] == (i + n < |a| && a[i + n])
  {
    seq(|a|, i requires 0 <= i < |a| => i + n < |a| && a[i + n])
  }

  /** BIT (i) in a word of `n` bits. */
  function Single(n: nat, i: nat): (w: Word)
    ensures |w| == n && forall k | 0 <= k < n :: w[k] == (k == i)
  {
    seq(n, k => k == i)
  }

  /** Subtract one, with the borrow running up from the low end. */
  function Decrement(a: Word): (w: Word)
    ensures |w| == |a|
  {
    if a == [] then [] else if a[0] then [false] + a[1..] else [true] + Decrement(a[1..])
  }

  /** Two's complement negation: the lowest one and what is below stay, the rest is inverted. */
  function Negate(a: Word): (w: Word)
    ensures |w| == |a|
  {
    if a == [] then [] else if a[0] then [true] + Not(a[1..]) else [false] + Negate(a[1..])
  }

  function Pow2(n: nat): (p: nat)
    ensures p >= 1
  {
    if n == 0 then 1 else 2 * Pow2(n - 1)
  }

  /** The number a word stands for. */
  function Num(a: Word): nat {
    if a == [] then 0 else (if a[0] then 1 else 0) + 2 * Num(a[1..])
  }

  lemma {:induction false} NumOfDecrement(a: Word)
    ensures Num(Decrement(a)) == if Num(a) > 0 then Num(a) - 1 else Pow2(|a|) - 1
  {
    if a != [] && !a[0] {
      NumOfDecrement(a[1..]);
    }
  }

  lemma {:induction false} NumOfNot(a: Word)
    ensures Num(Not(a)) == Pow2(|a|) - 1 - Num(a)
  {
    if a != [] {
      NumOfNot(a[1..]);
      assert Not(a) == [!a[0]] + Not(a[1..]);
    }
  }

  lemma {:induction false} NumOfNegate(a: Word)
    ensures Num(Negate(a)) == if Num(a) > 0 then Pow2(|a|) - Num(a) else 0
  {
    if a != [] {
      NumOfNot(a[1..]);
      NumOfNegate(a[1..]);
    }
  }

  /** BIT (i) - 1 is a mask of the bits below `i`. */
  lemma {:induction false} LowMask(n: nat, i: nat)
    requires i < n
    ensures forall k | 0 <= k < n :: Decrement(Single(n, i))[k] == (k < i)
  {
    if i > 0 {
      LowMask(n - 1, i - 1);
      assert Single(n, i)[1..] == Single(n - 1, i - 1);
    }
  }

  /** -BIT (i) is a mask of the bits from `i` up. */
  lemma {:induction false} HighMask(n: nat, i: nat)
    requires i < n
    ensures forall k | 0 <= k < n :: Negate(Single(n, i))[k] == (k >= i)
  {
    if i > 0 {
      HighMask(n - 1, i - 1);
      assert Single(n, i)[1..] == Single(n - 1, i - 1);
    }
  }

  // ----- words as bytes in memory, on a little-endian host

  /** The `n` low bits of a number. */
  function BitsOfNum(v: nat, n: nat): (w: Word)
    ensures |w| == n
  {
    if n == 0 then [] else [v % 2 == 1] + BitsOfNum(v / 2, n - 1)
  }

  function BitsOf(d: Data): (w: Word)
    ensures |w| == 8 * |d|
  {
    if d == [] then [] else BitsOfNum(d[0], 8) + BitsOf(d[1..])
  }

  function BytesOf(w: Word): (d: Data)
    requires |w| % 8 == 0
    ensures |d| == |w| / 8
  {
    if w == [] then []
    else
      NumBound(w[..8]);
      assert Pow2(8) == 256;
      [Num(w[..8])] + BytesOf(w[8..])
  }

  lemma {:induction false} NumBound(w: Word)
    ensures Num(w) < Pow2(|w|)
  {
    if w != [] {
      NumBound(w[1..]);
    }
  }

  lemma {:induction false} NumOfBitsOfNum(v: nat, n: nat)
    requires v < Pow2(n)
    ensures Num(BitsOfNum(v, n)) == v
  {
    if n > 0 {
      NumOfBitsOfNum(v / 2, n - 1);
    }
  }

  lemma {:induction false} BitsOfNumOfNum(w: Word)
    ensures BitsOfNum(Num(w), |w|) == w
  {
    if w != [] {
      BitsOfNumOfNum(w[1..]);
    }
  }

  lemma {:induction false} BytesOfBitsOf(d: Data)
    ensures BytesOf(BitsOf(d)) == d
  {
    if d != [] {
      BytesOfBitsOf(d[1..]);
      assert Pow2(8) == 256;
      NumOfBitsOfNum(d[0], 8);
      assert BitsOf(d)[..8] == BitsOfNum(d[0], 8) && BitsOf(d)[8..] == BitsOf(d[1..]);
    }
  }

  lemma {:induction false} BitsOfBytesOf(w: Word)
    requires |w| % 8 == 0
    ensures BitsOf(BytesOf(w)) == w
  {
    if w != [] {
      BitsOfBytesOf(w[8..]);
      BitsOfNumOfNum(w[..8]);
      assert w == w[..8] + w[8..];
    }
  }

  lemma {:induction false} NumOfConcat(a: Word, b: Word)
    ensures Num(a + b) == Num(a) + Pow2(|a|) * Num(b)
  {
    if a == [] {
      assert a + b == b;
    } else {
      NumOfConcat(a[1..], b);
      assert (a + b)[1..] == a[1..] + b;
      Twice(Pow2(|a| - 1), Num(b));
    }
  }

  lemma Twice(p: nat, x: nat)
    ensures (2 * p) * x == 2 * (p * x)
  {
  }

  /** The bits of a value in memory are the binary digits of its number. */
  lemma {:induction false} NumOfBitsOf(d: Data)
    ensures Num(BitsOf(d)) == Le(d)
  {
    if d != [] {
      NumOfBitsOf(d[1..]);
      assert Pow2(8) == 256;
      NumOfBitsOfNum(d[0], 8);
      NumOfConcat(BitsOfNum(d[0], 8), BitsOf(d[1..]));
    }
  }

  /** The low `n` bits of a word are its number modulo 2^n. */
  lemma {:induction false} NumOfPrefix(w: Word, n: nat)
    requires n <= |w|
    ensures Num(w[..n]) == Num(w) % Pow2(n)
  {
    hide Num, Pow2;
    var low, high := w[..n], w[n..];
    assert w == low + high;
    NumOfConcat(low, high);
    NumBound(low);
    assert Pow2(n) * Num(high) == Num(high) * Pow2(n);
    ModUnique(Num(w), Pow2(n), Num(high), Num(low));
  }

  lemma BitsOfUnfold(d: Data)
    requires d != []
    ensures BitsOf(d) == BitsOfNum(d[0], 8) + BitsOf(d[1..])
  {
  }

  lemma ConcatAssoc(a: Word, b: Word, c: Word)
    ensures (a + b) + c == a + (b + c)
  {
  }

  lemma {:induction false} BitsOfConcat(a: Data, b: Data)
    ensures BitsOf(a + b) == BitsOf(a) + BitsOf(b)
  {
    hide BitsOf, BitsOfNum;
    if a == [] {
      assert a + b == b;
      assert BitsOf(a) + BitsOf(b) == BitsOf(b);
    } else {
      assert (a + b)[0] == a[0] && (a + b)[1..] == a[1..] + b;
      BitsOfUnfold(a);
      BitsOfUnfold(a + b);
      BitsOfConcat(a[1..], b);
      ConcatAssoc(BitsOfNum(a[0], 8), BitsOf(a[1..]), BitsOf(b));
    }
  }

  /** Whole bytes are whole groups of bits. */
  lemma {:induction false} BitsOfSlice(d: Data, n: nat)
    requires n <= |d|
    ensures BitsOf(d[..n]) == BitsOf(d)[..8 * n] && BitsOf(d[n..]) == BitsOf(d)[8 * n..]
  {
    BitsOfConcat(d[..n], d[n..]);
    assert d == d[..n] + d[n..];
  }
}
