/** Bytes and the little-endian integers laid out in them.

    A `uint64_t` that the code also addresses as memory is modelled by its eight bytes on a
    little-endian host (`U64`), so that `memcpy` in and out of it is slicing. */
module Bytes {

  type Byte = b: int | 0 <= b < 256

  type Data = seq<Byte>

  type U64 = d: Data | |d| == 8 witness [0, 0, 0, 0, 0, 0, 0, 0]

  type U16 = i: int | 0 <= i < 0x10000

  type U32 = i: int | 0 <= i < 0x1_0000_0000

  function Min(a: nat, b: nat): nat {
    if a <= b then a else b
  }

  function Zeros(n: nat): (d: Data)
    ensures |d| == n
    ensures forall i | 0 <= i < n :: d[i] == 0
  {
    seq(n, _ => 0)
  }

  function Pow256(n: nat): (p: nat)
    ensures p >= 1
  {
    if n == 0 then 1 else 256 * Pow256(n - 1)
  }

  /** The number stored little-endian in `d`. */
  function Le(d: Data): nat {
    if d == [] then 0 else d[0] + 256 * Le(d[1..])
  }

  /** The low `n` bytes of `v`, little-endian. */
  function ToLe(v: nat, n: nat): (d: Data)
    ensures |d| == n
  {
    if n == 0 then [] else [v % 256] + ToLe(v / 256, n - 1)
  }

  /** Zero-extend or truncate to `n` bytes: what a store through a wider or narrower
      integer type leaves in memory. */
  function Resize(d: Data, n: nat): (r: Data)
    ensures |r| == n
    ensures forall i | 0 <= i < n :: r[i] == if i < |d| then d[i] else 0
  {
    if n <= |d| then d[..n] else d + Zeros(n - |d|)
  }

  /** Overwrite `d` at `pos` with `s`: `memcpy (&d[pos], s, |s|)`. */
  function Patch(d: Data, pos: nat, s: Data): (r: Data)
    requires pos + |s| <= |d|
    ensures |r| == |d|
    ensures forall i | 0 <= i < |d| :: r[i] == if pos <= i < pos + |s| then s[i - pos] else d[i]
  {
    d[..pos] + s + d[pos + |s|..]
  }

  lemma Assoc(a: Data, b: Data, c: Data)
    ensures (a + b) + c == a + (b + c)
  {
  }

  lemma SliceOfSlice(d: Data, a: nat, b: nat, n: nat)
    requires a + n <= b <= |d|
    ensures d[a..b][..n] == d[a..a + n] && d[a..b][n..] == d[a + n..b]
  {
  }

  lemma SliceOfTail(d: Data, a: nat, n: nat)
    requires a + n <= |d|
    ensures d[a..][..n] == d[a..a + n] && d[a..][n..] == d[a + n..]
  {
  }

  lemma {:induction false} LeOfToLe(v: nat, n: nat)
    ensures Le(ToLe(v, n)) == v % Pow256(n)
  {
    if n == 0 {
    } else {
      LeOfToLe(v / 256, n - 1);
      ModSplit(v, Pow256(n - 1));
    }
  }

  lemma ModSplit(v: nat, p: nat)
    requires p > 0
    ensures v % (256 * p) == v % 256 + 256 * ((v / 256) % p)
  {
    var q := v / 256;
    var k := q / p;
    assert v == 256 * (k * p + q % p) + v % 256;
    assert 256 * (k * p) == k * (256 * p);
    var r := 256 * (q % p) + v % 256;
    assert v == k * (256 * p) + r;
    assert 0 <= r < 256 * p by {
      assert q % p <= p - 1;
    }
    ModUnique(v, 256 * p, k, r);
  }

  lemma ModUnique(v: nat, m: nat, k: nat, r: nat)
    requires 0 <= r < m && v == k * m + r
    ensures v % m == r && v / m == k
  {
    var q := v / m - k;
    assert q * m == r - v % m by {
      assert (v / m) * m + v % m == v;
      assert (v / m) * m == (q + k) * m == q * m + k * m;
    }
    assert (-q) * m == -(q * m);
    if q > 0 {
      MulAtLeast(q, m);
    } else if q < 0 {
      MulAtLeast(-q, m);
    }
  }

  lemma MulAtLeast(q: nat, m: nat)
    requires q > 0
    ensures q * m >= m
  {
    assert q * m == (q - 1) * m + m;
  }

  lemma {:induction false} LeBound(d: Data)
    ensures Le(d) < Pow256(|d|)
  {
    if d == [] {
    } else {
      LeBound(d[1..]);
    }
  }

  /** Writing a little-endian number back at another width resizes its bytes. */
  lemma {:induction false} ToLeOfLe(d: Data, n: nat)
    ensures ToLe(Le(d), n) == Resize(d, n)
  {
    if n == 0 {
    } else if d == [] {
      ToLeOfLe(d, n - 1);
      assert Resize(d, n) == [0] + Resize(d, n - 1);
    } else {
      ToLeOfLe(d[1..], n - 1);
      assert Le(d) % 256 == d[0] && Le(d) / 256 == Le(d[1..]);
      assert Resize(d, n) == [d[0]] + Resize(d[1..], n - 1);
    }
  }

  /** Resizing is truncation of the number: zero-extension keeps it. */
  lemma LeOfResize(d: Data, n: nat)
    ensures Le(Resize(d, n)) == Le(d) % Pow256(n)
  {
    ToLeOfLe(d, n);
    LeOfToLe(Le(d), n);
  }

  lemma LeOfToLeFits(v: nat, n: nat)
    requires v < Pow256(n)
    ensures Le(ToLe(v, n)) == v
  {
    LeOfToLe(v, n);
    ModUnique(v, Pow256(n), 0, v);
  }

  lemma Pow256Values()
    ensures Pow256(1) == 0x100 && Pow256(2) == 0x10000 && Pow256(4) == 0x1_0000_0000
    ensures Pow256(8) == 0x1_0000_0000_0000_0000
  {
    assert Pow256(2) == 256 * Pow256(1);
    assert Pow256(4) == 256 * 256 * Pow256(2);
    assert Pow256(6) == 256 * 256 * Pow256(4);
    assert Pow256(8) == 256 * 256 * Pow256(6);
  }
}
