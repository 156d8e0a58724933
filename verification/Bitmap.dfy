/** The 128-bit bitmap of discovered nodes (src/co_bitmap.c) as a set of node identifiers. */
module Bitmap {
  import opened Bits

  /** The members of a bitmap held in four words. */
  function Members(words: seq<Word32>): set<nat>
    requires |words| == 4
  {
    set b: nat | b < 128 && words[b / 32][b % 32]
  }

  /** __builtin_ctz: the index of the lowest bit set. */
  function Ctz(w: Word): (n: nat)
    requires exists i :: 0 <= i < |w| && w[i]
    ensures n < |w| && w[n] && forall i | 0 <= i < n :: !w[i]
  {
    if w[0] then 0
    else
      assert exists i :: 0 <= i < |w[1..]| && w[1..][i] by {
        var i :| 0 <= i < |w| && w[i];
        assert w[1..][i - 1];
      }
      var n := Ctz(w[1..]);
      assert forall i | 0 < i < n + 1 :: w[i] == w[1..][i - 1];
      n + 1
  }

  /** `r` is the least member from `bit` up. */
  ghost predicate IsNext(s: set<nat>, bit: nat, r: nat) {
    r in s && bit <= r && forall b | b in s && bit <= b :: r <= b
  }

  /** The lowest bit of a masked word is the least member from the start of the mask up. */
  lemma LowestFrom(words: seq<Word32>, ix: nat, offset: nat, masked: Word, low: nat)
    requires |words| == 4 && ix < 4 && |masked| == 32
    requires forall k | 0 <= k < 32 :: masked[k] == (words[ix][k] && offset <= k)
    requires low < 32 && masked[low] && forall i | 0 <= i < low :: !masked[i]
    ensures IsNext(Members(words), 32 * ix + offset, 32 * ix + low)
  {
    assert (32 * ix + low) / 32 == ix && (32 * ix + low) % 32 == low;
    forall b | b in Members(words) && 32 * ix + offset <= b
      ensures 32 * ix + low <= b
    {
      assert b / 32 == ix ==> masked[b % 32];
    }
  }

  lemma MembersBounded(words: seq<Word32>)
    requires |words| == 4
    ensures forall b | b in Members(words) :: b < 128
  {
  }

  /** An empty masked word has no member from the start of the mask up. */
  lemma NoneFrom(words: seq<Word32>, ix: nat, offset: nat, masked: Word)
    requires |words| == 4 && ix < 4 && |masked| == 32 && masked == Zero(32)
    requires forall k | 0 <= k < 32 :: masked[k] == (words[ix][k] && offset <= k)
    ensures forall b | b in Members(words) && 32 * ix + offset <= b :: 32 * (ix + 1) <= b
  {
    assert forall k | offset <= k < 32 :: masked[k] == words[ix][k];
  }

  class Bitmap {
    const words: array<Word32>

    constructor ()
      ensures Valid() && fresh(words) && Elements() == {}
    {
      words := new Word32[4](_ => Zero(32));
    }

    predicate Valid() {
      words.Length == 4
    }

    ghost function Elements(): set<nat>
      requires Valid()
      reads words
    {
      Members(words[..])
    }

    method Set(bit: nat)
      requires Valid() && bit < 128
      modifies words
      ensures Elements() == old(Elements()) + {bit}
    {
      var ix, offset := bit / 32, bit % 32;
      words[ix] := Or(words[ix], Single(32, offset));
    }

    method Clear(bit: nat)
      requires Valid() && bit < 128
      modifies words
      ensures Elements() == old(Elements()) - {bit}
    {
      var ix, offset := bit / 32, bit % 32;
      words[ix] := And(words[ix], Not(Single(32, offset)));
    }

    method Get(bit: nat) returns (r: bool)
      requires Valid() && bit < 128
      ensures r == (bit in Elements())
    {
      var ix, offset := bit / 32, bit % 32;
      var masked := And(words[ix], Single(32, offset));
      assert masked[offset] == words[ix][offset];
      return masked != Zero(32);
    }

    /** The least member from `bit` up, or 0 if there is none. */
    method Next(bit: nat) returns (r: nat)
      requires Valid() && bit < 128
      ensures IsNext(Elements(), bit, r) || (r == 0 && forall b | b in Elements() :: b < bit)
    {
      hide Members;
      var offset := bit % 32;
      MembersBounded(words[..]);
      for ix := bit / 32 to 4
        invariant offset == if ix == bit / 32 then bit % 32 else 0
        invariant forall b | b in Elements() && bit <= b :: 32 * ix + offset <= b
      {
        HighMask(32, offset);
        var masked := And(words[ix], Negate(Single(32, offset)));
        if masked != Zero(32) {
          assert exists i :: 0 <= i < 32 && masked[i];
          r := Ctz(masked) + 32 * ix;
          LowestFrom(words[..], ix, offset, masked, Ctz(masked));
          return;
        }
        NoneFrom(words[..], ix, offset, masked);
        offset := 0;
      }
      return 0;
    }

    /** co_node_next. */
    method NodeNext(node: nat) returns (r: nat)
      requires Valid()
      ensures IsNext(Elements(), node, r) || (r == 0 && forall b | b in Elements() :: b < node)
    {
      if node > 127 {
        return 0;
      }
      r := Next(node);
    }

    /** The iteration documented for co_node_next: start from 0 and ask for the next node after
        each one found, until 0 comes back. It visits every member exactly once, in increasing
        order, precisely if 0 is not a member; otherwise it stops at once. */
    method Iterate() returns (visited: seq<nat>)
      requires Valid()
      ensures forall i, j | 0 <= i < j < |visited| :: visited[i] < visited[j]
      ensures 0 in Elements() ==> visited == []
      ensures (forall b :: b in visited <==> b in Elements()) <==> 0 !in Elements()
    {
      visited := [];
      var node := NodeNext(0);
      while node > 0
        invariant forall i, j | 0 <= i < j < |visited| :: visited[i] < visited[j]
        invariant 0 in Elements() ==> visited == [] && node == 0
        invariant node > 0 ==> node in Elements()
        invariant forall b | b in visited :: b in Elements() && (node > 0 ==> b < node)
        invariant 0 !in Elements() ==> forall b | b in Elements() && (node > 0 ==> b < node) :: b in visited
        decreases if node > 0 then 128 - node else 0
      {
        assert forall i | 0 <= i < |visited| :: visited[i] in visited;
        visited := visited + [node];
        node := NodeNext(node + 1);
      }
    }
  }
}
