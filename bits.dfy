/**
 * raz::Bitset<N> as the rest of the library uses it: a row of N bits, all
 * false by default, with set/unset and ascending iteration over the true
 * bits (truebits) and the false bits (falsebits). The Bitset header itself
 * is not part of this model; a bitset is a seq<bool>.
 */
module Bits {

  /** Strictly ascending positions. */
  ghost predicate Ascending(r: seq<nat>)
  {
    forall a, b :: 0 <= a < b < |r| ==> r[a] < r[b]
  }

  /** A bitset of n bits, all false. */
  function AllFalse(n: nat): (bits: seq<bool>)
    ensures |bits| == n && forall i :: 0 <= i < n ==> !bits[i]
  {
    seq(n, _ => false)
  }

  /**
   * The positions at or after `from` whose bit equals v, in ascending order:
   * what iterating truebits() (v = true) or falsebits() (v = false) visits.
   */
  function PositionsFrom(bits: seq<bool>, v: bool, from: nat): (r: seq<nat>)
    requires from <= |bits|
    ensures Ascending(r)
    ensures forall i :: 0 <= i < |r| ==> from <= r[i] < |bits| && bits[r[i]] == v
    ensures forall x :: from <= x < |bits| && bits[x] == v ==> x in r
    decreases |bits| - from
  {
    if from == |bits| then []
    else if bits[from] == v then [from] + PositionsFrom(bits, v, from + 1)
    else PositionsFrom(bits, v, from + 1)
  }

  /** truebits(): the set positions, ascending. */
  function TrueBits(bits: seq<bool>): (r: seq<nat>)
    ensures Ascending(r)
    ensures forall i :: 0 <= i < |r| ==> r[i] < |bits| && bits[r[i]]
    ensures forall x :: 0 <= x < |bits| && bits[x] ==> x in r
  {
    PositionsFrom(bits, true, 0)
  }

  /** falsebits(): the unset positions, ascending. */
  function FalseBits(bits: seq<bool>): (r: seq<nat>)
    ensures Ascending(r)
    ensures forall i :: 0 <= i < |r| ==> r[i] < |bits| && !bits[r[i]]
    ensures forall x :: 0 <= x < |bits| && !bits[x] ==> x in r
  {
    PositionsFrom(bits, false, 0)
  }

  /**
   * No position strictly between two neighbouring entries of the iteration
   * (or before the first, or after the last) has the bit value iterated over.
   */
  lemma BetweenPositions(bits: seq<bool>, v: bool, j: nat, x: nat)
    requires j <= |PositionsFrom(bits, v, 0)| && x < |bits|
    requires j > 0 ==> PositionsFrom(bits, v, 0)[j - 1] < x
    requires j < |PositionsFrom(bits, v, 0)| ==> x < PositionsFrom(bits, v, 0)[j]
    ensures bits[x] != v
  {
    var r := PositionsFrom(bits, v, 0);
    forall m | 0 <= m < |r|
      ensures r[m] != x
    {
      if m < j {
        assert r[m] <= r[j - 1];
      } else {
        assert r[j] <= r[m];
      }
    }
  }

  /** The first entry of falsebits() is the lowest unset position. */
  lemma FirstFalseBit(bits: seq<bool>, k: nat)
    requires k < |bits| && !bits[k] && forall i :: 0 <= i < k ==> bits[i]
    ensures |FalseBits(bits)| > 0 && FalseBits(bits)[0] == k
  {
    var r := FalseBits(bits);
    var m :| 0 <= m < |r| && r[m] == k;
    assert r[0] <= k;
  }

  /** Every position is visited by exactly one of truebits() and falsebits(). */
  lemma {:induction false} CountsAddUp(bits: seq<bool>, from: nat)
    requires from <= |bits|
    ensures |PositionsFrom(bits, true, from)| + |PositionsFrom(bits, false, from)| == |bits| - from
    decreases |bits| - from
  {
    if from < |bits| {
      CountsAddUp(bits, from + 1);
    }
  }

  /** Setting a bit moves exactly that position from falsebits() to truebits(). */
  lemma {:induction false} SetCount(bits: seq<bool>, p: nat, from: nat)
    requires from <= p < |bits| && !bits[p]
    ensures |PositionsFrom(bits[p := true], true, from)| == |PositionsFrom(bits, true, from)| + 1
    decreases |bits| - from
  {
    if from < p {
      SetCount(bits, p, from + 1);
    } else {
      SameAbove(bits, bits[p := true], true, from + 1);
    }
  }

  /** Unsetting a bit moves exactly that position from truebits() to falsebits(). */
  lemma {:induction false} UnsetCount(bits: seq<bool>, p: nat, from: nat)
    requires from <= p < |bits| && bits[p]
    ensures |PositionsFrom(bits[p := false], true, from)| + 1 == |PositionsFrom(bits, true, from)|
    decreases |bits| - from
  {
    if from < p {
      UnsetCount(bits, p, from + 1);
    } else {
      SameAbove(bits, bits[p := false], true, from + 1);
    }
  }

  /** The iteration from `from` on only depends on the bits from `from` on. */
  lemma {:induction false} SameAbove(a: seq<bool>, b: seq<bool>, v: bool, from: nat)
    requires from <= |a| == |b| && a[from..] == b[from..]
    ensures PositionsFrom(a, v, from) == PositionsFrom(b, v, from)
    decreases |a| - from
  {
    if from < |a| {
      assert a[from] == a[from..][0] == b[from..][0] == b[from];
      assert a[from + 1..] == a[from..][1..];
      assert b[from + 1..] == b[from..][1..];
      SameAbove(a, b, v, from + 1);
    }
  }

  /** A non-empty sequence holds its first element. */
  lemma HeadIsMember(s: seq<nat>)
    ensures |s| > 0 ==> s[0] in s
  {
  }

  /** With equal heads, a member of one ascending tail is a member of the other tail. */
  lemma TailMember(a: seq<nat>, b: seq<nat>, x: nat)
    requires Ascending(a) && Ascending(b) && |a| > 0 && |b| > 0 && a[0] == b[0]
    requires forall y :: y in a <==> y in b
    ensures x in a[1..] ==> x in b[1..]
  {
    if x in a[1..] {
      var m :| 1 <= m < |a| && a[m] == x;
      assert a[0] < x && x in b;
      var n :| 0 <= n < |b| && b[n] == x;
      assert b[1..][n - 1] == x;
    }
  }

  /** Two ascending sequences with the same members are equal. */
  lemma {:induction false} AscendingUnique(a: seq<nat>, b: seq<nat>)
    requires Ascending(a) && Ascending(b)
    requires forall x :: x in a <==> x in b
    ensures a == b
    decreases |a|
  {
    if |a| == 0 || |b| == 0 {
      HeadIsMember(a);
      HeadIsMember(b);
    } else {
      assert a[0] in b && b[0] in a;
      var i :| 0 <= i < |b| && b[i] == a[0];
      var j :| 0 <= j < |a| && a[j] == b[0];
      assert a[0] <= a[j] && b[0] <= b[i];
      forall x
        ensures x in a[1..] <==> x in b[1..]
      {
        TailMember(a, b, x);
        TailMember(b, a, x);
      }
      AscendingUnique(a[1..], b[1..]);
      assert a == [a[0]] + a[1..] && b == [b[0]] + b[1..];
    }
  }

  /**
   * The iteration over the positions whose bit is v is the one ascending
   * list of exactly those positions.
   */
  lemma PositionsAre(bits: seq<bool>, v: bool, r: seq<nat>)
    requires Ascending(r)
    requires forall i :: 0 <= i < |r| ==> r[i] < |bits| && bits[r[i]] == v
    requires forall x :: 0 <= x < |bits| && bits[x] == v ==> x in r
    ensures PositionsFrom(bits, v, 0) == r
  {
    AscendingUnique(PositionsFrom(bits, v, 0), r);
  }
}
