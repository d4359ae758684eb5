/**
 * The bitset example (examples/bitset/bitset.cpp): a Container of N slots
 * whose occupancy is kept in a Bitset<N>, and the Bitset<32> demo of main.
 */
module BitsetExample {
  import opened Wrappers
  import opened Bits

  /** The elements of the used slots in ascending slot order: what iterating a Container visits. */
  function Visible<T>(elements: seq<T>, used: seq<bool>): (r: seq<T>)
    requires |elements| == |used|
    ensures |r| == |TrueBits(used)|
    ensures forall k :: 0 <= k < |r| ==> r[k] == elements[TrueBits(used)[k]]
  {
    var occupied := TrueBits(used);
    seq(|occupied|, k requires 0 <= k < |occupied| => elements[occupied[k]])
  }

  /** An element is visited exactly when some used slot holds it. */
  lemma VisibleMembers<T>(elements: seq<T>, used: seq<bool>, x: T)
    requires |elements| == |used|
    ensures x in Visible(elements, used) <==> exists p :: 0 <= p < |used| && used[p] && elements[p] == x
  {
    var r := Visible(elements, used);
    var occupied := TrueBits(used);
    if x in r {
      var k :| 0 <= k < |r| && r[k] == x;
      assert used[occupied[k]] && elements[occupied[k]] == x;
    }
    if exists p :: 0 <= p < |used| && used[p] && elements[p] == x {
      var p :| 0 <= p < |used| && used[p] && elements[p] == x;
      var k :| 0 <= k < |occupied| && occupied[k] == p;
      assert r[k] == x;
    }
  }

  /** The lowest used slot from `from` on whose element equals t. */
  function FirstMatchFrom<T(==)>(elements: seq<T>, used: seq<bool>, t: T, from: nat): (r: Option<nat>)
    requires |elements| == |used| && from <= |used|
    ensures r.Some? ==> from <= r.value < |used| && used[r.value] && elements[r.value] == t
    ensures r.Some? ==> forall q :: from <= q < r.value && used[q] ==> elements[q] != t
    ensures r.None? ==> forall q :: from <= q < |used| && used[q] ==> elements[q] != t
    decreases |used| - from
  {
    if from == |used| then None
    else if used[from] && elements[from] == t then Some(from)
    else FirstMatchFrom(elements, used, t, from + 1)
  }

  /** The slot remove(t) frees: the lowest used slot holding t, if any. */
  function FirstMatch<T(==)>(elements: seq<T>, used: seq<bool>, t: T): (r: Option<nat>)
    requires |elements| == |used|
    ensures r.Some? ==> r.value < |used| && used[r.value] && elements[r.value] == t
    ensures r.Some? ==> forall q :: 0 <= q < r.value && used[q] ==> elements[q] != t
    ensures r.None? ==> forall q :: 0 <= q < |used| && used[q] ==> elements[q] != t
  {
    FirstMatchFrom(elements, used, t, 0)
  }

  /** A used slot holding t with no such slot below it is the first match. */
  lemma FirstMatchIs<T>(elements: seq<T>, used: seq<bool>, t: T, p: nat)
    requires |elements| == |used| && p < |used| && used[p] && elements[p] == t
    requires forall q :: 0 <= q < p && used[q] ==> elements[q] != t
    ensures FirstMatch(elements, used, t) == Some(p)
  {
    var r := FirstMatch(elements, used, t);
    assert r.Some?;
    assert !(r.value < p);
  }

  /** The first entry of falsebits() is the lowest free slot. */
  lemma LowestFreeSlot(used: seq<bool>)
    requires |FalseBits(used)| > 0
    ensures var p := FalseBits(used)[0];
      !used[p] && forall q :: 0 <= q < p ==> used[q]
  {
    var p := FalseBits(used)[0];
    forall q | 0 <= q < p
      ensures used[q]
    {
      BetweenPositions(used, false, 0, q);
    }
  }

  /** falsebits() is empty exactly when every slot is used. */
  lemma FullIffNoFreeSlot(used: seq<bool>)
    ensures |FalseBits(used)| == 0 <==> forall q :: 0 <= q < |used| ==> used[q]
  {
    if |FalseBits(used)| > 0 {
      assert !used[FalseBits(used)[0]];
    }
  }

  class Container<T(==)> {
    /** m_elements: std::array<T, N> */
    const elements: array<T>
    /** m_elements_bits: which slots are occupied */
    var used: seq<bool>

    ghost predicate Valid()
      reads this
    {
      |used| == elements.Length
    }

    /**
     * Container() = default: N = |init| slots, none occupied. The array of a
     * POD type starts out with indeterminate contents, given here as init.
     */
    constructor (init: seq<T>)
      ensures Valid() && fresh(elements)
      ensures elements[..] == init && used == AllFalse(|init|)
    {
      elements := new T[|init|](i requires 0 <= i < |init| => init[i]);
      used := AllFalse(|init|);
    }

    /** Iterating begin() .. end(): the occupied elements in ascending slot order. */
    function Contents(): (r: seq<T>)
      reads this, elements
      requires Valid()
      ensures |r| == |TrueBits(used)|
    {
      Visible(elements[..], used)
    }

    /** count(): the number of occupied slots, which with the free ones makes up N. */
    function Count(): (n: nat)
      reads this, elements
      requires Valid()
      ensures n == |Contents()|
      ensures n + |FalseBits(used)| == elements.Length
    {
      CountsAddUp(used, 0);
      |TrueBits(used)|
    }

    /**
     * add(t): t goes into the first free slot, which becomes occupied; false
     * and no change when the container is full.
     */
    method Add(t: T) returns (ok: bool)
      requires Valid()
      modifies this`used, elements
      ensures Valid()
      ensures var free := FalseBits(old(used));
        && ok == (|free| > 0)
        && (!ok ==> used == old(used) && elements[..] == old(elements[..]))
        && (ok ==> used == old(used)[free[0] := true] && elements[..] == old(elements[..])[free[0] := t])
      ensures ok ==> Count() == old(Count()) + 1 && t in Contents()
    {
      var free := FalseBits(used);
      if |free| == 0 {
        return false;
      }
      var pos := free[0];
      SetCount(used, pos, 0);
      used := used[pos := true];
      elements[pos] := t;
      VisibleMembers(elements[..], used, t);
      assert used[pos] && elements[..][pos] == t;
      return true;
    }

    /**
     * remove(t): the first occupied slot, in truebits() order, holding t is
     * freed; nothing changes when no occupied slot holds t.
     */
    method Remove(t: T)
      requires Valid()
      modifies this`used
      ensures Valid()
      ensures match FirstMatch(elements[..], old(used), t)
        case None => used == old(used)
        case Some(p) => used == old(used)[p := false] && Count() + 1 == old(Count())
    {
      var found := FindInUsed(elements[..], used, t);
      if found.Some? {
        UnsetCount(used, found.value, 0);
        used := used[found.value := false];
      }
    }
  }

  /**
   * remove's search: the used slots are visited in truebits() order and the
   * first one holding t is the answer.
   */
  method FindInUsed<T(==)>(elements: seq<T>, used: seq<bool>, t: T) returns (found: Option<nat>)
    requires |elements| == |used|
    ensures found == FirstMatch(elements, used, t)
  {
    var occupied := TrueBits(used);
    for j := 0 to |occupied|
      invariant forall m :: 0 <= m < j ==> elements[occupied[m]] != t
    {
      var slot := occupied[j];
      if elements[slot] == t {
        NoMatchBelow(elements, used, t, j);
        FirstMatchIs(elements, used, t, slot);
        return Some(slot);
      }
    }
    NoMatchBelow(elements, used, t, |occupied|);
    return None;
  }

  /**
   * When the first j used slots in truebits() order do not hold t, no used
   * slot below the next one (or below N when there is none) holds t.
   */
  lemma NoMatchBelow<T>(elements: seq<T>, used: seq<bool>, t: T, j: nat)
    requires |elements| == |used| && j <= |TrueBits(used)|
    requires forall m :: 0 <= m < j ==> elements[TrueBits(used)[m]] != t
    ensures var bound := if j < |TrueBits(used)| then TrueBits(used)[j] else |used|;
      forall q :: 0 <= q < bound && used[q] ==> elements[q] != t
  {
    var occupied := TrueBits(used);
    var bound := if j < |occupied| then occupied[j] else |used|;
    forall q | 0 <= q < bound && used[q]
      ensures elements[q] != t
    {
      var m :| 0 <= m < |occupied| && occupied[m] == q;
      assert m < j;
    }
  }

  /**
   * main with USE_CONTAINER_EXAMPLE: a Container<int, 32> gets 7, 99, 123
   * and -50, loses 7, and iterating it shows 99, 123, -50.
   */
  method ContainerDemo(init: seq<int>) returns (shown: seq<int>)
    requires |init| == 32
    ensures shown == [99, 123, -50]
  {
    var container := new Container(init);
    AddDemoElements(container);
    FirstMatchIs(container.elements[..], container.used, 7, 0);
    container.Remove(7);
    assert forall x :: 0 <= x < 32 ==> (container.used[x] <==> 1 <= x <= 3);
    OneToThreeVisible(container.elements[..], container.used);
    shown := container.Contents();
  }

  /** add(t) on a container whose slots below k are used and slot k is free puts t in slot k. */
  method AddToLowestFree(container: Container<int>, t: int, k: nat)
    requires container.Valid() && k < |container.used| && !container.used[k]
    requires forall x :: 0 <= x < k ==> container.used[x]
    modifies container, container.elements
    ensures container.Valid()
    ensures container.used == old(container.used)[k := true]
    ensures container.elements[..] == old(container.elements[..])[k := t]
  {
    FirstFalseBit(container.used, k);
    var ok := container.Add(t);
  }

  /** The four adds of ContainerDemo fill slots 0 .. 3 of an empty Container in call order. */
  method AddDemoElements(container: Container<int>)
    requires container.Valid() && container.elements.Length == 32
    requires forall x :: 0 <= x < 32 ==> !container.used[x]
    modifies container, container.elements
    ensures container.Valid() && forall x :: 0 <= x < 32 ==> (container.used[x] <==> x < 4)
    ensures container.elements[0] == 7 && container.elements[1] == 99
    ensures container.elements[2] == 123 && container.elements[3] == -50
  {
    AddToLowestFree(container, 7, 0);
    AddToLowestFree(container, 99, 1);
    AddToLowestFree(container, 123, 2);
    AddToLowestFree(container, -50, 3);
  }

  /** With exactly slots 1, 2 and 3 occupied, iteration shows their elements in slot order. */
  lemma OneToThreeVisible(elements: seq<int>, used: seq<bool>)
    requires |elements| == |used| == 32 && forall x :: 0 <= x < 32 ==> (used[x] <==> 1 <= x <= 3)
    ensures Visible(elements, used) == [elements[1], elements[2], elements[3]]
  {
    OneToThreeOccupied(used);
  }

  /** 32 slots of which exactly 1, 2 and 3 are occupied are visited in that order. */
  lemma OneToThreeOccupied(used: seq<bool>)
    requires |used| == 32 && forall x :: 0 <= x < 32 ==> (used[x] <==> 1 <= x <= 3)
    ensures TrueBits(used) == [1, 2, 3]
  {
    forall x | 0 <= x < 32 && used[x]
      ensures x in [1, 2, 3]
    {
      assert x == 1 || x == 2 || x == 3;
    }
    PositionsAre(used, true, [1, 2, 3]);
  }

  /** The bits main sets in its Bitset<32>. */
  const DemoBits: seq<nat> := [1, 6, 22, 23, 24]

  /**
   * main: a default Bitset<32> with bits 1, 6, 22, 23 and 24 set; truebits()
   * visits exactly those, in that order, and falsebits() the other 27,
   * in ascending order.
   */
  method BitsetDemo() returns (trues: seq<nat>, falses: seq<nat>)
    ensures trues == DemoBits
    ensures |falses| == 27 && forall x :: 0 <= x < 32 ==> (x in falses <==> x !in DemoBits)
    ensures Ascending(falses)
  {
    var bitset := AllFalse(32);
    bitset := bitset[1 := true];
    bitset := bitset[6 := true];
    bitset := bitset[22 := true];
    bitset := bitset[23 := true];
    bitset := bitset[24 := true];
    PositionsAre(bitset, true, DemoBits);
    trues := TrueBits(bitset);
    falses := FalseBits(bitset);
    CountsAddUp(bitset, 0);
  }
}
