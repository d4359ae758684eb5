/**
 * raz::MemoryPool<SIZE, ALIGNMENT> (include/raz/memory.hpp): SIZE bytes cut
 * into chunks of ALIGNMENT bytes, with one bit per chunk recording whether
 * it is in use. allocate hands out the first run of free chunks long enough
 * for the request; deallocate frees the chunks of a region. Addresses are
 * modelled as byte offsets into the pool's memory.
 */
module Memory {
  import opened Wrappers
  import opened Bits

  /** size_t arithmetic is modulo 2^64. */
  const SizeTModulus: nat := 0x1_0000_0000_0000_0000

  /** std::bad_alloc */
  datatype BadAlloc = BadAlloc

  /**
   * The number of chunks for a request, ((bytes - 1) / ALIGNMENT) + 1, in
   * size_t arithmetic: bytes = 0 wraps around to SIZE_MAX.
   */
  function ChunksFor(bytes: nat, alignment: nat): (k: nat)
    requires bytes < SizeTModulus && alignment > 0
    ensures k >= 1
  {
    (bytes + SizeTModulus - 1) % SizeTModulus / alignment + 1
  }

  /** For a request of at least one byte the chunk count is ceil(bytes / ALIGNMENT). */
  lemma ChunksForIsCeiling(bytes: nat, alignment: nat)
    requires 1 <= bytes < SizeTModulus && alignment > 0
    ensures var k := ChunksFor(bytes, alignment);
      (k - 1) * alignment < bytes <= k * alignment
  {
    var q := (bytes - 1) / alignment;
    var r := (bytes - 1) % alignment;
    assert (bytes + SizeTModulus - 1) % SizeTModulus == bytes - 1;
    assert q * alignment + r == bytes - 1;
    assert (q + 1) * alignment == q * alignment + alignment;
  }

  /**
   * A request of 0 bytes asks for more chunks than any pool has: SIZE_MAX /
   * ALIGNMENT + 1 chunks would be more than SIZE bytes.
   */
  lemma ZeroBytesAsksTooMuch(alignment: nat, n: nat)
    requires alignment > 0 && n * alignment < SizeTModulus
    ensures ChunksFor(0, alignment) > n
  {
    var m := SizeTModulus - 1;
    assert (0 + SizeTModulus - 1) % SizeTModulus == m;
    var q := m / alignment;
    var r := m % alignment;
    assert m == q * alignment + r && r < alignment;
    assert (q + 1) * alignment == q * alignment + alignment;
    if q + 1 <= n {
      MulMonotone(q + 1, n, alignment);
    }
  }

  /** allocate(0) throws bad_alloc whatever the state of the pool. */
  lemma ZeroRequestFails(bits: seq<bool>, alignment: nat)
    requires alignment > 0 && |bits| * alignment < SizeTModulus
    ensures FirstFit(bits, ChunksFor(0, alignment)) == None
  {
    ZeroBytesAsksTooMuch(alignment, |bits|);
  }

  /** Chunks p .. p + k - 1 exist and are all free. */
  ghost predicate FreeRun(bits: seq<bool>, p: nat, k: nat)
  {
    p + k <= |bits| && forall i :: p <= i < p + k ==> !bits[i]
  }

  /** The lowest position from p on where k consecutive chunks are free. */
  function FirstFitFrom(bits: seq<bool>, k: nat, p: nat): (r: Option<nat>)
    ensures r.Some? ==> p <= r.value && FreeRun(bits, r.value, k)
                        && forall q: nat :: p <= q < r.value ==> !FreeRun(bits, q, k)
    ensures r.None? ==> forall q: nat :: p <= q ==> !FreeRun(bits, q, k)
    decreases |bits| - p
  {
    if p + k > |bits| then None
    else if forall i :: p <= i < p + k ==> !bits[i] then Some(p)
    else FirstFitFrom(bits, k, p + 1)
  }

  /** First fit: the lowest position where k consecutive chunks are free. */
  function FirstFit(bits: seq<bool>, k: nat): (r: Option<nat>)
    ensures r.Some? ==> FreeRun(bits, r.value, k) && forall q: nat :: q < r.value ==> !FreeRun(bits, q, k)
    ensures r.None? ==> forall q: nat :: !FreeRun(bits, q, k)
  {
    FirstFitFrom(bits, k, 0)
  }

  /** The first fit is the one free run with no free run below it. */
  lemma FirstFitIs(bits: seq<bool>, k: nat, p: nat)
    requires FreeRun(bits, p, k) && forall q: nat :: q < p ==> !FreeRun(bits, q, k)
    ensures FirstFit(bits, k) == Some(p)
  {
    var r := FirstFit(bits, k);
    assert r.Some?;
    assert !(r.value < p);
  }

  /** Bits p .. p + k - 1 set to v, every other bit as it was. */
  function MarkRun(bits: seq<bool>, p: nat, k: nat, v: bool): (r: seq<bool>)
    requires p + k <= |bits|
    ensures |r| == |bits|
    ensures forall i :: 0 <= i < |bits| ==> r[i] == if p <= i < p + k then v else bits[i]
  {
    seq(|bits|, i requires 0 <= i < |bits| => if p <= i < p + k then v else bits[i])
  }

  /** Marking one more chunk of a run. */
  lemma MarkRunStep(bits: seq<bool>, p: nat, n: nat, v: bool)
    requires p + n < |bits|
    ensures MarkRun(bits, p, n + 1, v) == MarkRun(bits, p, n, v)[p + n := v]
  {
    var longer := MarkRun(bits, p, n + 1, v);
    var updated := MarkRun(bits, p, n, v)[p + n := v];
    forall i | 0 <= i < |bits|
      ensures longer[i] == updated[i]
    {
    }
  }

  /** Releasing a run that was just taken from free chunks restores the bitmap. */
  lemma AllocateThenDeallocate(bits: seq<bool>, p: nat, k: nat)
    requires FreeRun(bits, p, k)
    ensures MarkRun(MarkRun(bits, p, k, true), p, k, false) == bits
  {
    var after := MarkRun(MarkRun(bits, p, k, true), p, k, false);
    assert forall i :: 0 <= i < |bits| ==> after[i] == bits[i];
  }

  /** A first fit region, in bytes, lies inside the pool. */
  lemma FirstFitInside(bits: seq<bool>, k: nat, alignment: nat, size: nat)
    requires alignment > 0 && |bits| * alignment == size
    requires FirstFit(bits, k).Some?
    ensures var p := FirstFit(bits, k).value;
      p * alignment + k * alignment <= size
  {
    var p := FirstFit(bits, k).value;
    assert p + k <= |bits|;
    MulMonotone(p + k, |bits|, alignment);
  }

  lemma {:induction false} MulMonotone(x: nat, y: nat, m: nat)
    requires x <= y
    ensures x * m <= y * m
  {
    if m > 0 {
      MulMonotone(x, y, m - 1);
      assert x * m == x * (m - 1) + x && y * m == y * (m - 1) + y;
    }
  }

  /** No position below e starts a free run of k chunks. */
  ghost predicate NoFitBelow(bits: seq<bool>, k: nat, e: nat)
  {
    forall q: nat :: q + k <= e ==> !FreeRun(bits, q, k)
  }

  /**
   * What allocate's scan over falsebits() knows after j entries: no run of k
   * free chunks ends before the last entry seen, and the current run starts
   * at pos (right after a used chunk or at 0), is `size` long and ends at the
   * last entry seen.
   */
  ghost predicate Scanned(bits: seq<bool>, k: nat, j: nat, pos: nat, size: nat)
  {
    var avail := FalseBits(bits);
    && 0 < |avail| && j <= |avail|
    && (j == 0 ==> pos == avail[0] && size == 0)
    && (j > 0 ==>
          && NoFitBelow(bits, k, avail[j - 1] + 1)
          && 1 <= size < k && pos + size == avail[j - 1] + 1
          && FreeRun(bits, pos, size) && (pos == 0 || bits[pos - 1]))
  }

  /** One step of the scan: the next free chunk extends the run or starts a new one. */
  lemma ScanStep(bits: seq<bool>, k: nat, j: nat, pos: nat, size: nat)
    requires k >= 1 && Scanned(bits, k, j, pos, size) && j < |FalseBits(bits)|
    ensures var a := FalseBits(bits)[j];
      if a == pos + size then
        if size + 1 == k then FirstFit(bits, k) == Some(pos)
        else Scanned(bits, k, j + 1, pos, size + 1)
      else Scanned(bits, k, j + 1, a, 1)
  {
    var a := FalseBits(bits)[j];
    if a == pos + size {
      ScanExtends(bits, k, j, pos, size);
      if size + 1 == k {
        FirstFitIs(bits, k, pos);
      }
    } else {
      ScanRestarts(bits, k, j, pos, size);
    }
  }

  /** The next free chunk right after the current run lengthens it by one. */
  lemma ScanExtends(bits: seq<bool>, k: nat, j: nat, pos: nat, size: nat)
    requires k >= 1 && Scanned(bits, k, j, pos, size) && j < |FalseBits(bits)|
    requires FalseBits(bits)[j] == pos + size
    ensures FreeRun(bits, pos, size + 1) && (pos == 0 || bits[pos - 1])
    ensures NoFitBelow(bits, k, pos + size + 1) || size + 1 == k
    ensures forall q: nat :: q < pos ==> !FreeRun(bits, q, k)
    ensures size + 1 < k ==> Scanned(bits, k, j + 1, pos, size + 1)
  {
    var avail := FalseBits(bits);
    var a := avail[j];
    if j == 0 {
      forall q: nat | q < pos
        ensures !FreeRun(bits, q, k)
      {
        BetweenPositions(bits, false, 0, q);
        assert bits[q];
      }
    } else {
      assert avail[j - 1] < a;
      forall q: nat | q < pos
        ensures !FreeRun(bits, q, k)
      {
        if q + k > avail[j - 1] + 1 {
          assert q <= pos - 1 < q + k;
        }
      }
    }
    assert FreeRun(bits, pos, size + 1);
    if size + 1 < k {
      forall q: nat | q + k <= a + 1
        ensures !FreeRun(bits, q, k)
      {
        assert q < pos;
      }
    }
  }

  /** A free chunk after a gap starts a new run of one. */
  lemma ScanRestarts(bits: seq<bool>, k: nat, j: nat, pos: nat, size: nat)
    requires k >= 1 && Scanned(bits, k, j, pos, size) && j < |FalseBits(bits)|
    requires FalseBits(bits)[j] != pos + size
    ensures Scanned(bits, k, j + 1, FalseBits(bits)[j], 1)
  {
    var avail := FalseBits(bits);
    var a := avail[j];
    var seen := avail[j - 1] + 1;
    assert avail[j - 1] < a;
    assert seen < a;
    BetweenPositions(bits, false, j, a - 1);
    forall q: nat | q + k <= a + 1
      ensures !FreeRun(bits, q, k)
    {
      if q + k > seen {
        var e := q + k - 1;
        if e < a {
          BetweenPositions(bits, false, j, e);
        } else {
          assert q <= a - 1 < q + k;
        }
      }
    }
  }

  /** A scan that ran out of free chunks found no fit. */
  lemma ScanDone(bits: seq<bool>, k: nat, pos: nat, size: nat)
    requires k >= 1 && Scanned(bits, k, |FalseBits(bits)|, pos, size)
    ensures FirstFit(bits, k) == None
  {
    var avail := FalseBits(bits);
    var j := |avail|;
    forall q: nat | FreeRun(bits, q, k)
      ensures false
    {
      var e := q + k - 1;
      if j > 0 && avail[j - 1] < e {
        BetweenPositions(bits, false, j, e);
      }
    }
  }

  /** With no free chunk there is no fit. */
  lemma NothingFree(bits: seq<bool>, k: nat)
    requires k >= 1 && |FalseBits(bits)| == 0
    ensures FirstFit(bits, k) == None
  {
    assert forall i :: 0 <= i < |bits| ==> bits[i];
    forall q: nat
      ensures !FreeRun(bits, q, k)
    {
      if q + k <= |bits| {
        assert bits[q];
      }
    }
  }

  /**
   * allocate's scan over falsebits(): it follows the current run of free
   * chunks (current_chunk_pos, current_chunk_size) and stops at the first
   * run that reaches k chunks.
   */
  method FindRun(bits: seq<bool>, k: nat) returns (found: Option<nat>)
    requires k >= 1
    ensures found == FirstFit(bits, k)
  {
    var available := FalseBits(bits);
    if |available| == 0 {
      NothingFree(bits, k);
      return None;
    }
    var start: nat := available[0];
    var length: nat := 0;
    var j: nat := 0;
    while j < |available|
      invariant Scanned(bits, k, j, start, length)
      decreases |available| - j
    {
      ScanStep(bits, k, j, start, length);
      if available[j] == start + length {
        length := length + 1;
        if length == k {
          return Some(start);
        }
      } else {
        start := available[j];
        length := 1;
      }
      j := j + 1;
    }
    ScanDone(bits, k, start, length);
    return None;
  }

  class MemoryPool {
    /** The template parameter SIZE. */
    const size: nat
    /** The template parameter ALIGNMENT. */
    const alignment: nat
    /** m_chunks: one bit per chunk, set while the chunk is handed out. */
    var chunks: seq<bool>

    ghost predicate Valid()
      reads this
    {
      && alignment > 0 && size % alignment == 0 && size < SizeTModulus
      && |chunks| * alignment == size
    }

    /** static_assert(SIZE % ALIGNMENT == 0); every chunk starts out free. */
    constructor (size: nat, alignment: nat)
      requires alignment > 0 && size % alignment == 0 && size < SizeTModulus
      ensures Valid() && this.size == size && this.alignment == alignment
      ensures chunks == AllFalse(size / alignment)
    {
      this.size := size;
      this.alignment := alignment;
      chunks := AllFalse(size / alignment);
    }

    /**
     * allocate(bytes): the offset of the first run of free chunks covering
     * the request, whose chunks become used; bad_alloc and no change when
     * there is none.
     */
    method Allocate(bytes: nat) returns (r: Result<nat, BadAlloc>)
      requires Valid() && bytes < SizeTModulus
      modifies this`chunks
      ensures Valid()
      ensures var k := ChunksFor(bytes, alignment);
        match FirstFit(old(chunks), k)
        case None => r == Err(BadAlloc) && chunks == old(chunks)
        case Some(p) => r == Ok(p * alignment) && chunks == MarkRun(old(chunks), p, k, true)
    {
      var k := ChunksFor(bytes, alignment);
      var found := FindRun(chunks, k);
      if found.None? {
        return Err(BadAlloc);
      }
      var start := found.value;
      Mark(start, k, true);
      return Ok(start * alignment);
    }

    /** deallocate(ptr, bytes): the chunks covering the region become free. */
    method Deallocate(offset: nat, bytes: nat)
      requires Valid() && 1 <= bytes < SizeTModulus
      requires offset / alignment + ChunksFor(bytes, alignment) <= |chunks|
      modifies this`chunks
      ensures Valid()
      ensures chunks == MarkRun(old(chunks), offset / alignment, ChunksFor(bytes, alignment), false)
    {
      var k := ChunksFor(bytes, alignment);
      var start := offset / alignment;
      Mark(start, k, false);
    }

    /** The loop of set(i) (v = true) or unset(i) (v = false) over chunks start .. start + count - 1. */
    method Mark(start: nat, count: nat, v: bool)
      requires Valid() && start + count <= |chunks|
      modifies this`chunks
      ensures Valid()
      ensures chunks == MarkRun(old(chunks), start, count, v)
    {
      ghost var bits := chunks;
      var i := start;
      while i < start + count
        invariant start <= i <= start + count
        invariant chunks == MarkRun(bits, start, i - start, v)
      {
        MarkRunStep(bits, start, i - start, v);
        chunks := chunks[i := v];
        i := i + 1;
      }
    }
  }
}
