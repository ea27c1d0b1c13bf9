/**
 * The kernel's bin allocator. Requests are rounded up to a power of two of
 * at least 8 bytes; bin `k` keeps freed blocks of 2^(k+3) bytes, and memory
 * that no bin can supply is bumped off the front of the region
 * `[start, end]`.
 */
module BinAllocator {
  import opened Results
  import opened Arith
  import opened Align

  const MIN_POW: nat := 3
  const MIN_SIZE: nat := 8
  const MAX_BINS: nat := 32

  function Max(a: nat, b: nat): nat
  {
    if a >= b then a else b
  }

  // ---------------------------------------------------------------------
  // Size classes

  /** The exponent of the least power of two at or above `n`. */
  function CeilLog2(n: nat): (k: nat)
    ensures n <= Pow2(k)
    ensures k > 0 ==> Pow2(k - 1) < n
    decreases n
  {
    if n <= 1 then 0 else 1 + CeilLog2((n + 1) / 2)
  }

  /** `usize::next_power_of_two`, without the overflow. */
  function NextPowerOfTwo(n: nat): (p: nat)
    ensures IsPowerOfTwo(p) && n <= p
  {
    Pow2IsPowerOfTwo(CeilLog2(n));
    Pow2(CeilLog2(n))
  }

  /** `next_power_of_two` is the least power of two at or above `n`. */
  lemma NextPowerOfTwoLeast(n: nat, p: nat)
    ensures IsPowerOfTwo(NextPowerOfTwo(n)) && n <= NextPowerOfTwo(n)
    ensures IsPowerOfTwo(p) && n <= p ==> NextPowerOfTwo(n) <= p
  {
    var c := CeilLog2(n);
    Pow2IsPowerOfTwo(c);
    if IsPowerOfTwo(p) && n <= p {
      var k := Log2(p);
      if c > 0 {
        Pow2Monotone(k, c - 1);
      }
      Pow2Monotone(c, k);
    }
  }

  /** The number of zero bits below the lowest one bit (`trailing_zeros`). */
  function TrailingZeros(n: nat): (z: nat)
    requires n > 0
    ensures Pow2(z) <= n
  {
    if n % 2 == 1 then 0 else 1 + TrailingZeros(n / 2)
  }

  lemma {:induction false} TrailingZerosPow2(k: nat)
    ensures TrailingZeros(Pow2(k)) == k
  {
    if k > 0 {
      TrailingZerosPow2(k - 1);
      assert Pow2(k) / 2 == Pow2(k - 1);
    }
  }

  /** `Allocator::bin_size`: the block size serving a request of `actual` bytes. */
  function BinSize(actual: nat): (bs: nat)
    ensures actual <= bs && MIN_SIZE <= bs
  {
    if actual < MIN_SIZE then MIN_SIZE else NextPowerOfTwo(actual)
  }

  /** `Allocator::bin_num`: the bin holding blocks of `bin_size(size)` bytes. */
  function BinNum(size: nat): (k: nat)
  {
    if size < MIN_SIZE then 0
    else
      BinSizeIsPow2(size);
      Pow2Monotone(MIN_POW, CeilLog2(size));
      TrailingZerosPow2(CeilLog2(size));
      assert Pow2(2) < 8;
      TrailingZeros(BinSize(size)) - MIN_POW
  }

  lemma BinSizeIsPow2(n: nat)
    ensures n >= MIN_SIZE ==> BinSize(n) == Pow2(CeilLog2(n)) && CeilLog2(n) >= MIN_POW
  {
    if n >= MIN_SIZE {
      Pow2Monotone(CeilLog2(n), 2);
    }
  }

  /**
   * A bin size is a power of two of at least 8 that covers the request, and
   * no smaller power of two of at least 8 would.
   */
  lemma BinSizeLeast(n: nat, p: nat)
    ensures IsPowerOfTwo(BinSize(n)) && n <= BinSize(n) && MIN_SIZE <= BinSize(n)
    ensures IsPowerOfTwo(p) && n <= p && MIN_SIZE <= p ==> BinSize(n) <= p
  {
    NextPowerOfTwoLeast(n, p);
    Pow2IsPowerOfTwo(3);
    NextPowerOfTwoLeast(n, 8);
    if n >= MIN_SIZE {
      NextPowerOfTwoLeast(n, 8);
    }
  }

  /** Bin `k` serves blocks of 2^(k+3) bytes. */
  lemma BinNumSize(n: nat)
    ensures Pow2(BinNum(n) + MIN_POW) == BinSize(n)
  {
    BinSizeIsPow2(n);
    if n >= MIN_SIZE {
      TrailingZerosPow2(CeilLog2(n));
    }
  }

  /** A larger request never goes to a lower bin. */
  lemma BinNumMonotone(a: nat, b: nat)
    requires a <= b
    ensures BinNum(a) <= BinNum(b)
  {
    BinNumSize(a);
    BinNumSize(b);
    BinSizeLeast(b, 0);
    BinSizeLeast(a, BinSize(b));
    Pow2Monotone(BinNum(b) + MIN_POW, BinNum(a) + MIN_POW);
    if BinNum(b) < BinNum(a) {
      Pow2Monotone(BinNum(b) + MIN_POW + 1, BinNum(a) + MIN_POW);
    }
  }

  // ---------------------------------------------------------------------
  // Allocator state and its operations, as functions

  datatype AllocErr = Exhausted(size: usize, align: usize)

  /** The allocator's fields; each bin lists free block addresses, head first. */
  datatype Heap = Heap(bins: seq<seq<usize>>, start: usize, end: usize, maxSize: nat, externalFrag: nat)

  predicate HeapOk(h: Heap)
  {
    |h.bins| == MAX_BINS
  }

  /**
   * The unchecked arithmetic and indexing of `alloc` stay in range:
   * `next_power_of_two` does not overflow, the bin scan starts inside the
   * bin array, and neither bump of `start` passes the largest address.
   */
  predicate AllocFits(h: Heap, size: usize, align: usize)
  {
    var eff := Max(align, size);
    eff <= 0x8000_0000_0000_0000 &&
    (eff <= h.maxSize ==>
      BinNum(eff) <= MAX_BINS && h.start + BinSize(eff) <= USIZE_MAX && h.end + BinSize(eff) <= USIZE_MAX)
  }

  /** The first non-empty bin at or after `from`. */
  function FirstNonEmpty(bins: seq<seq<usize>>, from: nat): (r: Option<nat>)
    ensures r.Some? ==> from <= r.value < |bins| && bins[r.value] != [] && forall j :: from <= j < r.value ==> bins[j] == []
    ensures r.None? ==> forall j :: from <= j < |bins| ==> bins[j] == []
    decreases |bins| - from
  {
    if from >= |bins| then None
    else if bins[from] != [] then Some(from)
    else FirstNonEmpty(bins, from + 1)
  }

  /**
   * `Allocator::alloc` as written: the head of the first non-empty bin from
   * `bin_num` up, or else a bump of `start` past the aligned `cur`, which
   * returns the new `start`.
   */
  function AllocSpec(h: Heap, size: usize, align: usize): (Heap, Result<usize, AllocErr>)
    requires HeapOk(h) && IsPowerOfTwo(align) && AllocFits(h, size, align)
  {
    var eff := Max(align, size);
    var bs := BinSize(eff);
    if eff > h.maxSize then (h, Err(Exhausted(size, align)))
    else
      match FirstNonEmpty(h.bins, BinNum(eff))
      case Some(j) =>
        (h.(bins := h.bins[j := h.bins[j][1..]], start := h.start + bs, externalFrag := h.externalFrag + (bs - eff)),
         Ok(h.bins[j][0]))
      case None =>
        var cur := AlignUp(h.start, align);
        if cur > h.end then (h, Err(Exhausted(size, align)))
        else (h.(start := cur + bs, externalFrag := h.externalFrag + (bs - eff)), Ok(cur + bs))
  }

  /** `dealloc` stays in range: the bin exists and `start` does not underflow. */
  predicate DeallocFits(h: Heap, size: usize, align: usize)
  {
    var eff := Max(size, align);
    eff <= 0x8000_0000_0000_0000 && BinNum(eff) < MAX_BINS && h.start >= BinSize(eff)
  }

  /** `Allocator::dealloc`: pushes the block onto its bin and moves `start` back by the bin size. */
  function DeallocSpec(h: Heap, ptr: usize, size: usize, align: usize): Heap
    requires HeapOk(h) && DeallocFits(h, size, align)
  {
    var eff := Max(size, align);
    var num := BinNum(eff);
    h.(bins := h.bins[num := [ptr] + h.bins[num]], start := h.start - BinSize(eff))
  }

  /** A failed allocation changes nothing; a successful one never lowers the fragmentation count, nor empties or grows a bin other than the one it pops. */
  lemma AllocFrame(h: Heap, size: usize, align: usize)
    requires HeapOk(h) && IsPowerOfTwo(align) && AllocFits(h, size, align)
    ensures AllocSpec(h, size, align).1.Err? ==> AllocSpec(h, size, align).0 == h
    ensures HeapOk(AllocSpec(h, size, align).0)
    ensures AllocSpec(h, size, align).0.externalFrag >= h.externalFrag
    ensures AllocSpec(h, size, align).0.end == h.end && AllocSpec(h, size, align).0.maxSize == h.maxSize
    ensures AllocSpec(h, size, align).1 == Err(Exhausted(size, align)) <==>
      Max(align, size) > h.maxSize ||
      (FirstNonEmpty(h.bins, BinNum(Max(align, size))).None? && AlignUp(h.start, align) > h.end)
  {
    BinSizeLeast(Max(align, size), 0);
  }

  /**
   * When some bin at or above the request's bin has a free block, `alloc`
   * hands out the head of the lowest such bin, whose blocks are at least
   * as large as the request; every other bin is untouched.
   */
  lemma AllocFromBin(h: Heap, size: usize, align: usize)
    requires HeapOk(h) && IsPowerOfTwo(align) && AllocFits(h, size, align)
    requires Max(align, size) <= h.maxSize && FirstNonEmpty(h.bins, BinNum(Max(align, size))).Some?
    ensures var j := FirstNonEmpty(h.bins, BinNum(Max(align, size))).value;
      var (h', r) := AllocSpec(h, size, align);
      r == Ok(h.bins[j][0]) &&
      h'.bins[j] == h.bins[j][1..] &&
      (forall i :: 0 <= i < MAX_BINS && i != j ==> h'.bins[i] == h.bins[i]) &&
      Max(align, size) <= BinSize(Max(align, size)) <= Pow2(j + MIN_POW)
  {
    var eff := Max(align, size);
    var j := FirstNonEmpty(h.bins, BinNum(eff)).value;
    BinCovers(eff, j);
    AllocHit(h, size, align, j);
  }

  /** A bin at or above the request's own bin holds blocks at least as large as the request's bin size. */
  lemma BinCovers(eff: nat, j: nat)
    requires BinNum(eff) <= j
    ensures eff <= BinSize(eff) <= Pow2(j + MIN_POW)
  {
    BinNumSize(eff);
    Pow2Monotone(BinNum(eff) + MIN_POW, j + MIN_POW);
  }

  /**
   * As written, the bump path returns `cur + bin_size`, the new `start`:
   * the block handed out begins where the reserved one ends.
   */
  lemma BumpReturnsNewStart(h: Heap, size: usize, align: usize)
    requires HeapOk(h) && IsPowerOfTwo(align) && AllocFits(h, size, align)
    requires Max(align, size) <= h.maxSize && FirstNonEmpty(h.bins, BinNum(Max(align, size))).None?
    requires AlignUp(h.start, align) <= h.end
    ensures var (h', r) := AllocSpec(h, size, align);
      r == Ok(h'.start) && h'.start == AlignUp(h.start, align) + BinSize(Max(align, size)) && h'.bins == h.bins
  {
  }

  /**
   * An 8-byte request on an empty 8-byte region `[0, 8]`: as written the
   * allocator returns address 8, whose block `[8, 16)` lies past `end`; the
   * intended allocator returns address 0.
   */
  lemma BumpLeavesRegion()
    ensures var h := Heap(seq(MAX_BINS, _ => []), 0, 8, 8, 0);
      AllocSpec(h, 8, 8).1 == Ok(8) && 8 + 8 > h.end &&
      AllocIntended(h, 8, 8).1 == Ok(0)
  {
    var h := Heap(seq(MAX_BINS, _ => []), 0, 8, 8, 0);
    assert FirstNonEmpty(h.bins, BinNum(8)).None?;
    assert BinSize(8) == 8 by { assert CeilLog2(8) == 3; }
    Pow2IsPowerOfTwo(3);
    AlignUpAligned(0, 8);
  }

  /**
   * `alloc` as evidently intended: the bump path returns the aligned `cur`
   * and fails when the block would not fit before `end` (or when aligning
   * overflows).
   */
  function AllocIntended(h: Heap, size: usize, align: usize): (Heap, Result<usize, AllocErr>)
    requires HeapOk(h) && IsPowerOfTwo(align) && AllocFits(h, size, align)
  {
    var eff := Max(align, size);
    var bs := BinSize(eff);
    if eff > h.maxSize then (h, Err(Exhausted(size, align)))
    else
      match FirstNonEmpty(h.bins, BinNum(eff))
      case Some(j) =>
        (h.(bins := h.bins[j := h.bins[j][1..]], start := h.start + bs, externalFrag := h.externalFrag + (bs - eff)),
         Ok(h.bins[j][0]))
      case None =>
        match AlignUpChecked(h.start, align)
        case None => (h, Err(Exhausted(size, align)))
        case Some(cur) =>
          if cur + bs > h.end then (h, Err(Exhausted(size, align)))
          else (h.(start := cur + bs, externalFrag := h.externalFrag + (bs - eff)), Ok(cur))
  }

  /**
   * A block bumped by the intended allocator is aligned, lies inside
   * `[start, end]`, is large enough for the request, and the new `start`
   * is just past it.
   */
  lemma IntendedBumpInRegion(h: Heap, size: usize, align: usize)
    requires HeapOk(h) && IsPowerOfTwo(align) && AllocFits(h, size, align)
    requires FirstNonEmpty(h.bins, BinNum(Max(align, size))).None?
    requires AllocIntended(h, size, align).1.Ok?
    ensures var (h', r) := AllocIntended(h, size, align);
      var ptr := r.value;
      h.start <= ptr && ptr % align == 0 && ptr + Max(align, size) <= h'.start == ptr + BinSize(Max(align, size)) <= h.end
  {
    BinSizeLeast(Max(align, size), 0);
  }

  /**
   * `dealloc` leaves the fragmentation count, the region end and every
   * other bin alone; the freed block becomes the head of its bin, whose
   * blocks are at least as large as the freed layout.
   */
  lemma DeallocFrame(h: Heap, ptr: usize, size: usize, align: usize)
    requires HeapOk(h) && DeallocFits(h, size, align)
    ensures var h' := DeallocSpec(h, ptr, size, align);
      var num := BinNum(Max(size, align));
      HeapOk(h') && h'.externalFrag == h.externalFrag && h'.end == h.end && h'.maxSize == h.maxSize &&
      h'.bins[num][0] == ptr && h'.bins[num][1..] == h.bins[num] &&
      (forall i :: 0 <= i < MAX_BINS && i != num ==> h'.bins[i] == h.bins[i]) &&
      Max(size, align) <= Pow2(num + MIN_POW) && h'.start + Pow2(num + MIN_POW) == h.start
  {
    BinNumSize(Max(size, align));
    BinSizeLeast(Max(size, align), 0);
  }

  /**
   * Freeing a block and then asking for the same layout hands the same
   * block back and restores the bins and `start`.
   */
  lemma DeallocThenAlloc(h: Heap, ptr: usize, size: usize, align: usize)
    requires HeapOk(h) && IsPowerOfTwo(align) && DeallocFits(h, size, align)
    requires Max(size, align) <= h.maxSize && h.end + BinSize(Max(size, align)) <= USIZE_MAX
    ensures var h1 := DeallocSpec(h, ptr, size, align);
      AllocFits(h1, size, align) &&
      AllocSpec(h1, size, align) == (h.(externalFrag := h.externalFrag + (BinSize(Max(size, align)) - Max(size, align))), Ok(ptr))
  {
    var eff := Max(size, align);
    var num, bs := BinNum(eff), BinSize(eff);
    var h1 := DeallocSpec(h, ptr, size, align);
    DeallocFrame(h, ptr, size, align);
    BinNumSize(eff);
    assert Max(align, size) == eff;
    assert h1.start + bs == h.start;
    assert AllocFits(h1, size, align);
    assert h1.bins[num] == [ptr] + h.bins[num];
    assert FirstNonEmpty(h1.bins, num) == Some(num);
    AllocHit(h1, size, align, num);
    assert h1.bins[num := h1.bins[num][1..]] == h.bins;
    assert h1.bins[num][0] == ptr && h1.externalFrag == h.externalFrag;
    assert h1.(bins := h.bins, start := h.start, externalFrag := h.externalFrag + (bs - eff))
        == h.(externalFrag := h.externalFrag + (bs - eff));
  }

  /** The result of `alloc` when bin `j` is the first with a free block. */
  lemma AllocHit(h: Heap, size: usize, align: usize, j: nat)
    requires HeapOk(h) && IsPowerOfTwo(align) && AllocFits(h, size, align)
    requires Max(align, size) <= h.maxSize && FirstNonEmpty(h.bins, BinNum(Max(align, size))) == Some(j)
    ensures var bs := BinSize(Max(align, size));
      AllocSpec(h, size, align) ==
        (h.(bins := h.bins[j := h.bins[j][1..]], start := h.start + bs, externalFrag := h.externalFrag + (bs - Max(align, size))),
         Ok(h.bins[j][0]))
  {
  }

  /** The result of `alloc` when no bin has a free block and the aligned start is inside the region. */
  lemma AllocBump(h: Heap, size: usize, align: usize)
    requires HeapOk(h) && IsPowerOfTwo(align) && AllocFits(h, size, align)
    requires Max(align, size) <= h.maxSize && FirstNonEmpty(h.bins, BinNum(Max(align, size))).None?
    requires AlignUp(h.start, align) <= h.end
    ensures var bs := BinSize(Max(align, size));
      var cur := AlignUp(h.start, align);
      cur + bs <= USIZE_MAX &&
      AllocSpec(h, size, align) ==
        (h.(start := cur + bs, externalFrag := h.externalFrag + (bs - Max(align, size))), Ok(cur + bs))
  {
  }

  // ---------------------------------------------------------------------
  // The allocator object

  class Allocator {
    var bins: seq<seq<usize>>
    var start: usize
    const end: usize
    const maxSize: nat
    var externalFrag: nat

    ghost predicate Valid()
      reads this
    {
      |bins| == MAX_BINS
    }

    function State(): Heap
      reads this
    {
      Heap(bins, start, end, maxSize, externalFrag)
    }

    /** `Allocator::new`: all bins empty, the largest block the region's size rounded up. */
    constructor(start: usize, end: usize)
      requires start <= end
      ensures Valid()
      ensures State() == Heap(seq(MAX_BINS, _ => []), start, end, BinSize(end - start), 0)
    {
      bins := seq(MAX_BINS, _ => []);
      this.start := start;
      this.end := end;
      maxSize := BinSize(end - start);
      externalFrag := 0;
    }

    /** The scan of `bins[num..]` in `alloc`: the first bin with a free block. */
    method FindBin(num: nat) returns (found: Option<nat>)
      requires Valid()
      ensures found == FirstNonEmpty(bins, num)
      ensures found.Some? ==> num <= found.value < MAX_BINS && bins[found.value] != []
    {
      var i := num;
      while i < |bins|
        invariant num <= i
        invariant FirstNonEmpty(bins, num) == FirstNonEmpty(bins, i)
        decreases |bins| - i
      {
        if bins[i] != [] {
          return Some(i);
        }
        i := i + 1;
      }
      return None;
    }

    method Alloc(size: usize, align: usize) returns (r: Result<usize, AllocErr>)
      requires Valid() && IsPowerOfTwo(align) && AllocFits(State(), size, align)
      modifies this
      ensures Valid()
      ensures (State(), r) == AllocSpec(old(State()), size, align)
    {
      var eff := Max(align, size);
      var num := BinNum(eff);
      var bs := BinSize(eff);
      if eff > maxSize {
        return Err(Exhausted(size, align));
      }
      ghost var h := State();
      var found := FindBin(num);
      if found.Some? {
        var j := found.value;
        AllocHit(h, size, align, j);
        var node := bins[j][0];
        bins := bins[j := bins[j][1..]];
        start := start + bs;
        externalFrag := externalFrag + (bs - eff);
        return Ok(node);
      }
      var cur := AlignUp(start, align);
      if cur > end {
        return Err(Exhausted(size, align));
      }
      AllocBump(h, size, align);
      start := cur + bs;
      externalFrag := externalFrag + (bs - eff);
      return Ok(start);
    }

    method Dealloc(ptr: usize, size: usize, align: usize)
      requires Valid() && DeallocFits(State(), size, align)
      modifies this
      ensures Valid()
      ensures State() == DeallocSpec(old(State()), ptr, size, align)
    {
      var eff := Max(size, align);
      var num := BinNum(eff);
      var bs := BinSize(eff);
      bins := bins[num := [ptr] + bins[num]];
      start := start - bs;
    }
  }
}
