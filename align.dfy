/**
 * Address alignment for the kernel allocator, on 64-bit `usize` addresses.
 */
module Align {
  import opened Results
  import opened Arith

  const USIZE_MAX := 0xFFFF_FFFF_FFFF_FFFF
  type usize = x: int | 0 <= x <= USIZE_MAX

  /** `n` is 1, 2, 4, 8, ... */
  predicate IsPowerOfTwo(n: nat)
    decreases n
  {
    n == 1 || (n > 1 && n % 2 == 0 && IsPowerOfTwo(n / 2))
  }

  /** The exponent of a power of two. */
  function Log2(n: nat): (k: nat)
    requires IsPowerOfTwo(n)
    ensures Pow2(k) == n
    decreases n
  {
    if n == 1 then 0 else 1 + Log2(n / 2)
  }

  lemma {:induction false} Pow2IsPowerOfTwo(k: nat)
    ensures IsPowerOfTwo(Pow2(k))
  {
    if k > 0 {
      Pow2IsPowerOfTwo(k - 1);
      assert Pow2(k) / 2 == Pow2(k - 1);
    }
  }

  // ---------------------------------------------------------------------
  // Multiples

  /** 2^64, one past the largest address, is a multiple of every power of two that is an address. */
  lemma WordSizeMultiple(align: usize)
    requires IsPowerOfTwo(align)
    ensures (USIZE_MAX + 1) % align == 0
  {
    Log2Below64(align);
    Pow2Multiple(Log2(align), 64);
    Pow2Value64();
  }

  /** A power of two divides every larger power of two. */
  lemma {:induction false} Pow2Multiple(e: nat, w: nat)
    requires e <= w
    ensures Pow2(w) % Pow2(e) == 0
    decreases w
  {
    if w > e {
      Pow2Multiple(e, w - 1);
      var a := Pow2(e);
      var m := Pow2(w - 1) / a;
      assert Pow2(w - 1) == m * a;
      var k := 2 * m;
      assert Pow2(w) == k * a;
      MultipleMod(k, a);
    } else {
      MultipleMod(1, Pow2(e));
    }
  }

  lemma Log2Below64(align: usize)
    requires IsPowerOfTwo(align)
    ensures Log2(align) < 64
  {
    Pow2Value64();
    Pow2Monotone(64, Log2(align));
  }

  lemma Pow2Value64()
    ensures Pow2(64) == USIZE_MAX + 1
  {
    assert Pow2(8) == 256;
    Pow2Add(8, 8);
    assert Pow2(16) == 256 * 256 == 0x1_0000;
    Pow2Add(16, 16);
    assert Pow2(32) == 0x1_0000 * 0x1_0000 == 0x1_0000_0000;
    Pow2Add(32, 32);
    assert Pow2(64) == 0x1_0000_0000 * 0x1_0000_0000 == 0x1_0000_0000_0000_0000;
  }

  // ---------------------------------------------------------------------
  // align_down and align_up

  /** `usize::saturating_add`: the sum, or the largest address when it would overflow. */
  function SaturatingAdd(a: usize, b: usize): (r: usize)
    ensures a + b <= USIZE_MAX ==> r == a + b
    ensures a + b > USIZE_MAX ==> r == USIZE_MAX
  {
    if a + b > USIZE_MAX then USIZE_MAX else a + b
  }

  /** `align_down`: rounds `addr` down to a multiple of `align`, a power of two. */
  function AlignDown(addr: usize, align: usize): (r: usize)
    requires IsPowerOfTwo(align)
    ensures r <= addr && r % align == 0 && addr - r < align
  {
    var q := addr / align;
    MultipleMod(q, align);
    q * align
  }

  /** `align_up`: rounds `addr + align - 1` down, saturating at the largest address. */
  function AlignUp(addr: usize, align: usize): (r: usize)
    requires IsPowerOfTwo(align)
    ensures r % align == 0
    ensures addr + align - 1 <= USIZE_MAX ==> addr <= r && r - addr < align
  {
    AlignDown(SaturatingAdd(addr, align - 1), align)
  }

  /** An address is its own round-down exactly when it is already aligned. */
  lemma AlignDownFixedIffAligned(addr: usize, align: usize)
    requires IsPowerOfTwo(align)
    ensures AlignDown(addr, align) == addr <==> addr % align == 0
  {
  }

  /** Rounding down gives the greatest multiple of `align` not above `addr`. */
  lemma AlignDownGreatest(addr: usize, align: usize, m: nat)
    requires IsPowerOfTwo(align) && m % align == 0 && m <= addr
    ensures m <= AlignDown(addr, align)
  {
    MultiplesApart(AlignDown(addr, align), m, align);
  }

  /** Without overflow, rounding up gives the least multiple of `align` not below `addr`. */
  lemma AlignUpLeast(addr: usize, align: usize, m: nat)
    requires IsPowerOfTwo(align) && addr + align - 1 <= USIZE_MAX
    requires m % align == 0 && addr <= m
    ensures AlignUp(addr, align) <= m
  {
    MultiplesApart(m, AlignUp(addr, align), align);
  }

  /** Rounding up an address that is already aligned leaves it alone. */
  lemma AlignUpAligned(addr: usize, align: usize)
    requires IsPowerOfTwo(align) && addr % align == 0
    ensures AlignUp(addr, align) == addr
  {
    if addr + align - 1 <= USIZE_MAX {
      AlignUpLeast(addr, align, addr);
    } else {
      var r := AlignUp(addr, align);
      assert r == AlignDown(USIZE_MAX, align);
      AlignDownGreatest(USIZE_MAX, align, addr);
      MultiplesApart(addr, r, align);
    }
  }

  /** Rounding up twice is rounding up once. */
  lemma AlignUpIdempotent(addr: usize, align: usize)
    requires IsPowerOfTwo(align)
    ensures AlignUp(AlignUp(addr, align), align) == AlignUp(addr, align)
  {
    AlignUpAligned(AlignUp(addr, align), align);
  }

  /**
   * Near the top of the address space the saturating add makes `align_up`
   * round down: the result is below `addr`.
   */
  lemma AlignUpSaturates()
    ensures AlignUp(USIZE_MAX, 8) < USIZE_MAX
  {
  }

  /**
   * Rounding up with the overflow of `addr + align - 1` reported instead of
   * saturated (`checked_add`): `None` exactly when every aligned address
   * lies below `addr`, so that no answer exists.
   */
  function AlignUpChecked(addr: usize, align: usize): (r: Option<usize>)
    requires IsPowerOfTwo(align)
    ensures r.Some? ==> addr <= r.value && r.value % align == 0 && r.value - addr < align
    ensures r.None? <==> AlignDown(USIZE_MAX, align) < addr
  {
    var top := AlignDown(USIZE_MAX, align);
    if addr + align - 1 <= USIZE_MAX then
      AlignDownGreatest(USIZE_MAX, align, AlignUp(addr, align));
      Some(AlignUp(addr, align))
    else
      WordSizeMultiple(align);
      MultiplesApart(top, USIZE_MAX + 1, align);
      None
  }
}
