/**
 * Fixed-width unsigned integers and the little-endian byte codec used by
 * the on-disk structures (Master Boot Record fields, FAT entries).
 */
module Bytes {

  type u8 = x: int | 0 <= x < 0x100
  type u16 = x: int | 0 <= x < 0x1_0000
  type u32 = x: int | 0 <= x < 0x1_0000_0000
  type u64 = x: int | 0 <= x < 0x1_0000_0000_0000_0000

  /** 256 to the power `n`: one more than the largest `n`-byte value. */
  function Pow256(n: nat): (r: nat)
    ensures r >= 1
  {
    if n == 0 then 1 else 256 * Pow256(n - 1)
  }

  /** The value of `bs` read little-endian: `bs[0]` is the least significant byte. */
  function LeUint(bs: seq<u8>): (r: nat)
    ensures r < Pow256(|bs|)
  {
    if bs == [] then 0
    else
      var rest := LeUint(bs[1..]);
      assert rest <= Pow256(|bs| - 1) - 1;
      bs[0] + 256 * rest
  }

  /** The `n` little-endian bytes of `x`. */
  function LeBytes(x: nat, n: nat): (r: seq<u8>)
    requires x < Pow256(n)
    ensures |r| == n
  {
    if n == 0 then []
    else
      assert x / 256 < Pow256(n - 1);
      [x % 256] + LeBytes(x / 256, n - 1)
  }

  /** Encoding then decoding gives the value back. */
  lemma {:induction false} LeUintOfLeBytes(x: nat, n: nat)
    requires x < Pow256(n)
    ensures LeUint(LeBytes(x, n)) == x
  {
    if n > 0 {
      var bs := LeBytes(x, n);
      assert bs[1..] == LeBytes(x / 256, n - 1);
      LeUintOfLeBytes(x / 256, n - 1);
    }
  }

  /** Decoding then encoding gives the bytes back. */
  lemma {:induction false} LeBytesOfLeUint(bs: seq<u8>)
    ensures LeBytes(LeUint(bs), |bs|) == bs
  {
    if bs != [] {
      var x := LeUint(bs);
      assert x % 256 == bs[0] && x / 256 == LeUint(bs[1..]);
      LeBytesOfLeUint(bs[1..]);
    }
  }

  /** Two little-endian bytes: the low byte first. */
  lemma LeUint2(bs: seq<u8>)
    requires |bs| == 2
    ensures LeUint(bs) == bs[0] as int + 256 * bs[1] as int
  {
    assert bs[1..][1..] == [];
  }

  /** Four little-endian bytes: the low byte first. */
  lemma LeUint4(bs: seq<u8>)
    requires |bs| == 4
    ensures LeUint(bs) == bs[0] as int + 0x100 * bs[1] as int + 0x1_0000 * bs[2] as int + 0x100_0000 * bs[3] as int
  {
    assert bs[1..][1..] == bs[2..];
    assert bs[2..][1..] == bs[3..];
    assert bs[3..][1..] == [];
    assert LeUint(bs[3..]) == bs[3] as int;
    assert LeUint(bs[2..]) == bs[2] as int + 256 * bs[3] as int;
  }
}
