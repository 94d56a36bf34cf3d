/**
 Machine words as bounded integers, and their little-endian byte images.
 */
module Bytes {

  type byte = x: int | 0 <= x < 0x100
  type u16 = x: int | 0 <= x < 0x1_0000
  type u32 = x: int | 0 <= x < 0x1_0000_0000
  type u64 = x: int | 0 <= x < 0x1_0000_0000_0000_0000

  /** The number of values that fit in `n` bytes. */
  function Range(n: nat): (r: nat)
    ensures r > 0
  {
    if n == 0 then 1 else 0x100 * Range(n - 1)
  }

  lemma WordRanges()
    ensures Range(2) == 0x1_0000 && Range(4) == 0x1_0000_0000 && Range(8) == 0x1_0000_0000_0000_0000
  {
    assert Range(4) == 0x100 * Range(3) && Range(2) == 0x100 * Range(1);
    assert Range(6) == 0x100 * Range(5) && Range(8) == 0x100 * Range(7);
  }

  /** The `n` low bytes of `x`, least significant first. */
  function LeBytes(n: nat, x: nat): (bs: seq<byte>)
    ensures |bs| == n
  {
    if n == 0 then [] else [x % 0x100] + LeBytes(n - 1, x / 0x100)
  }

  /** The number that `bs` encodes, least significant byte first. */
  function LeValue(bs: seq<byte>): nat
  {
    if bs == [] then 0 else bs[0] + 0x100 * LeValue(bs[1..])
  }

  /** The number in the `n` bytes from `at` on. */
  function ValueAt(mem: seq<byte>, at: nat, n: nat): nat
    requires at + n <= |mem|
  {
    LeValue(mem[at..at + n])
  }

  lemma {:induction false} LeValueRange(bs: seq<byte>)
    ensures LeValue(bs) < Range(|bs|)
  {
    if bs != [] {
      LeValueRange(bs[1..]);
    }
  }

  /** Decoding an encoded word gives the word back. */
  lemma {:induction false} LeValueOfLeBytes(n: nat, x: nat)
    requires x < Range(n)
    ensures LeValue(LeBytes(n, x)) == x
  {
    if n > 0 {
      LeValueOfLeBytes(n - 1, x / 0x100);
      assert LeBytes(n, x)[1..] == LeBytes(n - 1, x / 0x100);
    }
  }

  /** Encoding a decoded word gives the bytes back. */
  lemma {:induction false} LeBytesOfLeValue(bs: seq<byte>)
    ensures LeBytes(|bs|, LeValue(bs)) == bs
  {
    if bs != [] {
      LeBytesOfLeValue(bs[1..]);
      var v := LeValue(bs[1..]);
      assert (bs[0] + 0x100 * v) % 0x100 == bs[0] && (bs[0] + 0x100 * v) / 0x100 == v;
    }
  }

  /** `mem` with the bytes from `at` on replaced by `bs`. */
  function Splice(mem: seq<byte>, at: nat, bs: seq<byte>): (r: seq<byte>)
    requires at + |bs| <= |mem|
    ensures |r| == |mem|
    ensures forall i :: 0 <= i < |mem| ==> r[i] == if at <= i < at + |bs| then bs[i - at] else mem[i]
  {
    mem[..at] + bs + mem[at + |bs|..]
  }

  /** The part that was spliced in, and a part that was not. */
  lemma SliceOfSplice(mem: seq<byte>, at: nat, bs: seq<byte>, lo: nat, hi: nat)
    requires at + |bs| <= |mem| && lo <= hi <= |mem|
    ensures Splice(mem, at, bs)[at..at + |bs|] == bs
    ensures hi <= at || at + |bs| <= lo ==> Splice(mem, at, bs)[lo..hi] == mem[lo..hi]
  {
  }

  /** Splicing inside a slice, seen from the slice. */
  lemma SpliceInSlice(mem: seq<byte>, lo: nat, hi: nat, offset: nat, bs: seq<byte>)
    requires lo + offset + |bs| <= hi <= |mem|
    ensures Splice(mem, lo + offset, bs)[lo..hi] == Splice(mem[lo..hi], offset, bs)
  {
  }
}
