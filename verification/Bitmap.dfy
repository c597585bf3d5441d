/** Bitmaps with the most significant bit of a byte first. The disk block map,
    the inode map, the page-frame pool and the kernel heap are all kept in one. */
module Bitmaps {
  import opened Bytes

  const BITMAP_MASK: byte := 0x80

  predicate ByteBit(b: byte, k: nat)
    requires k < 8
  {
    b & (BITMAP_MASK >> k) != 0
  }

  function ByteWith(b: byte, k: nat, v: bool): byte
    requires k < 8
  {
    if v then b | (BITMAP_MASK >> k) else b & !(BITMAP_MASK >> k)
  }

  lemma ByteWithBit(b: byte, k: nat, v: bool, j: nat)
    requires k < 8 && j < 8
    ensures ByteBit(ByteWith(b, k, v), j) == if j == k then v else ByteBit(b, j)
  {
  }

  predicate Bit(bits: seq<byte>, i: nat)
    requires i < 8 * |bits|
  {
    ByteBit(bits[i / 8], i % 8)
  }

  function WithBit(bits: seq<byte>, i: nat, v: bool): (r: seq<byte>)
    requires i < 8 * |bits|
    ensures |r| == |bits|
  {
    bits[i / 8 := ByteWith(bits[i / 8], i % 8, v)]
  }

  lemma BitOfWithBit(bits: seq<byte>, i: nat, v: bool, j: nat)
    requires i < 8 * |bits| && j < 8 * |bits|
    ensures Bit(WithBit(bits, i, v), j) == if j == i then v else Bit(bits, j)
  {
    ByteWithBit(bits[i / 8], i % 8, v, j % 8);
    if j / 8 == i / 8 && j % 8 == i % 8 {
      assert j == i;
    }
  }

  lemma ByteRestored(b: byte, k: nat)
    requires k < 8 && !ByteBit(b, k)
    ensures ByteWith(ByteWith(b, k, true), k, false) == b
  {
  }

  /** Setting a clear bit and clearing it again leaves the map as it was. */
  lemma BitRestored(bits: seq<byte>, i: nat)
    requires i < 8 * |bits| && !Bit(bits, i)
    ensures WithBit(WithBit(bits, i, true), i, false) == bits
  {
    ByteRestored(bits[i / 8], i % 8);
  }

  predicate ClearRun(bits: seq<byte>, at: nat, cnt: nat) {
    at + cnt <= 8 * |bits| && forall i :: at <= i < at + cnt ==> !Bit(bits, i)
  }

  function ClearBits(bits: seq<byte>): set<nat> {
    set i: nat | i < 8 * |bits| && !Bit(bits, i)
  }

  lemma ClearBitsOfWithBit(bits: seq<byte>, i: nat, v: bool)
    requires i < 8 * |bits|
    ensures ClearBits(WithBit(bits, i, v)) == if v then ClearBits(bits) - {i} else ClearBits(bits) + {i}
    ensures v && !Bit(bits, i) ==> |ClearBits(WithBit(bits, i, v))| == |ClearBits(bits)| - 1
  {
    forall j: nat | j < 8 * |bits| {
      BitOfWithBit(bits, i, v, j);
    }
    if v && !Bit(bits, i) {
      assert i in ClearBits(bits);
    }
  }

  class Bitmap {
    const bits: array<byte>

    constructor (byteLen: nat)
      ensures fresh(bits) && bits.Length == byteLen
      ensures forall i: nat :: i < 8 * byteLen ==> !Bit(bits[..], i)
    {
      bits := new byte[byteLen](_ => 0);
    }

    /** -1 past the end, else the bit. */
    function ScanTest(i: nat): (r: int)
      reads bits
      ensures r == -1 <==> i >= 8 * bits.Length
      ensures r == 1 <==> i < 8 * bits.Length && Bit(bits[..], i)
      ensures r == 0 <==> i < 8 * bits.Length && !Bit(bits[..], i)
    {
      if i / 8 >= bits.Length then -1
      else if bits[i / 8] & (BITMAP_MASK >> (i % 8)) != 0 then 1 else 0
    }

    method Set(i: nat, v: bool)
      modifies bits
      ensures bits[..] == if i < 8 * bits.Length then WithBit(old(bits[..]), i, v) else old(bits[..])
    {
      if i / 8 >= bits.Length {
        return;
      }
      if v {
        bits[i / 8] := bits[i / 8] | (BITMAP_MASK >> (i % 8));
      } else {
        bits[i / 8] := bits[i / 8] & !(BITMAP_MASK >> (i % 8));
      }
    }

    /** First fit: the least run of `cnt` clear bits, -1 exactly when there is none
        (or when a run of no bits is asked for). */
    method Scan(cnt: nat) returns (r: int)
      ensures r == -1 <==> cnt == 0 || forall at: nat :: !ClearRun(bits[..], at, cnt)
      ensures r != -1 ==> 0 <= r && ClearRun(bits[..], r, cnt)
      ensures forall at: nat :: at < r ==> !ClearRun(bits[..], at, cnt)
    {
      var total := bits.Length * 8;
      var start := 0;
      if cnt == 0 || total == 0 {
        return -1;
      }
      while start < total
        invariant start <= total
        invariant forall at: nat :: at < start ==> !ClearRun(bits[..], at, cnt)
        decreases total - start
      {
        while start < total && ScanTest(start) != 0
          invariant start <= total
          invariant forall at: nat :: at < start ==> !ClearRun(bits[..], at, cnt)
        {
          assert !ClearRun(bits[..], start, cnt) by {
            assert start <= start < start + cnt && Bit(bits[..], start);
          }
          start := start + 1;
        }
        var run := 0;
        var begin := start;
        while start < total && ScanTest(start) == 0 && run < cnt
          invariant start == begin + run <= total && run <= cnt
          invariant forall i :: begin <= i < start ==> !Bit(bits[..], i)
        {
          run := run + 1;
          start := start + 1;
        }
        if run == cnt {
          assert ClearRun(bits[..], begin, cnt);
          return begin;
        }
        // the run ended early, at a set bit or at the end of the map
        forall at: nat | at < start
          ensures !ClearRun(bits[..], at, cnt)
        {
          if at >= begin && at + cnt <= total {
            assert at <= start < at + cnt && Bit(bits[..], start);
          }
        }
      }
      return -1;
    }
  }
}
