/** Bytes, 32-bit words in memory order, and the two memory operations the
    file system is written with: copying a run of bytes out and splicing one in. */
module Bytes {
  type byte = bv8
  type u32 = x: int | 0 <= x < 0x1_0000_0000

  const U32_SIZE := 0x1_0000_0000
  const MINUS_ONE: u32 := 0xffff_ffff

  function Val(b: byte): (n: int)
    ensures 0 <= n < 256
  {
    b as int
  }

  /** (uint8_t)n */
  function Low8(n: nat): byte {
    (n % 256) as bv8
  }

  lemma ValOfByte(m: nat)
    requires m < 256
    ensures Val(m as bv8) == m
  {
  }

  lemma ValOfLow8(n: nat)
    ensures Val(Low8(n)) == n % 256
  {
    ValOfByte(n % 256);
  }

  /** The little-endian image of a word. */
  function Le32(n: u32): (s: seq<byte>)
    ensures |s| == 4
  {
    [Low8(n), Low8(n / 256), Low8(n / 65536), Low8(n / 16777216)]
  }

  /** The word stored at byte offset `at`. */
  function Un32(s: seq<byte>, at: nat): u32
    requires at + 4 <= |s|
  {
    Val(s[at]) + 256 * Val(s[at + 1]) + 65536 * Val(s[at + 2]) + 16777216 * Val(s[at + 3])
  }

  function Zeros(n: nat): (s: seq<byte>)
    ensures |s| == n
    ensures forall i :: 0 <= i < n ==> s[i] == 0
  {
    seq(n, _ => 0)
  }

  /** memcpy(s + at, d, |d|) */
  function Splice(s: seq<byte>, at: nat, d: seq<byte>): (r: seq<byte>)
    requires at + |d| <= |s|
    ensures |r| == |s|
    ensures forall i :: 0 <= i < |s| ==> r[i] == if at <= i < at + |d| then d[i - at] else s[i]
  {
    s[..at] + d + s[at + |d|..]
  }

  lemma Digits(n: nat)
    requires n < U32_SIZE
    ensures n == n % 256 + 256 * (n / 256 % 256) + 65536 * (n / 65536 % 256) + 16777216 * (n / 16777216 % 256)
  {
    assert n / 65536 == n / 256 / 256 && n / 16777216 == n / 65536 / 256;
  }

  lemma Un32OfLe32(n: u32)
    ensures Un32(Le32(n), 0) == n
  {
    ValOfLow8(n);
    ValOfLow8(n / 256);
    ValOfLow8(n / 65536);
    ValOfLow8(n / 16777216);
    Digits(n);
  }

  /** A word that was spliced in reads back; words elsewhere are as before. */
  lemma WordOfSplice(s: seq<byte>, at: nat, n: u32, other: nat)
    requires at + 4 <= |s| && other + 4 <= |s|
    requires other == at || other + 4 <= at || at + 4 <= other
    ensures Un32(Splice(s, at, Le32(n)), other) == if other == at then n else Un32(s, other)
  {
    Un32OfLe32(n);
  }

  /** Splicing into a window that was copied out and copying the window back is
      splicing in place: what a read-modify-write of whole sectors amounts to. */
  lemma SpliceThroughWindow(s: seq<byte>, lo: nat, len: nat, off: nat, d: seq<byte>)
    requires lo + len <= |s| && off + |d| <= len
    ensures Splice(s, lo, Splice(s[lo..lo + len], off, d)) == Splice(s, lo + off, d)
  {
  }

  /** What lies outside the spliced run is as before, what lies inside is new. */
  lemma SliceOfSplice(s: seq<byte>, at: nat, d: seq<byte>, lo: nat, hi: nat)
    requires at + |d| <= |s| && lo <= hi <= |s|
    ensures hi <= at || at + |d| <= lo ==> Splice(s, at, d)[lo..hi] == s[lo..hi]
    ensures lo == at && hi == at + |d| ==> Splice(s, at, d)[lo..hi] == d
  {
  }

  lemma JoinSlices(s: seq<byte>, lo: nat, mid: nat, hi: nat)
    requires lo <= mid <= hi <= |s|
    ensures s[lo..mid] + s[mid..hi] == s[lo..hi]
  {
  }

  lemma SliceOfSlice(s: seq<byte>, lo: nat, hi: nat, a: nat, b: nat)
    requires lo <= hi <= |s| && a <= b <= hi - lo
    ensures s[lo..hi][a..b] == s[lo + a..lo + b]
  {
    var w := s[lo..hi];
    assert forall i :: 0 <= i < b - a ==> w[a..b][i] == w[a + i] == s[lo + (a + i)];
  }
}
