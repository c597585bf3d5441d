/** Looking up a glyph in a cmap subtable of format 4: the power-of-two search over the
    segments' end codes, against the linear scan it stands for. */
module Cmap4 {
  import opened Bytes
  import opened Numbers

  /** ttUSHORT: big-endian; reading past the data is not modelled, so it gives 0. */
  function U16(data: seq<byte>, at: int): (n: nat)
    ensures n < 65536
  {
    if 0 <= at && at + 2 <= |data| then 256 * Val(data[at]) + Val(data[at + 1]) else 0
  }

  // ---- the subtable ----

  function SegCount(data: seq<byte>, base: nat): nat { U16(data, base + 6) / 2 }

  function EndCode(data: seq<byte>, base: nat, i: int): nat { U16(data, base + 14 + 2 * i) }

  function StartCode(data: seq<byte>, base: nat, i: int): nat {
    U16(data, base + 14 + SegCount(data, base) * 2 + 2 + 2 * i)
  }

  function IdDelta(data: seq<byte>, base: nat, i: int): nat {
    U16(data, base + 14 + SegCount(data, base) * 4 + 2 + 2 * i)
  }

  function IdRangeOffset(data: seq<byte>, base: nat, i: int): nat {
    U16(data, base + 14 + SegCount(data, base) * 6 + 2 + 2 * i)
  }

  /** The header fields as the OpenType specification prescribes them ('cmap' chapter, section
      'Format 4: Segment mapping to delta values'): searchRange is twice the largest power of
      two not above segCount, entrySelector its logarithm, rangeShift the rest; and the end
      codes increase up to 0xFFFF. */
  ghost predicate WellFormed(data: seq<byte>, base: nat) {
    var n, k := SegCount(data, base), U16(data, base + 10);
    && n >= 1
    && Pow2(k) <= n < 2 * Pow2(k)
    && U16(data, base + 8) == 2 * Pow2(k)
    && U16(data, base + 12) == 2 * n - 2 * Pow2(k)
    && (forall i, j :: 0 <= i < j < n ==> EndCode(data, base, i) < EndCode(data, base, j))
    && EndCode(data, base, n - 1) == 0xFFFF
  }

  /** The linear scan: the first segment from i on whose end code is not below the codepoint. */
  function FirstSegment(data: seq<byte>, base: nat, codepoint: int, i: nat): (r: nat)
    requires i <= SegCount(data, base)
    ensures i <= r <= SegCount(data, base)
    ensures r < SegCount(data, base) ==> EndCode(data, base, r) >= codepoint
    ensures forall j :: i <= j < r ==> EndCode(data, base, j) < codepoint
    decreases SegCount(data, base) - i
  {
    if i == SegCount(data, base) || EndCode(data, base, i) >= codepoint then i else FirstSegment(data, base, codepoint, i + 1)
  }

  /** What the specification makes of a segment. */
  function GlyphIn(data: seq<byte>, base: nat, codepoint: int, i: nat): nat {
    var start := StartCode(data, base, i);
    if codepoint < start then 0
    else
      var offset := IdRangeOffset(data, base, i);
      if offset == 0 then (codepoint + IdDelta(data, base, i)) % 65536
      else U16(data, offset + (codepoint - start) * 2 + base + 14 + SegCount(data, base) * 6 + 2 + 2 * i)
  }

  /** The glyph of a codepoint by the linear scan. */
  function GlyphIndex(data: seq<byte>, base: nat, codepoint: int): nat {
    if codepoint > 0xffff then 0
    else
      var i := FirstSegment(data, base, codepoint, 0);
      if i < SegCount(data, base) then GlyphIn(data, base, codepoint, i) else 0
  }

  /** The specification's reading, by the places of the fields: the first end code not below the
      codepoint tells the segment, its start code whether the codepoint is in it, and the glyph is
      the codepoint shifted by the segment's delta, or is found as far behind the segment's range
      offset as that says, two bytes a codepoint. */
  ghost predicate GlyphOf(data: seq<byte>, base: nat, codepoint: int, i: nat, glyph: nat) {
    var n := U16(data, base + 6) / 2;
    var at := base + 16 + 6 * n + 2 * i;
    var first, delta, offset := U16(data, base + 16 + 2 * n + 2 * i), U16(data, base + 16 + 4 * n + 2 * i), U16(data, at);
    && i < n && codepoint <= U16(data, base + 14 + 2 * i)
    && (forall j: nat :: j < i ==> U16(data, base + 14 + 2 * j) < codepoint)
    && (codepoint < first ==> glyph == 0)
    && (codepoint >= first && offset == 0 ==> glyph < 65536 && (glyph - (codepoint + delta)) % 65536 == 0)
    && (codepoint >= first && offset != 0 ==> glyph == U16(data, at + offset + 2 * (codepoint - first)))
  }

  lemma GlyphMeans(data: seq<byte>, base: nat, codepoint: int)
    requires WellFormed(data, base)
    ensures codepoint > 0xffff ==> GlyphIndex(data, base, codepoint) == 0
    ensures codepoint <= 0xffff ==> GlyphOf(data, base, codepoint, FirstSegment(data, base, codepoint, 0), GlyphIndex(data, base, codepoint))
  {
    hide U16, WellFormed;
    if codepoint <= 0xffff {
      Found(data, base, codepoint);
      var i := FirstSegment(data, base, codepoint, 0);
      forall j: nat | j < i
        ensures U16(data, base + 14 + 2 * j) < codepoint
      {
        assert EndCode(data, base, j) < codepoint;
      }
      assert EndCode(data, base, i) >= codepoint;
      var n, glyph := SegCount(data, base), GlyphIndex(data, base, codepoint);
      var at := base + 16 + 6 * n + 2 * i;
      var first, delta, offset := U16(data, base + 16 + 2 * n + 2 * i), U16(data, base + 16 + 4 * n + 2 * i), U16(data, at);
      assert first == StartCode(data, base, i) && delta == IdDelta(data, base, i) && offset == IdRangeOffset(data, base, i);
      CutTo16(codepoint + delta);
      assert glyph == GlyphIn(data, base, codepoint, i);
      if codepoint >= first && offset == 0 {
        assert glyph == (codepoint + delta) % 65536;
      }
      if codepoint >= first && offset != 0 {
        assert offset + (codepoint - first) * 2 + base + 14 + n * 6 + 2 + 2 * i == at + offset + 2 * (codepoint - first);
      }
    }
  }

  lemma CutTo16(x: int)
    ensures (x % 65536 - x) % 65536 == 0
  {
  }

  lemma ScanIs(data: seq<byte>, base: nat, codepoint: int, k: nat, i: nat)
    requires k <= i < SegCount(data, base) && EndCode(data, base, i) >= codepoint
    requires forall j :: k <= j < i ==> EndCode(data, base, j) < codepoint
    ensures FirstSegment(data, base, codepoint, k) == i
  {
  }

  /** End codes increase: what holds of one segment holds of those before, or after, it. */
  lemma Sides(data: seq<byte>, base: nat, codepoint: int, i: int)
    requires WellFormed(data, base) && 0 <= i < SegCount(data, base)
    ensures EndCode(data, base, i) < codepoint ==> forall j :: 0 <= j <= i ==> EndCode(data, base, j) < codepoint
    ensures EndCode(data, base, i) >= codepoint ==> FirstSegment(data, base, codepoint, 0) <= i
  {
    var r := FirstSegment(data, base, codepoint, 0);
    assert i < r ==> EndCode(data, base, i) < codepoint;
  }

  lemma Found(data: seq<byte>, base: nat, codepoint: int)
    requires WellFormed(data, base) && codepoint <= 0xffff
    ensures FirstSegment(data, base, codepoint, 0) < SegCount(data, base)
  {
    Sides(data, base, codepoint, SegCount(data, base) - 1);
  }

  lemma HalfPow(k: nat)
    ensures if k == 0 then Pow2(k) == 1 else Pow2(k) == 2 * Pow2(k - 1) && Pow2(k) / 2 == Pow2(k - 1) >= 1
  {
  }

  /** (stbtt_uint16)(codepoint + ttSHORT(...)): the sign of the delta does not matter. */
  lemma SignedDelta(codepoint: int, delta: nat)
    requires delta < 65536
    ensures (codepoint + (if delta >= 32768 then delta - 65536 else delta)) % 65536 == (codepoint + delta) % 65536
  {
  }

  /** The power-of-two search. `search` is kept as a segment number, not an address; before
      the loop it stands one before the segments still to be looked at, and so may be -1. */
  method Search(data: seq<byte>, base: nat, codepoint: int) returns (item: nat)
    requires WellFormed(data, base) && codepoint <= 0xffff
    ensures item == FirstSegment(data, base, codepoint, 0) < SegCount(data, base)
  {
    hide U16, WellFormed, FirstSegment, EndCode, SegCount, Pow2;
    var searchRange := U16(data, base + 8) / 2;
    var entrySelector := U16(data, base + 10);
    var rangeShift := U16(data, base + 12) / 2;
    HeaderMeans(data, base);
    Found(data, base, codepoint);
    ghost var answer := FirstSegment(data, base, codepoint, 0);
    var search: int := 0;
    Sides(data, base, codepoint, rangeShift);
    if codepoint >= EndCode(data, base, rangeShift) {
      Increasing(data, base, rangeShift, codepoint);
      search := search + rangeShift;
    }
    search := search - 1;
    while entrySelector != 0
      invariant searchRange == Pow2(entrySelector)
      invariant -1 <= search < answer <= search + searchRange < SegCount(data, base)
    {
      HalfPow(entrySelector);
      searchRange := searchRange / 2;
      Sides(data, base, codepoint, search + searchRange);
      var end := EndCode(data, base, search + searchRange);
      if codepoint > end {
        FirstBeyond(data, base, codepoint, search + searchRange);
        search := search + searchRange;
      }
      entrySelector := entrySelector - 1;
    }
    HalfPow(0);
    search := search + 1;
    SegmentSmall(data, base);
    return search % 65536;
  }

  lemma FirstBeyond(data: seq<byte>, base: nat, codepoint: int, i: nat)
    requires WellFormed(data, base) && codepoint <= 0xffff && i < SegCount(data, base) && EndCode(data, base, i) < codepoint
    ensures FirstSegment(data, base, codepoint, 0) > i
  {
    Found(data, base, codepoint);
    Sides(data, base, codepoint, i);
  }

  /** stbtt_FindGlyphIndex for format 4: what the linear scan gives, for every codepoint. */
  method FindGlyphIndex(data: seq<byte>, base: nat, codepoint: int) returns (glyph: nat)
    requires WellFormed(data, base) && codepoint >= 0
    ensures glyph == GlyphIndex(data, base, codepoint)
  {
    hide U16, WellFormed, FirstSegment;
    var segcount := U16(data, base + 6) / 2;
    if codepoint > 0xffff {
      return 0;
    }
    var item := Search(data, base, codepoint);
    var start := StartCode(data, base, item);
    var last := EndCode(data, base, item);
    if codepoint < start || codepoint > last {
      return 0;
    }
    var offset := IdRangeOffset(data, base, item);
    if offset == 0 {
      var delta: int := IdDelta(data, base, item);
      SignedDelta(codepoint, delta);
      if delta >= 32768 {
        delta := delta - 65536;  // ttSHORT
      }
      return (codepoint + delta) % 65536;
    }
    return U16(data, offset + (codepoint - start) * 2 + base + 14 + segcount * 6 + 2 + 2 * item);
  }

  lemma HeaderMeans(data: seq<byte>, base: nat)
    requires WellFormed(data, base)
    ensures var n, p := SegCount(data, base), Pow2(U16(data, base + 10));
            && n == U16(data, base + 6) / 2 >= 1
            && U16(data, base + 8) / 2 == p <= n < 2 * p && U16(data, base + 12) / 2 == n - p
  {
  }

  lemma SegmentSmall(data: seq<byte>, base: nat)
    ensures SegCount(data, base) < 32768
  {
  }

  /** At a codepoint that is the end code itself the scan stops there, not before. */
  lemma Increasing(data: seq<byte>, base: nat, i: nat, codepoint: int)
    requires WellFormed(data, base) && i < SegCount(data, base) && codepoint >= EndCode(data, base, i)
    ensures FirstSegment(data, base, codepoint, 0) >= i
  {
    var r := FirstSegment(data, base, codepoint, 0);
    assert r < i ==> EndCode(data, base, r) < EndCode(data, base, i);
  }

  /** The segment is the least one whose end code is not below the codepoint, for every
      number of segments. */
  lemma SearchIsLeast(data: seq<byte>, base: nat, codepoint: int, i: nat)
    requires WellFormed(data, base) && codepoint <= 0xffff && i < SegCount(data, base)
    ensures i == FirstSegment(data, base, codepoint, 0) <==>
              EndCode(data, base, i) >= codepoint && forall j :: 0 <= j < i ==> EndCode(data, base, j) < codepoint
  {
    Found(data, base, codepoint);
    if EndCode(data, base, i) >= codepoint && forall j :: 0 <= j < i ==> EndCode(data, base, j) < codepoint {
      ScanIs(data, base, codepoint, 0, i);
    }
  }
}
