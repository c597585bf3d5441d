/** The kernel heap, its bitmaps and its page table. */
module Pool {
  // 1024 pages of addresses behind one page-directory entry, a bitmap of those in use, the pool
  // of page frames, and the page table that ties them together.

  import opened Bytes
  import opened Bitmaps

  const PAGE_SIZE := 4096
  const MEMORY_BASE := 0x100000
  const KERNEL_VADDR_START := 0xC1000000
  const HEAP_PAGES := 1024

  /** A page-table or page-directory entry is a number: an address that is a multiple of
      the page size, with the flags in its low bits. */
  predicate Present(e: nat) { e % 2 == 1 }

  predicate Large(e: nat) { e / 128 % 2 == 1 }

  /** phy | 7 */
  function Entry(phy: nat): nat { phy + 7 }

  function PhyOf(frame: nat): nat { MEMORY_BASE + PAGE_SIZE * frame }

  function FrameOf(e: nat): int { (e - e % PAGE_SIZE - MEMORY_BASE) / PAGE_SIZE }

  datatype Heap = Heap(pool: seq<byte>, vbits: seq<byte>, pde: nat, table: seq<nat>)

  // ---- the invariant ----

  /** The entry maps a frame of the pool, and that frame is marked. */
  predicate Owned(pool: seq<byte>, e: nat) {
    FrameOf(e) >= 0 && e == Entry(PhyOf(FrameOf(e))) && FrameOf(e) < 8 * |pool| && Bit(pool, FrameOf(e))
  }

  /** The entry maps a frame of the pool that was free. */
  predicate FreshEntry(pool: seq<byte>, e: nat) {
    FrameOf(e) >= 0 && e == Entry(PhyOf(FrameOf(e))) && FrameOf(e) < 8 * |pool| && !Bit(pool, FrameOf(e))
  }

  predicate Sized(h: Heap) {
    |h.vbits| == HEAP_PAGES / 8 && |h.table| == HEAP_PAGES
  }

  ghost predicate PageOk(h: Heap, i: nat)
    requires Sized(h) && i < HEAP_PAGES
  {
    && (Bit(h.vbits, i) <==> h.pde != 0 && h.table[i] != 0)
    && (h.pde != 0 && h.table[i] != 0 ==> Owned(h.pool, h.table[i]) && h.table[i] != h.pde)
  }

  /** A page is marked just when its entry is present; entries map distinct marked frames,
      none of them that of the page table. */
  ghost predicate HeapOk(h: Heap) {
    && Sized(h)
    && (h.pde != 0 ==> Owned(h.pool, h.pde))
    && (forall i: nat {:trigger PageOk(h, i)} :: i < HEAP_PAGES ==> PageOk(h, i))
    && (forall i: nat, j: nat {:trigger h.table[i], h.table[j]} :: i < j < HEAP_PAGES && h.pde != 0 && h.table[i] != 0 ==> h.table[i] != h.table[j])
  }

  lemma EntryParts(f: nat)
    ensures FrameOf(Entry(PhyOf(f))) == f && Present(Entry(PhyOf(f))) && !Large(Entry(PhyOf(f)))
    ensures Entry(PhyOf(f)) - Entry(PhyOf(f)) % PAGE_SIZE == PhyOf(f)
  {
    var e := Entry(PhyOf(f));
    assert e == PAGE_SIZE * (256 + f) + 7;
    assert e % PAGE_SIZE == 7 && e / 128 == 32 * (256 + f);
  }

  lemma OwnedMeans(pool: seq<byte>, e: nat)
    requires Owned(pool, e)
    ensures Present(e) && !Large(e) && e != 0 && e != 7 && e - e % PAGE_SIZE == PhyOf(FrameOf(e)) >= MEMORY_BASE
  {
    EntryParts(FrameOf(e));
  }

  // ---- taking a frame ----

  function LeastClear(bits: seq<byte>, k: nat): (r: nat)
    requires k <= 8 * |bits|
    ensures k <= r <= 8 * |bits| && (r < 8 * |bits| ==> !Bit(bits, r))
    ensures forall i: nat :: k <= i < r ==> Bit(bits, i)
    decreases 8 * |bits| - k
  {
    if k == 8 * |bits| || !Bit(bits, k) then k else LeastClear(bits, k + 1)
  }

  function Taken(pool: seq<byte>): seq<byte> {
    var f := LeastClear(pool, 0);
    if f == 8 * |pool| then pool else WithBit(pool, f, true)
  }

  function Found(pool: seq<byte>): nat {
    var f := LeastClear(pool, 0);
    if f == 8 * |pool| then 0 else PhyOf(f)
  }

  lemma TakeMeans(pool: seq<byte>)
    ensures |Taken(pool)| == |pool|
    ensures ClearBits(pool) == {} ==> Found(pool) == 0 && Taken(pool) == pool
    ensures ClearBits(pool) != {} ==>
      && Owned(Taken(pool), Entry(Found(pool)))
      && !Bit(pool, FrameOf(Entry(Found(pool))))
      && |ClearBits(Taken(pool))| == |ClearBits(pool)| - 1
    ensures forall e: nat :: Owned(pool, e) ==> Owned(Taken(pool), e) && e != Entry(Found(pool))
    ensures forall g: nat :: g < 8 * |pool| ==> (Bit(Taken(pool), g) <==> Bit(pool, g) || Entry(Found(pool)) == Entry(PhyOf(g)))
  {
    hide WithBit, Bit;
    var f := LeastClear(pool, 0);
    if f < 8 * |pool| {
      assert f in ClearBits(pool);
      ClearBitsOfWithBit(pool, f, true);
      EntryParts(f);
      forall g: nat | g < 8 * |pool|
        ensures Bit(Taken(pool), g) == (Bit(pool, g) || g == f)
      {
        BitOfWithBit(pool, f, true, g);
      }
    } else {
      assert ClearBits(pool) == {};
    }
  }

  // ---- mapping and unmapping one page ----

  /** page_table_add for page i of the region that begins at `base`. */
  function Mapped(h: Heap, base: nat, i: nat, phy: nat): Heap
    requires i < |h.table| == HEAP_PAGES
  {
    if Present(h.pde) then
      if Large(h.pde) then
        Heap(Taken(h.pool), h.vbits, Entry(Found(h.pool)), seq(HEAP_PAGES, j requires 0 <= j < HEAP_PAGES => Entry(base + PAGE_SIZE * j))[i := Entry(phy)])
      else h.(table := h.table[i := Entry(phy)])
    else
      Heap(Taken(h.pool), h.vbits, Entry(Found(h.pool)), seq(HEAP_PAGES, _ => 0)[i := Entry(phy)])
  }

  function AllocPage(h: Heap, i: nat): (h': Heap)
    requires Sized(h) && i < HEAP_PAGES
    ensures Sized(h')
  {
    Mapped(h.(vbits := WithBit(h.vbits, i, true), pool := Taken(h.pool)), KERNEL_VADDR_START, i, Entry(Found(h.pool)) - 7)
  }

  function AllocRun(h: Heap, bit: nat, n: nat): (h': Heap)
    requires Sized(h) && bit + n <= HEAP_PAGES
    ensures Sized(h')
  {
    if n == 0 then h else AllocPage(AllocRun(h, bit, n - 1), bit + n - 1)
  }

  /** pfree */
  function Released(pool: seq<byte>, phy: nat): seq<byte> {
    if phy < MEMORY_BASE then pool
    else
      var idx := (phy - MEMORY_BASE) / PAGE_SIZE;
      if idx < 8 * |pool| then WithBit(pool, idx, false) else pool
  }

  function FreePage(h: Heap, i: nat): (h': Heap)
    requires Sized(h) && i < HEAP_PAGES
    ensures Sized(h')
  {
    if !Present(h.pde) || Large(h.pde) || !Present(h.table[i]) then h
    else
      var e := h.table[i];
      Heap(Released(h.pool, e - e % PAGE_SIZE), WithBit(h.vbits, i, false), h.pde, h.table[i := 0])
  }

  /** Frames a run of n pages takes: one a page, and one for the page table if there is none. */
  function FramesNeeded(h: Heap, n: nat): nat {
    if n == 0 then 0 else n + (if h.pde == 0 then 1 else 0)
  }

  lemma TakeTwice(pool: seq<byte>)
    requires |ClearBits(pool)| >= 2
    ensures ClearBits(Taken(pool)) != {} && ClearBits(pool) != {}
    ensures Owned(Taken(Taken(pool)), Entry(Found(pool))) && Owned(Taken(Taken(pool)), Entry(Found(Taken(pool))))
    ensures Found(pool) != Found(Taken(pool))
    ensures |ClearBits(Taken(Taken(pool)))| == |ClearBits(pool)| - 2 && |Taken(Taken(pool))| == |pool|
  {
    hide Owned, ClearBits, Taken, Found;
    SomeClear(pool);
    TakeMeans(pool);
    SomeClear(Taken(pool));
    TakeMeans(Taken(pool));
  }

  lemma SomeClear(pool: seq<byte>)
    ensures ClearBits(pool) != {} <==> |ClearBits(pool)| >= 1
  {
    hide ClearBits;
    NonEmpty(ClearBits(pool));
  }

  lemma NonEmpty(s: set<nat>)
    ensures s != {} <==> |s| >= 1
  {
    if s != {} {
      var x :| x in s;
      assert |s| == |s - {x}| + 1;
    }
  }

  lemma BitMeans(h: Heap, j: nat)
    requires HeapOk(h) && j < HEAP_PAGES
    ensures Bit(h.vbits, j) <==> h.pde != 0 && h.table[j] != 0
    ensures h.pde != 0 && h.table[j] != 0 ==> Owned(h.pool, h.table[j]) && h.table[j] != h.pde
  {
    assert PageOk(h, j);
  }

  /** With frames for it, one more page keeps everything in step. */
  lemma AllocPageOk(h: Heap, i: nat)
    requires HeapOk(h) && i < HEAP_PAGES && !Bit(h.vbits, i)
    requires |ClearBits(h.pool)| >= FramesNeeded(h, 1)
    ensures var h' := AllocPage(h, i);
            && HeapOk(h') && h'.pde != 0 && (h.pde != 0 ==> h'.pde == h.pde) && |h'.pool| == |h.pool|
            && |ClearBits(h'.pool)| == |ClearBits(h.pool)| - FramesNeeded(h, 1)
            && Bit(h'.vbits, i)
  {
    hide ClearBits, Taken, Found, WithBit, Bit, Owned;
    SomeClear(h.pool);
    TakeMeans(h.pool);
    forall j: nat | j < HEAP_PAGES
      ensures Bit(WithBit(h.vbits, i, true), j) == (j == i || Bit(h.vbits, j))
      ensures Bit(h.vbits, j) <==> h.pde != 0 && h.table[j] != 0
      ensures h.pde != 0 && h.table[j] != 0 ==> Owned(h.pool, h.table[j]) && h.table[j] != h.pde
    {
      BitOfWithBit(h.vbits, i, true, j);
      BitMeans(h, j);
    }
    OwnedMeans(Taken(h.pool), Entry(Found(h.pool)));
    if h.pde == 0 {
      TakeTwice(h.pool);
    } else {
      OwnedMeans(h.pool, h.pde);
      assert h.table[i] == 0;
    }
    var h' := AllocPage(h, i);
    forall j: nat | j < HEAP_PAGES
      ensures PageOk(h', j)
    {
    }
  }

  /** palloc's 0 goes into the table unlooked at, and what is not a frame of the pool stays there. */
  predicate Broken(h: Heap) {
    Sized(h) && (h.pde == 7 || (Present(h.pde) && !Large(h.pde) && exists i: nat :: i < HEAP_PAGES && h.table[i] == 7))
  }

  lemma BrokenIsNotOk(h: Heap)
    requires Broken(h)
    ensures !HeapOk(h)
  {
    if HeapOk(h) && h.pde != 7 {
      var i: nat :| i < HEAP_PAGES && h.table[i] == 7;
      BitMeans(h, i);
      OwnedMeans(h.pool, h.table[i]);
    } else if HeapOk(h) {
      OwnedMeans(h.pool, h.pde);
    }
  }

  lemma BrokenStays(h: Heap, i: nat)
    requires Broken(h) && i < HEAP_PAGES && (h.table[i] != 7 || h.pde == 7)
    ensures Broken(AllocPage(h, i)) && AllocPage(h, i).pde == h.pde && AllocPage(h, i).table == h.table[i := AllocPage(h, i).table[i]]
  {
    if h.pde != 7 {
      var j: nat :| j < HEAP_PAGES && h.table[j] == 7;
      assert AllocPage(h, i).table[j] == 7;
    }
  }

  lemma AllocPageBreaks(h: Heap, i: nat)
    requires HeapOk(h) && i < HEAP_PAGES && !Bit(h.vbits, i)
    requires |ClearBits(h.pool)| < FramesNeeded(h, 1)
    ensures Broken(AllocPage(h, i))
    ensures forall j: nat :: j < HEAP_PAGES && j != i && AllocPage(h, i).pde != 7 ==> AllocPage(h, i).table[j] != 7
  {
    hide ClearBits, Taken, Found, WithBit, Bit;
    SomeClear(h.pool);
    TakeMeans(h.pool);
    var h' := AllocPage(h, i);
    if h.pde == 0 {
      SomeClear(Taken(h.pool));
      TakeMeans(Taken(h.pool));
    } else {
      OwnedMeans(h.pool, h.pde);
      assert h'.table[i] == 7;
      forall j: nat | j < HEAP_PAGES && h.table[j] != 0
        ensures h.table[j] != 7
      {
        BitMeans(h, j);
        OwnedMeans(h.pool, h.table[j]);
      }
    }
  }

  /** What a run of pages does: the heap is in order afterwards exactly when there were
      frames for it. */
  lemma {:induction false} AllocRunOk(h: Heap, bit: nat, n: nat)
    requires HeapOk(h) && bit + n <= HEAP_PAGES && ClearRun(h.vbits, bit, n)
    ensures var h' := AllocRun(h, bit, n);
            && |h'.pool| == |h.pool|
            && (|ClearBits(h.pool)| >= FramesNeeded(h, n) ==>
                  && HeapOk(h') && (h.pde != 0 ==> h'.pde == h.pde) && (n > 0 ==> h'.pde != 0)
                  && |ClearBits(h'.pool)| == |ClearBits(h.pool)| - FramesNeeded(h, n)
                  && forall j: nat :: j < HEAP_PAGES ==> (Bit(h'.vbits, j) <==> Bit(h.vbits, j) || bit <= j < bit + n))
            && (|ClearBits(h.pool)| < FramesNeeded(h, n) ==>
                  Broken(h') && forall j: nat :: bit + n <= j < HEAP_PAGES ==> h'.pde == 7 || h'.table[j] != 7)
    decreases n
  {
    hide ClearBits, WithBit, Bit, Owned, Broken, AllocPage, HeapOk;
    SizedOk(h);
    if n > 0 {
      AllocRunOk(h, bit, n - 1);
      var g := AllocRun(h, bit, n - 1);
      var i := bit + n - 1;
      PoolKept(g, i);
      assert !Bit(h.vbits, i);
      if |ClearBits(h.pool)| >= FramesNeeded(h, n - 1) {
        assert |ClearBits(g.pool)| >= FramesNeeded(g, 1) <==> |ClearBits(h.pool)| >= FramesNeeded(h, n);
        if |ClearBits(h.pool)| >= FramesNeeded(h, n) {
          AllocPageOk(g, i);
          AllocBits(g, i);
        } else {
          AllocPageBreaks(g, i);
        }
      } else {
        BrokenStays(g, i);
      }
    }
  }

  lemma PoolKept(h: Heap, i: nat)
    requires Sized(h) && i < HEAP_PAGES
    ensures |AllocPage(h, i).pool| == |h.pool|
  {
    hide Owned, Bit, WithBit;
    TakeMeans(h.pool);
    TakeMeans(Taken(h.pool));
  }

  lemma AllocBits(h: Heap, i: nat)
    requires Sized(h) && i < HEAP_PAGES
    ensures forall j: nat :: j < HEAP_PAGES ==> (Bit(AllocPage(h, i).vbits, j) <==> j == i || Bit(h.vbits, j))
  {
    hide Bit, WithBit;
    forall j: nat | j < HEAP_PAGES
      ensures Bit(WithBit(h.vbits, i, true), j) == (j == i || Bit(h.vbits, j))
    {
      BitOfWithBit(h.vbits, i, true, j);
    }
  }

  /** A freed page gives back its one frame, which nothing else maps. */
  lemma FreePageOk(h: Heap, i: nat)
    requires HeapOk(h) && i < HEAP_PAGES
    ensures HeapOk(FreePage(h, i)) && |FreePage(h, i).pool| == |h.pool| && FreePage(h, i).pde == h.pde
    ensures if Bit(h.vbits, i) then
              && Owned(h.pool, h.table[i])
              && FreePage(h, i) == Heap(WithBit(h.pool, FrameOf(h.table[i]), false), WithBit(h.vbits, i, false), h.pde, h.table[i := 0])
            else FreePage(h, i) == h
  {
    hide WithBit, Bit;
    if h.pde != 0 {
      OwnedMeans(h.pool, h.pde);
    }
    BitMeans(h, i);
    if Bit(h.vbits, i) {
      var e := h.table[i];
      OwnedMeans(h.pool, e);
      EntryParts(FrameOf(e));
      var h' := FreePage(h, i);
      forall x: nat | Owned(h.pool, x) && x != e
        ensures Owned(h'.pool, x)
      {
        BitOfWithBit(h.pool, FrameOf(e), false, FrameOf(x));
      }
      forall j: nat | j < HEAP_PAGES
        ensures PageOk(h', j)
      {
        BitOfWithBit(h.vbits, i, false, j);
        BitMeans(h, j);
        if j != i && h.table[j] != 0 {
          assert h.table[j] != h.table[i];
        }
      }
    }
  }

  // ---- what was allocated and freed again leaves no trace ----

  function FreeAll(h: Heap, order: seq<nat>): (h': Heap)
    requires Sized(h) && forall k :: 0 <= k < |order| ==> order[k] < HEAP_PAGES
    ensures Sized(h')
  {
    if order == [] then h else FreePage(FreeAll(h, order[..|order| - 1]), order[|order| - 1])
  }

  /** Each page of a run once, in any order. */
  ghost predicate Covers(order: seq<nat>, bit: nat, n: nat) {
    && (forall k :: 0 <= k < |order| ==> bit <= order[k] < bit + n)
    && (forall k, l :: 0 <= k < l < |order| ==> order[k] != order[l])
    && (forall i: nat :: bit <= i < bit + n ==> i in order)
  }

  /** Bits of the pool after some pages are freed: their frames' are clear, others as before. */
  lemma {:induction false} FreeAllBits(h: Heap, order: seq<nat>)
    requires HeapOk(h)
    requires forall k :: 0 <= k < |order| ==> order[k] < HEAP_PAGES && Bit(h.vbits, order[k])
    requires forall k, l :: 0 <= k < l < |order| ==> order[k] != order[l]
    ensures var h' := FreeAll(h, order);
            && HeapOk(h') && |h'.pool| == |h.pool| && h'.pde == h.pde
            && (forall i: nat :: i < HEAP_PAGES ==> h'.table[i] == if i in order then 0 else h.table[i])
            && (forall i: nat :: i < HEAP_PAGES ==> (Bit(h'.vbits, i) <==> Bit(h.vbits, i) && i !in order))
            && (forall f: nat :: f < 8 * |h.pool| ==> (Bit(h'.pool, f) <==> Bit(h.pool, f) && forall i: nat :: i in order ==> h.table[i] != Entry(PhyOf(f))))
    decreases |order|
  {
    hide WithBit, Bit, Owned, FreePage, HeapOk;
    SizedOk(h);
    if order != [] {
      var o, i := order[..|order| - 1], order[|order| - 1];
      assert order == o + [i];
      FreeAllBits(h, o);
      var g := FreeAll(h, o);
      assert i !in o;
      FreePageOk(g, i);
      FreeOneBits(g, i);
    }
  }

  lemma FreeOneBits(g: Heap, i: nat)
    requires HeapOk(g) && i < HEAP_PAGES && Bit(g.vbits, i)
    ensures var h' := FreePage(g, i);
            && |h'.pool| == |g.pool|
            && (forall j: nat :: j < HEAP_PAGES ==> h'.table[j] == if j == i then 0 else g.table[j])
            && (forall j: nat :: j < HEAP_PAGES ==> (Bit(h'.vbits, j) <==> j != i && Bit(g.vbits, j)))
            && (forall f: nat :: f < 8 * |g.pool| ==> (Bit(h'.pool, f) <==> Bit(g.pool, f) && g.table[i] != Entry(PhyOf(f))))
  {
    hide WithBit, Bit, FreePage, HeapOk;
    SizedOk(g);
    FreePageOk(g, i);
    forall j: nat | j < HEAP_PAGES
      ensures Bit(WithBit(g.vbits, i, false), j) == (j != i && Bit(g.vbits, j))
    {
      BitOfWithBit(g.vbits, i, false, j);
    }
    forall f: nat | f < 8 * |g.pool|
      ensures Bit(WithBit(g.pool, FrameOf(g.table[i]), false), f) <==> Bit(g.pool, f) && g.table[i] != Entry(PhyOf(f))
    {
      BitOfWithBit(g.pool, FrameOf(g.table[i]), false, f);
      EntryParts(f);
    }
  }

  lemma {:induction false} AllocRunBits(h: Heap, bit: nat, n: nat)
    requires HeapOk(h) && bit + n <= HEAP_PAGES && ClearRun(h.vbits, bit, n) && h.pde != 0
    requires |ClearBits(h.pool)| >= n
    ensures var h' := AllocRun(h, bit, n);
            && |h'.pool| == |h.pool| && h'.pde == h.pde
            && (forall i: nat :: i < HEAP_PAGES && !(bit <= i < bit + n) ==> h'.table[i] == h.table[i])
            && (forall f: nat :: f < 8 * |h.pool| ==>
                  (Bit(h'.pool, f) <==> Bit(h.pool, f) || exists i: nat :: bit <= i < bit + n && h'.table[i] == Entry(PhyOf(f))))
            && (forall i: nat :: bit <= i < bit + n ==> FreshEntry(h.pool, h'.table[i]))
    decreases n
  {
    hide ClearBits, WithBit, Bit, HeapOk, Taken, Found;
    SizedOk(h);
    if n > 0 {
      AllocRunBits(h, bit, n - 1);
      AllocRunOk(h, bit, n - 1);
      var g := AllocRun(h, bit, n - 1);
      SomeClear(g.pool);
      TakeMeans(g.pool);
      PdePresent(g);
      RunOneMore(h, g, bit, n);
    }
  }

  lemma PdePresent(h: Heap)
    requires HeapOk(h) && h.pde != 0
    ensures Present(h.pde) && !Large(h.pde)
  {
    OwnedMeans(h.pool, h.pde);
  }

  lemma RunOneMore(h: Heap, g: Heap, bit: nat, n: nat)
    requires n > 0 && bit + n <= HEAP_PAGES && Sized(h) && Sized(g) && Present(g.pde) && !Large(g.pde) && |g.pool| == |h.pool|
    requires ClearBits(g.pool) != {}
    requires forall i: nat :: i < HEAP_PAGES && !(bit <= i < bit + n - 1) ==> g.table[i] == h.table[i]
    requires forall f: nat :: f < 8 * |h.pool| ==>
               (Bit(g.pool, f) <==> Bit(h.pool, f) || exists i: nat :: bit <= i < bit + n - 1 && g.table[i] == Entry(PhyOf(f)))
    requires forall i: nat :: bit <= i < bit + n - 1 ==> FreshEntry(h.pool, g.table[i])
    ensures var h' := AllocPage(g, bit + n - 1);
            && |h'.pool| == |h.pool| && h'.pde == g.pde
            && (forall i: nat :: i < HEAP_PAGES && !(bit <= i < bit + n) ==> h'.table[i] == h.table[i])
            && (forall f: nat :: f < 8 * |h.pool| ==>
                  (Bit(h'.pool, f) <==> Bit(h.pool, f) || exists i: nat :: bit <= i < bit + n && h'.table[i] == Entry(PhyOf(f))))
            && (forall i: nat :: bit <= i < bit + n ==> FreshEntry(h.pool, h'.table[i]))
  {
    hide ClearBits, WithBit, Bit, Taken, Found;
    TakeMeans(g.pool);
    var i0 := bit + n - 1;
    var e := Entry(Found(g.pool));
    var h' := AllocPage(g, i0);
    assert h'.table == g.table[i0 := e];
    assert !Bit(h.pool, FrameOf(e));
    forall f: nat | f < 8 * |h.pool|
      ensures Bit(h'.pool, f) <==> Bit(h.pool, f) || exists i: nat :: bit <= i < bit + n && h'.table[i] == Entry(PhyOf(f))
    {
      if exists i: nat :: bit <= i < bit + n - 1 && g.table[i] == Entry(PhyOf(f)) {
        var i: nat :| bit <= i < bit + n - 1 && g.table[i] == Entry(PhyOf(f));
        assert h'.table[i] == Entry(PhyOf(f));
      }
      if e == Entry(PhyOf(f)) {
        assert h'.table[i0] == Entry(PhyOf(f));
      }
    }
  }

  lemma SameByte(a: byte, b: byte)
    requires forall k: nat :: k < 8 ==> ByteBit(a, k) == ByteBit(b, k)
    ensures a == b
  {
    assert ByteBit(a, 0) == ByteBit(b, 0) && ByteBit(a, 1) == ByteBit(b, 1) && ByteBit(a, 2) == ByteBit(b, 2) && ByteBit(a, 3) == ByteBit(b, 3);
    assert ByteBit(a, 4) == ByteBit(b, 4) && ByteBit(a, 5) == ByteBit(b, 5) && ByteBit(a, 6) == ByteBit(b, 6) && ByteBit(a, 7) == ByteBit(b, 7);
  }

  lemma SameBits(s: seq<byte>, t: seq<byte>)
    requires |s| == |t| && forall i: nat :: i < 8 * |s| ==> Bit(s, i) == Bit(t, i)
    ensures s == t
  {
    hide ByteBit;
    forall k: nat | k < |s|
      ensures s[k] == t[k]
    {
      forall j: nat | j < 8
        ensures ByteBit(s[k], j) == ByteBit(t[k], j)
      {
        assert Bit(s, 8 * k + j) == Bit(t, 8 * k + j);
        assert (8 * k + j) / 8 == k && (8 * k + j) % 8 == j;
      }
      SameByte(s[k], t[k]);
    }
  }

  /** Once the page table is there, a run of pages that is allocated and then freed, in
      whatever order, leaves both bitmaps and the table exactly as they were. */
  lemma AllocThenFree(h: Heap, bit: nat, n: nat, order: seq<nat>)
    requires HeapOk(h) && bit + n <= HEAP_PAGES && ClearRun(h.vbits, bit, n) && h.pde != 0
    requires |ClearBits(h.pool)| >= n && Covers(order, bit, n)
    ensures FreeAll(AllocRun(h, bit, n), order) == h
  {
    hide ClearBits, HeapOk, Bit, FreshEntry, AllocRun, FreeAll, Sized;
    SizedOk(h);
    AllocRunOk(h, bit, n);
    AllocRunBits(h, bit, n);
    var g := AllocRun(h, bit, n);
    InRun(order, bit, n);
    FreeAllBits(g, order);
    var r := FreeAll(g, order);
    RestoredPool(h, g, r, bit, n, order);
    RestoredBits(h, r, bit, n, order);
    ClearEntries(h, bit, n);
    RestoredTable(h, g, r, bit, n, order);
  }

  lemma InRun(order: seq<nat>, bit: nat, n: nat)
    requires Covers(order, bit, n)
    ensures forall i: nat :: i in order <==> bit <= i < bit + n
  {
  }

  lemma RestoredBits(h: Heap, r: Heap, bit: nat, n: nat, order: seq<nat>)
    requires Sized(h) && Sized(r) && bit + n <= HEAP_PAGES && ClearRun(h.vbits, bit, n)
    requires forall i: nat :: i in order <==> bit <= i < bit + n
    requires forall i: nat :: i < HEAP_PAGES ==> (Bit(r.vbits, i) <==> (Bit(h.vbits, i) || bit <= i < bit + n) && i !in order)
    ensures r.vbits == h.vbits
  {
    hide Bit;
    SameBits(r.vbits, h.vbits);
  }

  lemma RestoredTable(h: Heap, g: Heap, r: Heap, bit: nat, n: nat, order: seq<nat>)
    requires Sized(h) && Sized(g) && Sized(r) && bit + n <= HEAP_PAGES
    requires forall i: nat :: i in order <==> bit <= i < bit + n
    requires forall i: nat :: bit <= i < bit + n ==> h.table[i] == 0
    requires forall i: nat :: i < HEAP_PAGES && !(bit <= i < bit + n) ==> g.table[i] == h.table[i]
    requires forall i: nat :: i < HEAP_PAGES ==> r.table[i] == if i in order then 0 else g.table[i]
    ensures r.table == h.table
  {
  }

  lemma SizedOk(h: Heap)
    requires HeapOk(h)
    ensures Sized(h)
  {
  }

  lemma ClearEntries(h: Heap, bit: nat, n: nat)
    requires HeapOk(h) && bit + n <= HEAP_PAGES && ClearRun(h.vbits, bit, n) && h.pde != 0
    ensures forall i: nat :: bit <= i < bit + n ==> h.table[i] == 0
  {
    hide Owned;
    forall i: nat | bit <= i < bit + n
      ensures h.table[i] == 0
    {
      assert !Bit(h.vbits, i);
      BitMeans(h, i);
    }
  }

  lemma RestoredPool(h: Heap, g: Heap, r: Heap, bit: nat, n: nat, order: seq<nat>)
    requires Sized(g) && bit + n <= HEAP_PAGES && |h.pool| == |g.pool| == |r.pool| && Covers(order, bit, n)
    requires forall f: nat :: f < 8 * |h.pool| ==>
               (Bit(g.pool, f) <==> Bit(h.pool, f) || exists i: nat :: bit <= i < bit + n && g.table[i] == Entry(PhyOf(f)))
    requires forall i: nat :: bit <= i < bit + n ==> FreshEntry(h.pool, g.table[i])
    requires forall f: nat :: f < 8 * |g.pool| ==> (Bit(r.pool, f) <==> Bit(g.pool, f) && forall i: nat :: i in order ==> g.table[i] != Entry(PhyOf(f)))
    ensures r.pool == h.pool
  {
    hide Bit;
    forall f: nat | f < 8 * |h.pool|
      ensures Bit(r.pool, f) == Bit(h.pool, f)
    {
      EntryParts(f);
      if exists i: nat :: bit <= i < bit + n && g.table[i] == Entry(PhyOf(f)) {
        var i: nat :| bit <= i < bit + n && g.table[i] == Entry(PhyOf(f));
        assert i in order;
      }
    }
    SameBits(r.pool, h.pool);
  }

  // ---- splitting a large page ----

  /** Where page i of a region leads, if anywhere. */
  function Translated(pde: nat, table: seq<nat>, i: nat): int
    requires i < |table|
  {
    if !Present(pde) then -1
    else if Large(pde) then pde - pde % 0x400000 + PAGE_SIZE * i
    else if Present(table[i]) then table[i] - table[i] % PAGE_SIZE
    else -1
  }

  /** The three cases of page_table_add, by what is taken and what becomes of the entries: with a
      table there one entry is filled and no frame taken; otherwise the table is the least free
      frame, which is marked, and its other entries map the region to itself or nothing. */
  lemma MappedMeans(h: Heap, base: nat, i: nat, phy: nat)
    requires Sized(h) && i < HEAP_PAGES
    ensures var h' := Mapped(h, base, i, phy);
            && h'.vbits == h.vbits && |h'.table| == HEAP_PAGES && h'.table[i] == phy + 7
            && (Present(h.pde) && !Large(h.pde) ==>
                  && h'.pde == h.pde && h'.pool == h.pool
                  && forall j: nat :: j < HEAP_PAGES && j != i ==> h'.table[j] == h.table[j])
            && (!Present(h.pde) || Large(h.pde) ==>
                  && (forall j: nat :: j < HEAP_PAGES && j != i ==> h'.table[j] == if Present(h.pde) then base + PAGE_SIZE * j + 7 else 0)
                  && forall f: nat :: f < 8 * |h.pool| && !Bit(h.pool, f) && (forall g: nat :: g < f ==> Bit(h.pool, g)) ==>
                       h'.pde == MEMORY_BASE + PAGE_SIZE * f + 7 && h'.pool == WithBit(h.pool, f, true))
  {
    hide Bit, WithBit;
    var least := LeastClear(h.pool, 0);
    forall f: nat | f < 8 * |h.pool| && !Bit(h.pool, f) && (forall g: nat :: g < f ==> Bit(h.pool, g))
      ensures f == least
    {
      assert least < f ==> least < 8 * |h.pool|;
    }
  }

  /** page_table_add on a region mapped by one large page fills a table for it. Every other
      page keeps its translation exactly when the large page mapped its own addresses. */
  lemma SplitKeeps(h: Heap, base: nat, i: nat, phy: nat)
    requires Sized(h) && i < HEAP_PAGES && Present(h.pde) && Large(h.pde) && base % 0x400000 == 0 && phy % PAGE_SIZE == 0
    requires ClearBits(h.pool) != {}
    ensures var h' := Mapped(h, base, i, phy);
            && Translated(h'.pde, h'.table, i) == phy
            && ((forall j: nat :: j < HEAP_PAGES && j != i ==> Translated(h'.pde, h'.table, j) == Translated(h.pde, h.table, j))
                <==> h.pde - h.pde % 0x400000 == base)
  {
    hide ClearBits, Taken, Found, Owned, Translated, Mapped, Entry, Present, Large;
    MappedMeans(h, base, i, phy);
    var h', first := Mapped(h, base, i, phy), h.pde - h.pde % 0x400000;
    forall j: nat | j < HEAP_PAGES
      ensures Translated(h'.pde, h'.table, j) == if j == i then phy else base + PAGE_SIZE * j
      ensures Translated(h.pde, h.table, j) == first + PAGE_SIZE * j
    {
      SplitPage(h, base, i, phy, j);
    }
    var other: nat := if i == 0 then 1 else 0;
    assert Translated(h'.pde, h'.table, other) == base + PAGE_SIZE * other;
  }

  lemma SplitPage(h: Heap, base: nat, i: nat, phy: nat, j: nat)
    requires Sized(h) && i < HEAP_PAGES && Present(h.pde) && Large(h.pde) && base % 0x400000 == 0 && phy % PAGE_SIZE == 0
    requires ClearBits(h.pool) != {} && j < HEAP_PAGES
    ensures var h' := Mapped(h, base, i, phy);
            Translated(h'.pde, h'.table, j) == if j == i then phy else base + PAGE_SIZE * j
    ensures Translated(h.pde, h.table, j) == h.pde - h.pde % 0x400000 + PAGE_SIZE * j
  {
    hide ClearBits, Taken, Found, Owned;
    TakeMeans(h.pool);
    OwnedMeans(Taken(h.pool), Entry(Found(h.pool)));
    LargeIsAligned(base);
    AlignedEntry(base + PAGE_SIZE * j, base, j);
    AlignedEntry(phy, phy, 0);
  }

  lemma LargeIsAligned(base: nat)
    requires base % 0x400000 == 0
    ensures base % PAGE_SIZE == 0
  {
  }

  lemma AlignedEntry(phy: nat, base: nat, j: nat)
    requires base % PAGE_SIZE == 0 && phy == base + PAGE_SIZE * j
    ensures Present(Entry(phy)) && Entry(phy) - Entry(phy) % PAGE_SIZE == phy
  {
    assert phy % PAGE_SIZE == 0;
  }

  // ---- the calls ----

  ghost predicate NoRun(bits: seq<byte>, cnt: nat) {
    forall at: nat :: !ClearRun(bits, at, cnt)
  }

  /** The least run of cnt clear bits, now set, and all else as it was. */
  ghost predicate RunMarked(bits: seq<byte>, bits': seq<byte>, at: nat, cnt: nat) {
    && |bits'| == |bits| && ClearRun(bits, at, cnt)
    && (forall k: nat :: k < at ==> !ClearRun(bits, k, cnt))
    && (forall j: nat :: j < 8 * |bits| ==> (Bit(bits', j) <==> Bit(bits, j) || at <= j < at + cnt))
  }

  class KernelHeap {
    const pool: Bitmap
    const vaddrs: Bitmap
    var pde: nat
    const table: array<nat>

    ghost function H(): Heap
      reads this, pool.bits, vaddrs.bits, table
    {
      Heap(pool.bits[..], vaddrs.bits[..], pde, table[..])
    }

    ghost predicate Apart()
      reads this
    {
      var t: object := table;
      pool.bits != vaddrs.bits && t != pool.bits && t != vaddrs.bits
    }

    /** mm_init, with the frames of the kernel image marked by the caller; nothing is mapped. */
    constructor (poolBytes: nat)
      ensures fresh(pool.bits) && fresh(vaddrs.bits) && fresh(table) && Apart()
      ensures HeapOk(H()) && pde == 0 && pool.bits.Length == poolBytes
    {
      pool := new Bitmap(poolBytes);
      vaddrs := new Bitmap(128);
      pde := 0;
      table := new nat[1024](_ => 0);
    }

    method Palloc() returns (phy: nat)
      modifies pool.bits
      ensures phy == Found(old(pool.bits[..])) && pool.bits[..] == Taken(old(pool.bits[..]))
      ensures phy == 0 <==> forall f: nat :: f < 8 * pool.bits.Length ==> Bit(old(pool.bits[..]), f)
      ensures phy == 0 ==> pool.bits[..] == old(pool.bits[..])
      ensures phy != 0 ==> exists f: nat ::
        && phy == MEMORY_BASE + PAGE_SIZE * f && f < 8 * pool.bits.Length && !Bit(old(pool.bits[..]), f)
        && (forall g: nat :: g < f ==> Bit(old(pool.bits[..]), g))
        && pool.bits[..] == WithBit(old(pool.bits[..]), f, true)
    {
      hide WithBit;
      ghost var f := LeastClear(pool.bits[..], 0);
      var idx := pool.Scan(1);
      if f < 8 * pool.bits.Length {
        assert ClearRun(pool.bits[..], f, 1);
      }
      if idx == -1 {
        return 0;
      }
      assert !Bit(pool.bits[..], idx);
      assert idx == f;
      pool.Set(idx, true);
      return MEMORY_BASE + idx * PAGE_SIZE;
    }

    /** palloc_pages: the least run of cnt free frames, and those frames alone are marked. */
    method PallocPages(cnt: nat) returns (phy: nat)
      modifies pool.bits
      ensures phy == 0 <==> cnt == 0 || NoRun(old(pool.bits[..]), cnt)
      ensures phy == 0 ==> pool.bits[..] == old(pool.bits[..])
      ensures phy != 0 ==> exists idx: nat :: phy == PhyOf(idx) && RunMarked(old(pool.bits[..]), pool.bits[..], idx, cnt)
    {
      hide WithBit, Bit;
      ghost var was := pool.bits[..];
      var idx := pool.Scan(cnt);
      assert idx == -1 <==> cnt == 0 || NoRun(pool.bits[..], cnt);
      if idx == -1 {
        return 0;
      }
      var i := 0;
      while i < cnt
        invariant i <= cnt
        invariant forall j: nat :: j < 8 * |was| ==> (Bit(pool.bits[..], j) <==> Bit(was, j) || idx <= j < idx + i)
      {
        ghost var g := pool.bits[..];
        pool.Set(idx + i, true);
        forall j: nat | j < 8 * |was|
          ensures Bit(pool.bits[..], j) <==> Bit(g, j) || j == idx + i
        {
          BitOfWithBit(g, idx + i, true, j);
        }
        i := i + 1;
      }
      assert RunMarked(was, pool.bits[..], idx, cnt);
      phy := MEMORY_BASE + idx * PAGE_SIZE;
      assert phy == PhyOf(idx);
    }

    method Pfree(phy: nat)
      modifies pool.bits
      ensures pool.bits[..] == Released(old(pool.bits[..]), phy)
    {
      if phy < MEMORY_BASE {
        return;
      }
      pool.Set((phy - MEMORY_BASE) / PAGE_SIZE, false);
    }

    method PageTableAdd(i: nat, phy: nat)
      requires Apart() && table.Length == HEAP_PAGES && i < HEAP_PAGES
      requires Present(pde) && !Large(pde) ==> !Present(table[i])  // ASSERT(!(*pte & 1))
      modifies `pde, table, pool.bits
      ensures H() == Mapped(old(H()), KERNEL_VADDR_START, i, phy)
    {
      if Present(pde) {
        if Large(pde) {
          var pdePhy := Palloc();
          forall j | 0 <= j < table.Length {
            table[j] := Entry(KERNEL_VADDR_START + j * PAGE_SIZE);
          }
          pde := Entry(pdePhy);
          assert table[..] == seq(HEAP_PAGES, j requires 0 <= j < HEAP_PAGES => Entry(KERNEL_VADDR_START + PAGE_SIZE * j));
          table[i] := Entry(phy);
          return;
        }
        table[i] := Entry(phy);
      } else {
        var pdePhy := Palloc();
        pde := Entry(pdePhy);
        forall j | 0 <= j < table.Length {
          table[j] := 0;
        }
        assert table[..] == seq(HEAP_PAGES, _ => 0);
        table[i] := Entry(phy);
      }
    }

    /** The least run of pages, each with the least free frame; 0 exactly when no run is
        left. The heap is in order afterwards exactly when there were frames for it. */
    method GetKernelPages(cnt: nat) returns (vaddr: nat)
      requires Apart() && HeapOk(H())
      modifies `pde, table, pool.bits, vaddrs.bits
      ensures vaddr == 0 <==> cnt == 0 || NoRun(old(vaddrs.bits[..]), cnt)
      ensures vaddr == 0 ==> H() == old(H())
      ensures vaddr != 0 ==>
        exists bit: nat ::
          && vaddr == KERNEL_VADDR_START + PAGE_SIZE * bit && bit + cnt <= HEAP_PAGES
          && ClearRun(old(vaddrs.bits[..]), bit, cnt)
          && (forall at: nat :: at < bit ==> !ClearRun(old(vaddrs.bits[..]), at, cnt))
          && Sized(old(H())) && H() == AllocRun(old(H()), bit, cnt)
      ensures vaddr != 0 ==> (HeapOk(H()) <==> |ClearBits(old(pool.bits[..]))| >= FramesNeeded(old(H()), cnt))
    {
      hide HeapOk, AllocPage, Broken, ClearBits, WithBit, Bit;
      SizedOk(H());
      ghost var h := H();
      var bit := vaddrs.Scan(cnt);
      assert bit == -1 <==> cnt == 0 || NoRun(vaddrs.bits[..], cnt);
      if bit == -1 {
        return 0;
      }
      RunFits(h, bit, cnt);
      vaddr := KERNEL_VADDR_START + bit * PAGE_SIZE;
      var i := 0;
      while i < cnt
        invariant 0 <= i <= cnt && Apart()
        invariant H() == AllocRun(h, bit, i)
      {
        EntryFree(h, bit, i, cnt);
        ghost var g := H();
        vaddrs.Set(bit + i, true);
        var phy := Palloc();
        assert table[..] == g.table && pde == g.pde;
        assert table[bit + i] == g.table[bit + i];
        PageTableAdd(bit + i, phy);
        AllocPageIs(g, bit + i, H(), phy);
        i := i + 1;
      }
      AllocRunOk(h, bit, cnt);
      if |ClearBits(h.pool)| < FramesNeeded(h, cnt) {
        BrokenIsNotOk(H());
      }
    }

    /** free_kernel_page, for an address in the heap's region. */
    method FreeKernelPage(vaddr: nat)
      requires Apart() && HeapOk(H())
      requires KERNEL_VADDR_START <= vaddr < KERNEL_VADDR_START + HEAP_PAGES * PAGE_SIZE
      modifies table, pool.bits, vaddrs.bits
      ensures HeapOk(H()) && Sized(old(H()))
      ensures H() == FreePage(old(H()), (vaddr - KERNEL_VADDR_START) / PAGE_SIZE)
    {
      hide WithBit, Bit, Owned;
      SizedOk(H());
      var i := (vaddr - KERNEL_VADDR_START) / PAGE_SIZE;
      FreePageOk(H(), i);
      if !Present(pde) || Large(pde) {
        return;
      }
      if Present(table[i]) {
        var phy := table[i] - table[i] % PAGE_SIZE;
        table[i] := 0;
        Pfree(phy);
        vaddrs.Set(i, false);
        assert table[..] == old(table[..])[i := 0];
      }
      assert H() == FreePage(old(H()), i);
    }
  }

  lemma RunFits(h: Heap, bit: nat, cnt: nat)
    requires Sized(h) && ClearRun(h.vbits, bit, cnt)
    ensures bit + cnt <= HEAP_PAGES
  {
  }

  /** The assertion in page_table_add: the entry about to be filled is not present. */
  lemma EntryFree(h: Heap, bit: nat, i: nat, cnt: nat)
    requires HeapOk(h) && ClearRun(h.vbits, bit, cnt) && i < cnt && bit + cnt <= HEAP_PAGES
    ensures var g := AllocRun(h, bit, i);
            Present(g.pde) && !Large(g.pde) ==> !Present(g.table[bit + i])
    decreases i
  {
    hide Owned, Taken, Found;
    assert !Bit(h.vbits, bit + i);
    if h.pde != 0 {
      BitMeans(h, bit + i);
      assert h.table[bit + i] == 0;
      PdePresent(h);
    }
    EntryUntouched(h, bit, i, bit + i);
  }

  lemma {:induction false} EntryUntouched(h: Heap, bit: nat, i: nat, j: nat)
    requires Sized(h) && bit + i <= j < HEAP_PAGES && (h.pde == 0 || (Present(h.pde) && !Large(h.pde) && h.table[j] == 0))
    ensures var g := AllocRun(h, bit, i);
            if i == 0 then g == h else Present(g.pde) && !Large(g.pde) && g.table[j] == 0
    decreases i
  {
    hide Taken, WithBit;
    if i > 0 {
      EntryUntouched(h, bit, i - 1, j);
      var g := AllocRun(h, bit, i - 1);
      FoundEntry(Taken(g.pool));
    }
  }

  lemma FoundEntry(pool: seq<byte>)
    ensures Present(Entry(Found(pool))) && !Large(Entry(Found(pool)))
  {
  }

  lemma AllocPageIs(g: Heap, i: nat, h: Heap, phy: nat)
    requires Sized(g) && i < HEAP_PAGES && phy == Found(g.pool)
    requires h == Mapped(g.(vbits := WithBit(g.vbits, i, true), pool := Taken(g.pool)), KERNEL_VADDR_START, i, phy)
    ensures h == AllocPage(g, i)
  {
  }
}
