/** Runs of the allocator on which one of its guards fails, or that show what it does not do. */
module HeapRuns {
  import opened Bytes
  import opened Arithmetic
  import opened HeapMem

  /** An arena of 1000 bytes with 16-byte headers on a machine with 16-bit size_t and int. */
  const NARROW := Config(1000, 16, 4, 16, 0xFFFF, 0x7FFF)

  /** The same on a machine with 64-bit size_t and 32-bit int. */
  const WIDE := Config(1000, 16, 4, 16, 0xFFFF_FFFF_FFFF_FFFF, 0x7FFF_FFFF)

  /** An arena that fills most of the range of a 16-bit int. */
  const LARGE := Config(32700, 16, 4, 16, 0xFFFF, 0x7FFF)

  /** An arena larger than an int on a machine with 64-bit size_t. */
  const HUGE := Config(0x2_0000_0000, 16, 4, 16, 0xFFFF_FFFF_FFFF_FFFF, 0x7FFF_FFFF)

  lemma HugeMachine()
    ensures WellFormed(HUGE) && Machine(HUGE)
  {
  }

  lemma HugeSizes()
    ensures Align(HUGE, 8) == 8 && Align(HUGE, 16) == 16
    ensures Align(HUGE, 0x8000_0010) == 0x8000_0010 && Align(HUGE, 0x1_0000_0000) == 0x1_0000_0000
  {
    hide Align;
    Multiple(HUGE, 2);
    Multiple(HUGE, 4);
    Multiple(HUGE, 0x2000_0004);
    Multiple(HUGE, 0x4000_0000);
  }

  lemma HugeDifferences()
    ensures ToInt(HUGE, 0x8000_0010 - 8) < 0 && ToInt(HUGE, 16 - 0x1_0000_0000) == 16
  {
  }

  /** There a growth that fits the arena is taken for a shrink. */
  method GrowthWithinArena(image: (Header, nat) -> Byte) returns (h: Heap, q: int)
    ensures q == 16 && h.cfg == HUGE && h.Valid() && 0 in h.Mem() && |h.Mem()[0]| <= 8 && 0x8000_0010 < HUGE.arena
  {
    HugeMachine();
    HugeSizes();
    HugeDifferences();
    hide Machine, WellFormed, Inv, Align, ToInt, Resettled, Blocks, ExtendOk, Trimmed;
    var p;
    h, p := OneBlock(HUGE, image, 8);
    q := h.Realloc(p, 0x8000_0010);
  }

  /** And a shrink of the last block is taken for a growth: its header says 16 bytes, but the
      footprint has grown. */
  method ShrinkTakenForGrowth(image: (Header, nat) -> Byte) returns (h: Heap, q: int)
    ensures h.cfg == HUGE && !h.Valid()
  {
    HugeMachine();
    HugeSizes();
    HugeDifferences();
    hide Machine, WellFormed, Inv, Align, ToInt, Blocks, ExtendOk, Trimmed;
    var p;
    h, p := OneBlock(HUGE, image, 0x1_0000_0000);
    q := h.Realloc(p, 16);
  }

  lemma Machines()
    ensures WellFormed(NARROW) && Machine(NARROW) && WellFormed(WIDE) && Machine(WIDE)
    ensures WellFormed(LARGE) && Machine(LARGE)
  {
  }

  lemma Multiple(c: Config, k: nat)
    requires c.align == 4 && 4 * k + 3 <= c.sizeMax
    ensures Align(c, 4 * k) == 4 * k
  {
    SmallMod(4 * k + 3, c.sizeMax + 1);
  }

  lemma WholeSizes()
    ensures Align(NARROW, 8) == 8 && Align(NARROW, 100) == 100
    ensures Align(WIDE, 8) == 8 && Align(LARGE, 32000) == 32000
  {
    hide Align;
    Multiple(NARROW, 2);
    Multiple(NARROW, 25);
    Multiple(WIDE, 2);
    Multiple(LARGE, 8000);
  }

  /** The requests of the runs below fail the guards. */
  lemma WrappingAllocs(usage: nat, free: seq<nat>)
    ensures free != [] || usage + 16 <= 1000 ==> !AllocOk(NARROW, usage, free, 0xFFFF)
    ensures Align(NARROW, 0xFFFF) == 0
  {
  }

  lemma WrappingExtensions()
    ensures !AllocOk(NARROW, 116, [], 65420) && Wrap(NARROW, 116 + 16 + Align(NARROW, 65420)) == 16
    ensures !AllocOk(NARROW, 0, [], 65532) && Wrap(NARROW, 0 + 16 + Align(NARROW, 65532)) == 12
  {
    hide Align;
    Multiple(NARROW, 16355);
    Multiple(NARROW, 16383);
  }

  lemma WrappingGrowth()
    ensures !ReallocOk(NARROW, 24, 8, true, 40000) && ToInt(NARROW, Align(NARROW, 40000) - 8) == -25544
  {
    hide Align;
    Multiple(NARROW, 10000);
  }

  lemma WrappingSmallGrowth()
    ensures !ReallocOk(WIDE, 24, 8, true, 0x1_0000_0010)
    ensures Align(WIDE, 0x1_0000_0010) == 0x1_0000_0010 && ToInt(WIDE, 0x1_0000_0010 - 8) == 8
  {
    hide Align;
    Multiple(WIDE, 0x4000_0004);
  }

  lemma WrappingMove()
    ensures !ReallocOk(LARGE, 32016, 32000, true, 33600)
    ensures Align(LARGE, 33600) == 33600 && ToInt(LARGE, 33600 - 32000) == 1600
    ensures !ExtendOk(LARGE, 32016, 33600) && Wrap(LARGE, 32016 + 16 + 33600) == 96
  {
    hide Align;
    Multiple(LARGE, 8400);
  }

  /** A fresh heap with one block of `n` bytes. */
  method OneBlock(cfg: Config, image: (Header, nat) -> Byte, n: nat) returns (h: Heap, p: int)
    requires WellFormed(cfg) && Machine(cfg) && cfg.header == 16 && 16 + n <= cfg.arena && Align(cfg, n) == n
    ensures fresh(h) && fresh(h.data) && h.Valid() && h.cfg == cfg && p == 16 && h.usage == 16 + n && h.free == []
    ensures h.starts == {0} && 0 in h.Mem() && |h.Mem()[0]| == n && 0 in h.hdr && h.hdr[0].size == n
  {
    hide Machine, Inv, Align, AllocOk, Blocks, Chosen, Defragmented, Suffices;
    h := new Heap(cfg, image);
    SmallRequestIsOk(cfg, 0, [], n);
    ghost var mid, k;
    p, mid, k := h.Alloc(n);
    BlockAt(cfg, h.St(), 0);
  }

  /** Three blocks of 8 bytes, one behind the other; the list is still empty. */
  method TwoMore(h: Heap) returns (b: int, c: int)
    requires h.Valid() && h.cfg == NARROW && h.usage == 24 && h.free == [] && h.starts == {0}
    requires 0 in h.hdr && h.hdr[0].size == 8 && h.hdr[0].inUse
    modifies h, h.data
    ensures h.Valid() && b == 40 && c == 64 && h.usage == 72 && h.free == [] && h.starts == {0, 24, 48}
    ensures forall o :: o in h.starts ==> o in h.hdr && h.hdr[o].size == 8 && h.hdr[o].inUse
  {
    Machines();
    WholeSizes();
    hide Machine, WellFormed, Inv, Align, AllocOk, Blocks, Chosen, Defragmented, Suffices;
    SmallRequestIsOk(NARROW, 24, [], 8);
    SmallRequestIsOk(NARROW, 48, [], 8);
    ghost var mid, k;
    b, mid, k := h.Alloc(8);
    c, mid, k := h.Alloc(8);
  }

  /** A request that wraps in ALIGN gets the next free chunk, however short. */
  method ShortBlock(image: (Header, nat) -> Byte) returns (h: Heap, ptr: int)
    ensures h.Valid() && h.cfg == NARROW && 16 <= ptr && ptr - 16 in h.Mem() && |h.Mem()[ptr - 16]| <= 16 < 0xFFFF
  {
    Machines();
    WholeSizes();
    hide Machine, WellFormed, Inv, Align, Blocks, AllocOk, Answered, Chosen, Defragmented, Suffices;
    var a, b, c;
    h, a := OneBlock(NARROW, image, 8);
    FirstIsLive(h.St());
    b, c := TwoMore(h);
    FirstIsLive(h.St());
    h.Free(a);
    WrappingAllocs(h.usage, h.free);
    ghost var mid, k;
    ptr, mid, k := h.Alloc(0xFFFF);
  }

  /** With an empty free list the same request gets a new chunk of length 0. */
  method EmptyBlock(image: (Header, nat) -> Byte) returns (h: Heap, ptr: int)
    ensures h.Valid() && h.cfg == NARROW && ptr == 16 && 0 in h.Mem() && h.Mem()[0] == []
  {
    Machines();
    WrappingAllocs(0, []);
    hide Machine, WellFormed, Inv, Align, AllocOk, Answered, Blocks, Chosen, Defragmented, Suffices;
    h := new Heap(NARROW, image);
    ghost var mid, k;
    ptr, mid, k := h.Alloc(0xFFFF);
    BlockAt(NARROW, h.St(), 0);
  }

  /** A request whose extension wraps around takes the footprint back over a live block. */
  method FootprintShrinks(image: (Header, nat) -> Byte) returns (h: Heap, a: int, ptr: int)
    ensures a == 16 && ptr == 132 && h.cfg == NARROW && h.usage == 16
  {
    Machines();
    WholeSizes();
    WrappingExtensions();
    hide Machine, WellFormed, Inv, Align, AllocOk, Answered, Blocks, Wrap, Chosen, Defragmented, Suffices;
    h, a := OneBlock(NARROW, image, 100);
    ghost var mid, k;
    ptr, mid, k := h.Alloc(65420);
  }

  /** Another leaves a footprint shorter than the header of the chunk it hands out. */
  method FootprintInsideHeader(image: (Header, nat) -> Byte) returns (h: Heap, ptr: int)
    ensures ptr == 16 && h.cfg == NARROW && h.usage == 12
  {
    Machines();
    WrappingExtensions();
    hide Machine, WellFormed, Inv, Align, AllocOk, Answered, Blocks, Wrap, Chosen, Defragmented, Suffices;
    h := new Heap(NARROW, image);
    ghost var mid, k;
    ptr, mid, k := h.Alloc(65532);
  }

  /** heapmem_realloc takes a growth beyond INT_MAX for a shrink and hands the block back. */
  method GrowthTakenForShrink(image: (Header, nat) -> Byte) returns (h: Heap, q: int)
    ensures q == 16 && h.Valid() && 0 in h.Mem() && |h.Mem()[0]| <= 8
  {
    Machines();
    WholeSizes();
    WrappingGrowth();
    hide Machine, WellFormed, Inv, Align, ToInt, ReallocOk, Resettled, Blocks, ExtendOk;
    var p;
    h, p := OneBlock(NARROW, image, 8);
    q := h.Realloc(p, 40000);
  }

  /** A growth by 2^32 + 8 extends the footprint by 8 and writes the whole size into the header. */
  method SmallWrappedGrowth(image: (Header, nat) -> Byte) returns (h: Heap, q: int)
    ensures q == 16 && h.usage == 32 && 0 in h.hdr && h.hdr[0].size == 0x1_0000_0010
  {
    Machines();
    WholeSizes();
    WrappingSmallGrowth();
    hide Machine, WellFormed, Inv, Align, ToInt, ReallocOk, Resettled, Blocks, ExtendOk;
    var p;
    h, p := OneBlock(WIDE, image, 8);
    q := h.Realloc(p, 0x1_0000_0010);
  }

  /** A growth that is seen, but whose new chunk wraps around: the block is said to be behind a
      footprint of 96 bytes. */
  method MovedBeyondFootprint(image: (Header, nat) -> Byte) returns (h: Heap, q: int)
    ensures q == 32032 && h.usage == 96
  {
    Machines();
    WholeSizes();
    WrappingMove();
    hide Machine, WellFormed, Inv, Align, ToInt, ReallocOk, Resettled, Blocks, ExtendOk, Wrap;
    var p;
    h, p := OneBlock(LARGE, image, 32000);
    q := h.Realloc(p, 33600);
  }

  /** heapmem_free does not merge: afterwards two free chunks lie next to each other. */
  method AdjacentFree(image: (Header, nat) -> Byte) returns (h: Heap)
    ensures h.Valid() && 0 in h.free && 24 in h.free && 0 in h.hdr && End(16, h.hdr, 0) == 24
  {
    Machines();
    WholeSizes();
    hide Machine, WellFormed, Inv, Align, Blocks;
    var a, b, c;
    h, a := OneBlock(NARROW, image, 8);
    FirstIsLive(h.St());
    b, c := TwoMore(h);
    FirstIsLive(h.St());
    BlockAt(NARROW, h.St(), 24);
    h.Free(a);
    BlockAt(NARROW, h.St(), 24);
    h.Free(b);
    FreeIsListed(h.St(), 0);
    FreeIsListed(h.St(), 24);
  }

  /** A block that was freed is handed out again. */
  method FreedIsReused(image: (Header, nat) -> Byte) returns (h: Heap, a: int, q: int)
    ensures h.Valid() && a == 16 && q == a && h.usage <= 72
  {
    Machines();
    WholeSizes();
    hide Machine, WellFormed, Inv, Align, Blocks, AllocOk, Chosen, Defragmented, Suffices, Gathered;
    var b, c;
    h, a := OneBlock(NARROW, image, 8);
    FirstIsLive(h.St());
    b, c := TwoMore(h);
    FirstIsLive(h.St());
    h.Free(a);
    ghost var s := h.St();
    OnlyFree(s);
    SmallRequestIsOk(NARROW, h.usage, h.free, 8);
    ghost var mid, k;
    q, mid, k := h.Alloc(8);
    OnlyChoice(s, mid, k, if q == NIL then NIL else q - 16);
  }

  /** Of three chunks the first, of 8 bytes, is free. */
  ghost predicate FirstOfThree(s: State) {
    && s.starts == {0, 24, 48} && (forall o :: o in s.starts ==> o in s.hdr)
    && s.hdr[0].size == 8 && (forall o :: o in s.starts ==> s.hdr[o].inUse == (o != 0))
  }

  lemma OnlyFree(s: State)
    requires Inv(NARROW, s) && FirstOfThree(s)
    ensures Suffices(NARROW, s, 8)
  {
    var j :| 0 <= j < |s.free| && s.free[j] == 0;
    assert forall i :: 0 <= i < |s.free| ==> s.free[i] in s.free;
    assert FitsAt(s, j, 8);
  }

  lemma OnlyChoice(s: State, mid: State, k: nat, chunk: int)
    requires Inv(NARROW, s) && FirstOfThree(s) && Defragmented(NARROW, s, mid) && Chosen(NARROW, mid, 8, k, chunk)
    ensures chunk == 0
  {
    OnlyFree(s);
    UsageKept(NARROW, s, mid);
    hide Suffices, Keeps, SettledFront, Blocks;
    EntryIsFree(NARROW, mid, 8, k);
  }

  lemma FirstIsLive(s: State)
    requires Inv(NARROW, s)
    ensures 0 in Blocks(NARROW, s) <==> Live(s, 0)
  {
    BlockAt(NARROW, s, 0);
  }

  lemma FreeIsListed(s: State, o: nat)
    requires Inv(NARROW, s) && o in s.starts && o in s.hdr && !s.hdr[o].inUse
    ensures o in s.free
  {
  }
}
