/** The dynamic memory allocator of os/lib/heapmem.c.

    Memory is modelled twice over the same arena: as raw bytes, and as a store of
    chunk headers indexed by offset. The two clobber each other: writing a header
    overwrites the bytes under it and destroys every header it overlaps; writing a
    byte destroys every header that covers it. A header can be read only where one
    is known to be intact, so every read in the allocator is a proof obligation. */
module HeapMem {
  import opened Bytes
  import opened Sets
  import opened Sequences
  import opened Arithmetic

  /** The null pointer; chunk pointers are offsets into the arena. */
  const NIL: int := -1

  datatype Header = Header(prev: int, next: int, size: nat, inUse: bool)

  /** Compile-time configuration: arena size, sizeof(chunk_t), alignment, the bound
      on list searches, SIZE_MAX and INT_MAX. */
  datatype Config = Config(arena: nat, header: nat, align: nat, searchMax: nat, sizeMax: nat, intMax: nat)

  predicate WellFormed(c: Config) {
    0 < c.header && 0 < c.align <= c.intMax && 2 * c.arena + c.header + c.align <= c.sizeMax
  }

  /** The alignment is a power of two, and size_t at least as wide as int: both divide the
      range of size_t. */
  predicate Machine(c: Config) {
    0 < c.align && (c.sizeMax + 1) % c.align == 0 && (c.sizeMax + 1) % (2 * (c.intMax + 1)) == 0
  }

  /** Everything the allocator keeps, together with the two views that have to stay
      in step: `starts`, the offsets at which chunks begin, and `free`, the free list
      in list order. */
  datatype State = State(hdr: map<nat, Header>, data: seq<Byte>, usage: nat, head: int,
                         starts: set<nat>, free: seq<nat>)

  // ---------------------------------------------------------------------------
  // Arithmetic on size_t and int

  function Wrap(c: Config, x: int): nat {
    x % (c.sizeMax + 1)
  }

  function Times(k: nat, a: nat): nat {
    k * a
  }

  /** The ALIGN macro: adding align - 1 may wrap, then the low bits are dropped. */
  function Align(c: Config, size: nat): nat
    requires 0 < c.align
  {
    Times(Wrap(c, size + c.align - 1) / c.align, c.align)
  }

  /** r is the least multiple of the alignment that is at least `size`. */
  ghost predicate RoundsUp(c: Config, size: nat, r: nat) {
    && size <= r < size + c.align
    && exists k :: Times(k, c.align) == r
  }

  lemma RoundedDown(t: nat, a: nat)
    requires 0 < a
    ensures t - a < Times(t / a, a) <= t
  {
    var q, r := t / a, t % a;
    assert t == a * q + r;
  }

  /** Conversion of a size_t value to int. */
  function ToInt(c: Config, x: int): int {
    var y := x % (2 * (c.intMax + 1));
    if y > c.intMax then y - 2 * (c.intMax + 1) else y
  }

  lemma ModOfMod(x: int, m: nat, n: nat)
    requires 0 < m && 0 < n && m % n == 0
    ensures x % m % n == x % n
  {
    var q, r := x / m, m / n;
    var y, u := x % m, x % m % n;
    assert x == m * q + y && m == n * r && y == n * (y / n) + u;
    assert m * q == n * (r * q) by {
      MulAssoc(n, r, q);
    }
    assert x == n * (r * q + y / n) + u by {
      Distribute(n, r * q, y / n);
    }
    RemainderIs(n, x, r * q + y / n, u);
  }

  lemma Distribute(a: int, b: int, c: int)
    ensures a * (b + c) == a * b + a * c
  {
  }

  lemma RemainderIs(n: nat, x: int, q: int, e: nat)
    requires e < n && x == n * q + e
    ensures x % n == e
  {
    var p, r := x / n, x % n;
    assert x == n * p + r;
    assert n * (q - p) == r - e by {
      Distribute(n, q, -p);
      assert n * -p == -(n * p);
    }
    AwayFromZero(n, q - p);
  }

  /** The int that heapmem_realloc computes from two size_t values depends on their true
      difference only. */
  lemma DifferenceAsInt(c: Config, x: int)
    requires Machine(c)
    ensures ToInt(c, Wrap(c, x)) == ToInt(c, x)
  {
    ModOfMod(x, c.sizeMax + 1, 2 * (c.intMax + 1));
  }

  lemma ShiftedMod(x: int, m: nat)
    requires 0 <= x + m && x < 0
    ensures x % m == x + m
  {
  }

  lemma ToIntExact(c: Config, x: int)
    requires 0 <= x + c.intMax && x <= c.intMax
    ensures ToInt(c, x) == x
  {
    if x < 0 {
      ShiftedMod(x, 2 * (c.intMax + 1));
    } else {
      SmallMod(x, 2 * (c.intMax + 1));
    }
  }

  lemma AlignExact(c: Config, size: nat)
    requires 0 < c.align && size + c.align - 1 <= c.sizeMax
    ensures RoundsUp(c, size, Align(c, size))
  {
    var t := size + c.align - 1;
    SmallMod(t, c.sizeMax + 1);
    RoundedDown(t, c.align);
  }

  /** What extending the heap for a request comes to in C arithmetic: refused, or a chunk
      of some size together with the new footprint. */
  datatype Grant = Refused | Granted(size: nat, usage: nat)

  function RawExtend(c: Config, usage: nat, request: nat): Grant
    requires 0 < c.align
  {
    var size := Align(c, request);
    var end := Wrap(c, usage + Wrap(c, c.header + size));
    if end > c.arena then Refused else Granted(size, end)
  }

  /** The grant covers the request and the footprint covers the chunk. */
  predicate Sound(c: Config, usage: nat, request: nat, g: Grant) {
    g.Granted? ==> request <= g.size && g.usage == usage + c.header + g.size
  }

  /** The extension alone is sound exactly when no sum wraps, or the wrapped sum happens to be
      refused. */
  lemma ExtendSoundIff(c: Config, usage: nat, request: nat)
    requires WellFormed(c) && usage <= c.arena && request <= c.sizeMax
    ensures Sound(c, usage, request, RawExtend(c, usage, request)) <==>
      || (request + c.align - 1 <= c.sizeMax && usage + c.header + Align(c, request) <= c.sizeMax)
      || Wrap(c, usage + Wrap(c, c.header + Align(c, request))) > c.arena
  {
    var m := c.sizeMax + 1;
    var size := Align(c, request);
    if request + c.align - 1 <= c.sizeMax {
      AlignExact(c, request);
      hide Align;
      if usage + c.header + size <= c.sizeMax {
        SmallMod(c.header + size, m);
        SmallMod(usage + c.header + size, m);
      }
    } else {
      AlignWrapsToZero(c, request);
      hide Align, Wrap;
    }
  }

  /** The largest requests wrap in ALIGN and come out as requests for nothing. */
  lemma AlignWrapsToZero(c: Config, request: nat)
    requires WellFormed(c) && request <= c.sizeMax < request + c.align - 1
    ensures Align(c, request) == 0 < request
  {
    var m := c.sizeMax + 1;
    var t := request + c.align - 1;
    assert 0 <= t - m < c.align;
    ShiftedDown(t, m);
    SmallDiv(t - m, c.align);
    assert Times(0, c.align) == 0;
  }

  lemma ShiftedDown(t: nat, m: nat)
    requires 0 < m <= t < 2 * m
    ensures t % m == t - m
  {
  }

  lemma SmallDiv(t: nat, a: nat)
    requires t < a
    ensures t / a == 0
  {
  }

  /** On a machine with 16-bit size_t, asking an empty heap for 65535 bytes yields a
      block of none. */
  lemma WrappingRequestIsUnsound()
    ensures var c := Config(1000, 16, 4, 16, 65535, 32767);
            WellFormed(c) && RawExtend(c, 0, 65535) == Granted(0, 16) && !Sound(c, 0, 65535, RawExtend(c, 0, 65535))
  {
  }

  /** heapmem_realloc computes the true growth if and only if it fits an int; what it takes for
      growth is its remainder. */
  lemma GrowthSeenIff(c: Config, size: nat, current: nat)
    requires current <= size
    ensures ToInt(c, size - current) == size - current <==> size - current <= c.intMax
    ensures ToInt(c, size - current) > 0 <==> 1 <= (size - current) % (2 * (c.intMax + 1)) <= c.intMax
  {
    if size - current <= c.intMax {
      SmallMod(size - current, 2 * (c.intMax + 1));
    }
  }

  // ---------------------------------------------------------------------------
  // Which requests are answered soundly

  /** Extending the footprint by a header and `size` bytes does not wrap, or is refused. */
  predicate ExtendOk(c: Config, usage: nat, size: nat) {
    usage + c.header + size <= c.sizeMax || Wrap(c, usage + c.header + size) > c.arena
  }

  /** The guard of heapmem_alloc on request, footprint and free list. A request that wraps in
      ALIGN becomes one for nothing, which the first free chunk or an empty new one would
      satisfy. */
  predicate AllocOk(c: Config, usage: nat, free: seq<nat>, request: nat)
    requires 0 < c.align
  {
    if request + c.align - 1 <= c.sizeMax then ExtendOk(c, usage, Align(c, request))
    else (free == [] || c.searchMax == 0) && usage + c.header > c.arena
  }

  /** The guard of heapmem_realloc for a block of length `current`. A growth beyond INT_MAX must be
      taken for a growth all the same, and must not get by with a small wrapped extension of the
      last chunk; beyond the arena, every request must be taken for a growth, and must be refused by
      the allocation that follows. */
  predicate ReallocOk(c: Config, usage: nat, current: nat, last: bool, request: nat)
    requires 0 < c.align
  {
    var size := Align(c, request);
    var adj := ToInt(c, size - current);
    var moves := current < size && 0 < adj && (last ==> usage + adj > c.arena);
    if request <= c.arena then size - current <= c.intMax || moves else moves && ExtendOk(c, usage, size)
  }

  /** A shrink by more than INT_MAX + 1 that is taken for a growth. */
  predicate Misread(c: Config, size: nat, current: nat) {
    size < current && 0 < ToInt(c, size - current)
  }

  /** Only requests beyond the arena fail the guard. */
  lemma AllocFailsBeyondArena(c: Config, usage: nat, free: seq<nat>, request: nat)
    requires WellFormed(c) && usage <= c.arena && request <= c.sizeMax && !AllocOk(c, usage, free, request)
    ensures c.arena < request
  {
    if request + c.align - 1 <= c.sizeMax {
      AlignExact(c, request);
    }
  }

  lemma SmallRequestIsOk(c: Config, usage: nat, free: seq<nat>, request: nat)
    requires WellFormed(c) && usage <= c.arena && request <= c.arena
    ensures AllocOk(c, usage, free, request)
  {
    if !AllocOk(c, usage, free, request) {
      AllocFailsBeyondArena(c, usage, free, request);
    }
  }

  lemma WrapTwice(c: Config, a: nat, b: nat)
    ensures Wrap(c, a + Wrap(c, b)) == Wrap(c, a + b)
  {
    var m := c.sizeMax + 1;
    var q := b / m;
    assert b == m * q + b % m;
    var p, r := (a + b % m) / m, (a + b % m) % m;
    assert a + b == m * (p + q) + r by {
      Distribute(m, p, q);
    }
    RemainderIs(m, a + b, p + q, r);
  }

  lemma ExtendFits(c: Config, usage: nat, size: nat)
    requires usage + c.header + size <= c.sizeMax
    ensures Wrap(c, usage + c.header + size) == usage + c.header + size
  {
    SmallMod(usage + c.header + size, c.sizeMax + 1);
  }

  /** A size that is aligned already does not wrap in ALIGN. */
  lemma AlignedFits(c: Config, request: nat)
    requires Machine(c) && request <= c.sizeMax
    ensures Align(c, request) + c.align - 1 <= c.sizeMax
    ensures Align(c, Align(c, request)) == Align(c, request)
  {
    var t := Wrap(c, request + c.align - 1);
    RoundOnce(t, c.align, c.sizeMax + 1);
    var s := Times(t / c.align, c.align);
    hide Times, Wrap;
    assert Align(c, request) == s;
    assert Wrap(c, s + c.align - 1) == s + c.align - 1 by {
      WrapSmall(c, s + c.align - 1);
    }
  }

  lemma WrapSmall(c: Config, x: nat)
    requires x <= c.sizeMax
    ensures Wrap(c, x) == x
  {
    SmallMod(x, c.sizeMax + 1);
  }

  /** Rounding down below a multiple `m` leaves room for one step more, and rounding up undoes nothing. */
  lemma RoundOnce(t: nat, a: nat, m: nat)
    requires 0 < a && t < m && m % a == 0
    ensures var s := Times(t / a, a); s + a <= m && Times((s + a - 1) / a, a) == s
  {
    var k, j := t / a, m / a;
    RoundedDown(t, a);
    assert m == a * j;
    BelowMultiple(a, k, j, t);
    RoundUpMultiple(k, a);
  }

  lemma BelowMultiple(a: nat, k: nat, j: nat, t: nat)
    requires 0 < a && a * k <= t < a * j
    ensures a * k + a <= a * j
  {
    if j <= k {
      MulMonotone(a, j, k);
    } else {
      MulMonotone(a, k + 1, j);
      MulNext(k, a);
    }
  }

  // ---------------------------------------------------------------------------
  // The header store

  predicate Apart(H: nat, k: nat, o: nat) {
    k + H <= o || o + H <= k
  }

  function PutHeader(H: nat, hdr: map<nat, Header>, o: nat, h: Header): (r: map<nat, Header>)
    ensures o in r && r[o] == h
    ensures forall k :: k in hdr && Apart(H, k, o) && k != o ==> k in r && r[k] == hdr[k]
  {
    (map k | k in hdr && Apart(H, k, o) :: hdr[k])[o := h]
  }

  function End(H: nat, hdr: map<nat, Header>, o: nat): nat
    requires o in hdr
  {
    o + H + hdr[o].size
  }

  // ---------------------------------------------------------------------------
  // The two views and their agreement

  /** Every chunk start has an intact header, and headers do not overlap. */
  ghost predicate Spaced(H: nat, hdr: map<nat, Header>, starts: set<nat>) {
    && (forall o :: o in starts ==> o in hdr)
    && (forall o, p :: o in starts && p in starts && o < p ==> o + H <= p)
  }

  /** The chunks cover [0, usage) end to end, without gap or overlap. */
  ghost predicate Tiles(H: nat, s: State) {
    && (forall o :: o in s.starts ==> o in s.hdr)
    && (forall o {:trigger End(H, s.hdr, o)} :: o in s.starts ==>
          End(H, s.hdr, o) == s.usage || (End(H, s.hdr, o) < s.usage && End(H, s.hdr, o) in s.starts))
    && (forall o, p {:trigger End(H, s.hdr, o), p in s.starts} :: o in s.starts && p in s.starts && o < p ==>
          End(H, s.hdr, o) <= p)
    && (0 < s.usage ==> 0 in s.starts)
  }

  function Next(q: seq<nat>, i: nat): int
    requires i < |q|
  {
    if i + 1 < |q| then q[i + 1] else NIL
  }

  function Prev(q: seq<nat>, i: nat): int
    requires i < |q|
  {
    if 0 < i then q[i - 1] else NIL
  }

  /** `q` is what the doubly linked list starting at `head` runs through. */
  ghost predicate Linked(hdr: map<nat, Header>, q: seq<nat>, head: int) {
    && Distinct(q)
    && (forall i :: 0 <= i < |q| ==> q[i] in hdr)
    && head == (if q == [] then NIL else q[0])
    && (forall i {:trigger Next(q, i)} :: 0 <= i < |q| ==> hdr[q[i]].next == Next(q, i))
    && (forall i {:trigger Prev(q, i)} :: 0 <= i < |q| ==> hdr[q[i]].prev == Prev(q, i))
  }

  /** What holds even in the middle of an operation. */
  ghost predicate ListInv(c: Config, s: State) {
    && |s.data| == c.arena
    && Spaced(c.header, s.hdr, s.starts)
    && (forall o :: o in s.starts ==> o + c.header <= c.arena)
    && Linked(s.hdr, s.free, s.head)
    && (forall o :: o in s.free ==> o in s.starts)
  }

  /** What holds between operations. */
  ghost predicate Inv(c: Config, s: State) {
    && WellFormed(c)
    && |s.data| == c.arena
    && s.usage <= c.arena
    && Tiles(c.header, s)
    && Linked(s.hdr, s.free, s.head)
    && (forall o :: o in s.free <==> o in s.starts && !s.hdr[o].inUse)
  }

  lemma InvImpliesListInv(c: Config, s: State)
    requires Inv(c, s)
    ensures ListInv(c, s)
  {
    forall o | o in s.starts
      ensures o + c.header <= c.arena
    {
      assert End(c.header, s.hdr, o) <= s.usage;
    }
    forall o, p | o in s.starts && p in s.starts && o < p
      ensures o + c.header <= p
    {
      assert End(c.header, s.hdr, o) <= p;
    }
  }

  ghost predicate Live(s: State, o: nat) {
    o in s.starts && o in s.hdr && s.hdr[o].inUse
  }

  function Payload(H: nat, s: State, o: nat): seq<Byte>
    requires o in s.hdr && End(H, s.hdr, o) <= |s.data|
  {
    s.data[o + H..o + H + s.hdr[o].size]
  }

  /** The live blocks, by the offset of their chunk, with their contents. */
  ghost function Blocks(c: Config, s: State): map<nat, seq<Byte>>
    requires Inv(c, s)
  {
    map o | o in s.starts && Live(s, o) :: Payload(c.header, s, o)
  }

  lemma SliceOfSlice(d: seq<Byte>, a: nat, n: nat, m: nat)
    requires m <= n && a + n <= |d|
    ensures d[a..a + n][..m] == d[a..a + m]
  {
  }

  lemma BlockAt(c: Config, s: State, o: nat)
    requires Inv(c, s)
    ensures o in Blocks(c, s) <==> Live(s, o)
    ensures Live(s, o) ==> End(c.header, s.hdr, o) <= |s.data| && Blocks(c, s)[o] == Payload(c.header, s, o)
  {
    hide Linked;
    if Live(s, o) {
      assert End(c.header, s.hdr, o) <= s.usage;
    }
  }

  /** The tiling is exact: every used address lies in one chunk and in no other. */
  lemma TilingIsExact(c: Config, s: State, i: nat)
    requires Inv(c, s) && i < s.usage
    ensures exists o :: o in s.starts && o <= i < End(c.header, s.hdr, o)
    ensures forall o, p :: && o in s.starts && o <= i < End(c.header, s.hdr, o)
                           && p in s.starts && p <= i < End(c.header, s.hdr, p)
                           ==> o == p
  {
    var o: nat := 0;
    while End(c.header, s.hdr, o) <= i
      invariant o in s.starts && o <= i
      decreases i - o
    {
      o := End(c.header, s.hdr, o);
    }
  }

  /** Live blocks lie in the arena, clear of each other and of every header. */
  lemma LiveBlocksDisjoint(c: Config, s: State, o: nat, p: nat)
    requires Inv(c, s) && o in Blocks(c, s) && p in s.starts && o != p
    ensures o + c.header + |Blocks(c, s)[o]| <= c.arena
    ensures o + c.header + |Blocks(c, s)[o]| <= p || p + c.header <= o
    ensures p in Blocks(c, s) ==>
      o + c.header + |Blocks(c, s)[o]| <= p || p + c.header + |Blocks(c, s)[p]| <= o
  {
    BlockAt(c, s, o);
    BlockAt(c, s, p);
    hide Linked, Blocks;
    assert End(c.header, s.hdr, o) <= p || End(c.header, s.hdr, p) <= o;
  }

  /** A byte under some chunk header. */
  ghost predicate UnderHeader(H: nat, starts: set<nat>, i: int) {
    exists o :: o in starts && o <= i < o + H
  }

  ghost predicate OnlyHeadersWritten(H: nat, starts: set<nat>, d: seq<Byte>, d': seq<Byte>) {
    && |d| == |d'|
    && forall i :: 0 <= i < |d| && !UnderHeader(H, starts, i) ==> d'[i] == d[i]
  }


  function RemoveAt(q: seq<nat>, k: nat): (r: seq<nat>)
    requires k < |q|
  {
    q[..k] + q[k + 1..]
  }

  lemma RemoveAtMembers(q: seq<nat>, k: nat)
    requires k < |q| && Distinct(q)
    ensures Distinct(RemoveAt(q, k))
    ensures forall x :: x in RemoveAt(q, k) <==> x in q && x != q[k]
  {
    forall x | x in q && x != q[k]
      ensures x in RemoveAt(q, k)
    {
      var i :| 0 <= i < |q| && q[i] == x;
      assert RemoveAt(q, k)[if i < k then i else i - 1] == x;
    }
  }

  /** `x` comes before `y`. */
  ghost predicate Precedes(q: seq<nat>, x: nat, y: nat) {
    exists i, j :: 0 <= i < j < |q| && q[i] == x && q[j] == y
  }

  /** What is left of `q` in `r` has kept its order. */
  ghost predicate Keeps(q: seq<nat>, r: seq<nat>) {
    forall x, y :: Precedes(r, x, y) ==> Precedes(q, x, y)
  }

  ghost function After(q: seq<nat>, x: nat): set<nat> {
    set y | y in q && Precedes(q, x, y)
  }

  lemma RemoveAtKeeps(q: seq<nat>, k: nat)
    requires k < |q|
    ensures Keeps(q, RemoveAt(q, k))
  {
    forall x, y | Precedes(RemoveAt(q, k), x, y) ensures Precedes(q, x, y) {
      var i, j :| 0 <= i < j < |RemoveAt(q, k)| && RemoveAt(q, k)[i] == x && RemoveAt(q, k)[j] == y;
      assert q[Before(k, i)] == x && q[Before(k, j)] == y;
    }
  }

  /** With the element at `k` done as well as those before it, those before its successor
      are done, and one fewer remains. */
  lemma StepForward(q: seq<nat>, k: nat)
    requires Distinct(q) && k < |q|
    ensures forall o :: o in q && (k + 1 == |q| || Precedes(q, o, q[k + 1])) ==> o == q[k] || Precedes(q, o, q[k])
    ensures k + 1 < |q| ==> |After(q, q[k + 1])| < |After(q, q[k])|
  {
    forall o | o in q && (k + 1 == |q| || Precedes(q, o, q[k + 1])) ensures o == q[k] || Precedes(q, o, q[k]) {
      if k + 1 < |q| {
        var i, j :| 0 <= i < j < |q| && q[i] == o && q[j] == q[k + 1];
        assert j == k + 1;
      } else {
        var i :| 0 <= i < |q| && q[i] == o;
      }
    }
    if k + 1 < |q| {
      var a, b := After(q, q[k + 1]), After(q, q[k]);
      forall y | y in a ensures y in b && y != q[k + 1] {
        var i, j :| 0 <= i < j < |q| && q[i] == q[k + 1] && q[j] == y;
        assert i == k + 1;
        assert Precedes(q, q[k], y);
      }
      assert Precedes(q, q[k], q[k + 1]);
      FewerMembers(a, b, q[k + 1]);
    }
  }

  lemma FirstInList(q: seq<nat>)
    requires Distinct(q) && q != []
    ensures forall o :: !Precedes(q, o, q[0])
    ensures |After(q, q[0])| < |q|
  {
    SetOfList(q);
    FewerMembers(After(q, q[0]), Elements(q), q[0]);
  }

  ghost function Elements(q: seq<nat>): set<nat> {
    set y | y in q
  }

  lemma {:induction false} SetOfList(q: seq<nat>)
    ensures |Elements(q)| <= |q|
  {
    if q == [] {
      assert Elements(q) == {};
    } else {
      var n := |q| - 1;
      SetOfList(q[..n]);
      assert q == q[..n] + [q[n]];
      assert Elements(q) == Elements(q[..n]) + {q[n]};
    }
  }

  lemma AfterShrinks(q: seq<nat>, r: seq<nat>, x: nat)
    requires Keeps(q, r)
    ensures |After(r, x)| <= |After(q, x)|
  {
    forall y | y in After(r, x) ensures y in After(q, x) {
      var i, j :| 0 <= i < j < |q| && q[i] == x && q[j] == y;
    }
    Subset(After(r, x), After(q, x));
  }

  /** What taking `chunk` off its list makes of the header at `o`. */
  function Unlinked(hdr: map<nat, Header>, chunk: nat, o: nat): Header
    requires chunk in hdr && o in hdr
  {
    if o == chunk then hdr[o].(inUse := true)
    else if o == hdr[chunk].prev then hdr[o].(next := hdr[chunk].next)
    else if o == hdr[chunk].next then hdr[o].(prev := hdr[chunk].prev)
    else hdr[o]
  }

  ghost predicate AllUnlinked(hdr: map<nat, Header>, hdr': map<nat, Header>, chunk: nat, starts: set<nat>)
    requires chunk in hdr && forall o :: o in starts ==> o in hdr
  {
    forall o :: o in starts ==> o in hdr' && hdr'[o] == Unlinked(hdr, chunk, o)
  }

  /** Where the element at index i of the shortened list stood before. */
  function Before(k: nat, i: nat): nat {
    if i < k then i else i + 1
  }

  lemma UnlinkedAt(hdr: map<nat, Header>, q: seq<nat>, k: nat, head: int, i: nat)
    requires Linked(hdr, q, head) && k < |q| && i < |q| - 1
    ensures RemoveAt(q, k)[i] == q[Before(k, i)]
    ensures Unlinked(hdr, q[k], q[Before(k, i)]).next == Next(RemoveAt(q, k), i)
    ensures Unlinked(hdr, q[k], q[Before(k, i)]).prev == Prev(RemoveAt(q, k), i)
  {
    var j := Before(k, i);
    assert hdr[q[k]].prev == Prev(q, k) && hdr[q[k]].next == Next(q, k);
    assert hdr[q[j]].prev == Prev(q, j) && hdr[q[j]].next == Next(q, j);
    assert q[j] == Prev(q, k) <==> j + 1 == k;
    assert q[j] == Next(q, k) <==> j == k + 1;
  }

  /** Rewriting only the neighbours' links takes one element out of the list. */
  lemma UnlinkKeepsLinks(hdr: map<nat, Header>, hdr': map<nat, Header>, q: seq<nat>, k: nat, head: int, starts: set<nat>)
    requires Linked(hdr, q, head) && k < |q|
    requires forall o :: o in q ==> o in starts
    requires forall o :: o in starts ==> o in hdr
    requires AllUnlinked(hdr, hdr', q[k], starts)
    ensures Linked(hdr', RemoveAt(q, k), if k == 0 then Next(q, 0) else head)
  {
    var r := RemoveAt(q, k);
    assert Distinct(r) by {
      RemoveAtMembers(q, k);
    }
    forall i | 0 <= i < |r|
      ensures r[i] in hdr' && hdr'[r[i]].next == Next(r, i) && hdr'[r[i]].prev == Prev(r, i)
    {
      UnlinkedAt(hdr, q, k, head, i);
      assert q[Before(k, i)] in q;
    }
  }

  lemma ListNeighbours(hdr: map<nat, Header>, q: seq<nat>, head: int, k: nat)
    requires Linked(hdr, q, head) && k < |q|
    ensures q[k] == head <==> k == 0
    ensures q[k] == head <==> hdr[q[k]].prev == NIL
    ensures hdr[q[k]].prev != NIL ==> 0 <= hdr[q[k]].prev && hdr[q[k]].prev in q
    ensures hdr[q[k]].next != NIL ==> 0 <= hdr[q[k]].next && hdr[q[k]].next in q
    ensures hdr[q[k]].prev != q[k] && hdr[q[k]].next != q[k]
    ensures hdr[q[k]].prev == NIL || hdr[q[k]].prev != hdr[q[k]].next
  {
    assert hdr[q[k]].prev == Prev(q, k) && hdr[q[k]].next == Next(q, k);
  }

  /** From s to s' the free chunk at `chunk` became allocated and left the list;
      no other size or flag changed. */
  ghost predicate Took(s: State, s': State, chunk: nat) {
    && s'.starts == s.starts && s'.usage == s.usage
    && (forall x :: x in s'.free <==> x in s.free && x != chunk)
    && (forall o :: o in s.starts ==> o in s.hdr && o in s'.hdr)
    && (forall o :: o in s.starts ==> s'.hdr[o].size == s.hdr[o].size)
    && (forall o :: o in s.starts ==> s'.hdr[o].inUse == (o == chunk || s.hdr[o].inUse))
  }

  lemma UnlinkOutcome(c: Config, s: State, s': State, k: nat)
    requires ListInv(c, s) && k < |s.free|
    requires |s'.data| == |s.data| && s'.starts == s.starts && s'.usage == s.usage
    requires AllUnlinked(s.hdr, s'.hdr, s.free[k], s.starts)
    requires s'.head == if k == 0 then Next(s.free, 0) else s.head
    requires s'.free == RemoveAt(s.free, k)
    ensures ListInv(c, s') && Took(s, s', s.free[k])
  {
    UnlinkKeepsLinks(s.hdr, s'.hdr, s.free, k, s.head, s.starts);
    RemoveAtMembers(s.free, k);
  }

  /** From s to s' the chunk at the end went back to the wilderness. */
  ghost predicate Released(s: State, s': State, chunk: nat) {
    && s'.starts == s.starts - {chunk} && s'.usage == chunk
    && s'.free == s.free
    && (forall o :: o in s'.starts ==> o in s.hdr && o in s'.hdr)
    && (forall o :: o in s'.starts ==> s'.hdr[o].size == s.hdr[o].size && s'.hdr[o].inUse == s.hdr[o].inUse)
  }

  /** From s to s' the chunk was put at the front of the free list. */
  ghost predicate Pushed(s: State, s': State, chunk: nat) {
    && s'.starts == s.starts && s'.usage == s.usage
    && s'.free == [chunk] + s.free
    && (forall o :: o in s.starts ==> o in s.hdr && o in s'.hdr)
    && (forall o :: o in s.starts ==> s'.hdr[o].size == s.hdr[o].size)
    && (forall o :: o in s.starts ==> s'.hdr[o].inUse == (o != chunk && s.hdr[o].inUse))
  }

  /** What putting `chunk` in front of the list at `head` makes of the header at `o`. */
  function Linking(hdr: map<nat, Header>, chunk: nat, head: int, o: nat): Header
    requires o in hdr
  {
    if o == chunk then hdr[o].(inUse := false, prev := NIL, next := head)
    else if o == head then hdr[o].(prev := chunk)
    else hdr[o]
  }

  lemma PushKeepsLinks(hdr: map<nat, Header>, hdr': map<nat, Header>, q: seq<nat>, head: int, chunk: nat, starts: set<nat>)
    requires Linked(hdr, q, head) && chunk !in q && chunk in starts
    requires forall o :: o in q ==> o in starts
    requires forall o :: o in starts ==> o in hdr && o in hdr' && hdr'[o] == Linking(hdr, chunk, head, o)
    ensures Linked(hdr', [chunk] + q, chunk)
  {
    var r := [chunk] + q;
    forall i | 0 <= i < |r|
      ensures r[i] in hdr' && hdr'[r[i]].next == Next(r, i) && hdr'[r[i]].prev == Prev(r, i)
    {
      if 0 < i {
        assert r[i] == q[i - 1] && q[i - 1] in q;
        assert hdr[q[i - 1]].next == Next(q, i - 1) && hdr[q[i - 1]].prev == Prev(q, i - 1);
      }
    }
  }

  lemma PushOutcome(c: Config, s: State, s': State, chunk: nat)
    requires ListInv(c, s) && chunk in s.starts && chunk !in s.free
    requires |s'.data| == |s.data| && s'.starts == s.starts && s'.usage == s.usage
    requires forall o :: o in s.starts ==> o in s'.hdr && s'.hdr[o] == Linking(s.hdr, chunk, s.head, o)
    requires s'.head == chunk && s'.free == [chunk] + s.free
    ensures ListInv(c, s') && Pushed(s, s', chunk)
  {
    PushKeepsLinks(s.hdr, s'.hdr, s.free, s.head, chunk, s.starts);
  }

  // ---------------------------------------------------------------------------
  // What each step does to the tiling and to the live blocks

  /** The headers at X are chunk headers of s, lie in the wilderness, or lie in the
      payload of `chunk` at `offset` or beyond. */
  ghost predicate HeadersWithin(H: nat, s: State, X: set<nat>, chunk: nat, offset: nat) {
    forall p :: p in X ==>
      || p in s.starts
      || s.usage <= p
      || (chunk in s.starts && chunk in s.hdr && chunk + H + offset <= p && p + H <= End(H, s.hdr, chunk))
  }

  /** Writing such headers leaves the first n bytes of a payload alone, provided that
      n does not pass `offset` in the chunk being cut. */
  lemma PayloadKept(c: Config, s: State, X: set<nat>, chunk: nat, offset: nat, d: seq<Byte>, o: nat, n: nat)
    requires Inv(c, s) && o in s.starts
    requires HeadersWithin(c.header, s, X, chunk, offset)
    requires OnlyHeadersWritten(c.header, X, s.data, d)
    requires n <= s.hdr[o].size && (o == chunk ==> n <= offset)
    ensures o + c.header + n <= |d|
    ensures d[o + c.header..o + c.header + n] == s.data[o + c.header..o + c.header + n]
  {
    assert End(c.header, s.hdr, o) <= s.usage;
    assert chunk in s.starts ==> End(c.header, s.hdr, chunk) <= s.usage;
    forall i | o + c.header <= i < o + c.header + n
      ensures !UnderHeader(c.header, X, i)
    {
      forall p | p in X
        ensures !(p <= i < p + c.header)
      {
        if p in s.starts {
          assert p + c.header <= End(c.header, s.hdr, p);
        }
      }
    }
  }

  /** Every live block but one keeps its place and contents. */
  ghost predicate Elsewhere(s: State, s': State, chunk: nat) {
    && (forall o :: o != chunk ==> (Live(s', o) <==> Live(s, o)))
    && (forall o :: o != chunk && Live(s', o) && Live(s, o) ==> s'.hdr[o].size == s.hdr[o].size)
  }

  lemma OtherBlocks(c: Config, s: State, s': State, X: set<nat>, chunk: nat, offset: nat)
    requires Inv(c, s) && Inv(c, s') && Elsewhere(s, s', chunk)
    requires HeadersWithin(c.header, s, X, chunk, offset)
    requires OnlyHeadersWritten(c.header, X, s.data, s'.data)
    ensures Blocks(c, s') - {chunk} == Blocks(c, s) - {chunk}
  {
    hide Linked;
    var b, b' := Blocks(c, s) - {chunk}, Blocks(c, s') - {chunk};
    assert b'.Keys == b.Keys;
    hide Tiles, HeadersWithin, OnlyHeadersWritten, Spaced;
    forall o | o in b'
      ensures b'[o] == b[o]
    {
      hide Inv;
      PayloadKept(c, s, X, chunk, offset, s'.data, o, s.hdr[o].size);
    }
  }

  lemma FreeTiles(H: nat, s: State, s': State, chunk: nat)
    requires 0 < H && Tiles(H, s) && chunk in s.starts
    requires if End(H, s.hdr, chunk) == s.usage then Released(s, s', chunk) else Pushed(s, s', chunk)
    ensures Tiles(H, s')
  {
    forall o {:trigger End(H, s'.hdr, o)} | o in s'.starts
      ensures End(H, s'.hdr, o) == s'.usage || (End(H, s'.hdr, o) < s'.usage && End(H, s'.hdr, o) in s'.starts)
    {
      assert End(H, s'.hdr, o) == End(H, s.hdr, o);
      assert End(H, s.hdr, chunk) == s.usage ==> o < chunk;
    }
    forall o, p {:trigger End(H, s'.hdr, o), p in s'.starts} | o in s'.starts && p in s'.starts && o < p
      ensures End(H, s'.hdr, o) <= p
    {
      assert End(H, s'.hdr, o) == End(H, s.hdr, o);
    }
  }

  lemma FreeKeepsInv(c: Config, s: State, s': State, chunk: nat)
    requires Inv(c, s) && chunk in s.starts && s.hdr[chunk].inUse && ListInv(c, s')
    requires if End(c.header, s.hdr, chunk) == s.usage then Released(s, s', chunk) else Pushed(s, s', chunk)
    ensures Inv(c, s')
  {
    FreeTiles(c.header, s, s', chunk);
  }

  lemma FreeOutcome(c: Config, s: State, s': State, chunk: nat)
    requires Inv(c, s) && chunk in s.starts && s.hdr[chunk].inUse && ListInv(c, s')
    requires if End(c.header, s.hdr, chunk) == s.usage then Released(s, s', chunk) else Pushed(s, s', chunk)
    requires OnlyHeadersWritten(c.header, s.starts, s.data, s'.data)
    ensures Inv(c, s') && Blocks(c, s') == Blocks(c, s) - {chunk}
  {
    hide Linked;
    FreeKeepsInv(c, s, s', chunk);
    OtherBlocks(c, s, s', s.starts, chunk, 0);
    assert chunk !in Blocks(c, s');
  }

  lemma TookOutcome(c: Config, s: State, s': State, chunk: nat)
    requires Inv(c, s) && chunk in s.free && ListInv(c, s') && Took(s, s', chunk)
    requires OnlyHeadersWritten(c.header, s.starts, s.data, s'.data)
    ensures Inv(c, s') && chunk !in Blocks(c, s) && chunk in Blocks(c, s')
    ensures Blocks(c, s') - {chunk} == Blocks(c, s)
  {
    hide Linked;
    TookTiles(c.header, s, s', chunk);
    OtherBlocks(c, s, s', s.starts, chunk, 0);
    assert chunk !in Blocks(c, s);
  }

  lemma TookTiles(H: nat, s: State, s': State, chunk: nat)
    requires Tiles(H, s) && Took(s, s', chunk)
    ensures Tiles(H, s')
  {
    assert forall o {:trigger End(H, s'.hdr, o)} :: o in s.starts ==> End(H, s'.hdr, o) == End(H, s.hdr, o);
  }

  /** From s to s' the chunk at `chunk` swallowed the free chunk right after it. */
  ghost predicate Absorbed(H: nat, s: State, s': State, chunk: nat, next: nat) {
    && s'.starts == s.starts - {next} && s'.usage == s.usage
    && chunk in s.starts && next in s.starts && chunk in s.hdr && next in s.hdr && chunk != next
    && next == End(H, s.hdr, chunk)
    && (forall x :: x in s'.free <==> x in s.free && x != next)
    && (forall o :: o in s'.starts ==> o in s.hdr && o in s'.hdr)
    && (forall o :: o in s'.starts ==> s'.hdr[o].inUse == s.hdr[o].inUse)
    && (forall o :: o in s'.starts && o != chunk ==> s'.hdr[o].size == s.hdr[o].size)
    && s'.hdr[chunk].size == s.hdr[chunk].size + H + s.hdr[next].size
  }

  /** Same blocks with the same contents, except that the one at `o` may have got longer. */
  ghost predicate Grew(b: map<nat, seq<Byte>>, b': map<nat, seq<Byte>>, o: nat) {
    && b' - {o} == b - {o}
    && (o in b <==> o in b')
    && (o in b && o in b' ==> b[o] <= b'[o])
  }

  lemma AbsorbTiles(H: nat, s: State, s': State, chunk: nat, next: nat)
    requires 0 < H && Tiles(H, s) && Absorbed(H, s, s', chunk, next)
    ensures Tiles(H, s') && End(H, s'.hdr, chunk) == End(H, s.hdr, next)
  {
    assert End(H, s'.hdr, chunk) == End(H, s.hdr, next);
    forall o {:trigger End(H, s'.hdr, o)} | o in s'.starts
      ensures End(H, s'.hdr, o) == s'.usage || (End(H, s'.hdr, o) < s'.usage && End(H, s'.hdr, o) in s'.starts)
    {
      assert o != chunk ==> End(H, s'.hdr, o) == End(H, s.hdr, o);
      assert o < chunk ==> End(H, s.hdr, o) <= chunk;
    }
    forall o, p {:trigger End(H, s'.hdr, o), p in s'.starts} | o in s'.starts && p in s'.starts && o < p
      ensures End(H, s'.hdr, o) <= p
    {
      assert o != chunk ==> End(H, s'.hdr, o) == End(H, s.hdr, o);
      assert o == chunk ==> next < p;
    }
  }

  lemma GrewNothing(b: map<nat, seq<Byte>>, b': map<nat, seq<Byte>>, o: nat)
    requires Grew(b, b', o) && o !in b
    ensures b' == b
  {
    assert b' - {o} == b' && b - {o} == b;
  }

  lemma AbsorbKeepsInv(c: Config, s: State, s': State, chunk: nat, next: nat)
    requires Inv(c, s) && ListInv(c, s') && Absorbed(c.header, s, s', chunk, next) && next in s.free
    ensures Inv(c, s') && Elsewhere(s, s', chunk)
    ensures End(c.header, s'.hdr, chunk) == End(c.header, s.hdr, next)
  {
    hide Linked;
    AbsorbTiles(c.header, s, s', chunk, next);
  }

  /** A chunk that got longer in place keeps the contents it had. */
  lemma ChunkGrew(c: Config, s: State, s': State, chunk: nat)
    requires Inv(c, s) && Inv(c, s') && chunk in s.starts && chunk in s'.starts
    requires s'.hdr[chunk].inUse == s.hdr[chunk].inUse && s.hdr[chunk].size <= s'.hdr[chunk].size
    requires OnlyHeadersWritten(c.header, s.starts, s.data, s'.data)
    ensures chunk in Blocks(c, s) <==> chunk in Blocks(c, s')
    ensures chunk in Blocks(c, s) ==> Blocks(c, s)[chunk] <= Blocks(c, s')[chunk]
  {
    hide Linked, Blocks;
    assert chunk in s.hdr && chunk in s'.hdr;
    hide Tiles;
    BlockAt(c, s, chunk);
    BlockAt(c, s', chunk);
    var a, n := chunk + c.header, s.hdr[chunk].size;
    PayloadKept(c, s, s.starts, chunk, n, s'.data, chunk, n);
    if Live(s, chunk) {
      SliceOfSlice(s'.data, a, s'.hdr[chunk].size, n);
    }
  }

  lemma AbsorbOutcome(c: Config, s: State, s': State, chunk: nat, next: nat)
    requires Inv(c, s) && ListInv(c, s') && Absorbed(c.header, s, s', chunk, next) && next in s.free
    requires OnlyHeadersWritten(c.header, s.starts, s.data, s'.data)
    ensures Inv(c, s') && Grew(Blocks(c, s), Blocks(c, s'), chunk)
    ensures End(c.header, s'.hdr, chunk) == End(c.header, s.hdr, next)
  {
    hide Linked, Tiles, Blocks, Elsewhere, ListInv, OnlyHeadersWritten;
    AbsorbKeepsInv(c, s, s', chunk, next);
    ChunkGrew(c, s, s', chunk);
    OtherBlocks(c, s, s', s.starts, chunk, 0);
  }

  /** From s to s' only the size in the header of `chunk` changed. */
  ghost predicate Resized(s: State, s': State, chunk: nat, size: nat) {
    && s'.starts == s.starts && s'.usage == s.usage && s'.free == s.free && s'.head == s.head
    && chunk in s.starts && |s'.data| == |s.data|
    && (forall o :: o in s.starts ==> o in s.hdr && o in s'.hdr)
    && (forall o :: o in s.starts ==> s'.hdr[o] == if o == chunk then s.hdr[o].(size := size) else s.hdr[o])
  }

  lemma ResizeKeepsList(c: Config, s: State, s': State, chunk: nat, size: nat)
    requires ListInv(c, s) && Resized(s, s', chunk, size)
    ensures ListInv(c, s')
  {
    assert forall i :: 0 <= i < |s.free| ==> s.free[i] in s.free;
  }

  lemma AbsorbInSteps(c: Config, s: State, s1: State, s2: State, s3: State, chunk: nat, next: nat)
    requires Inv(c, s) && chunk in s.starts && next in s.starts && !s.hdr[next].inUse
    requires next == End(c.header, s.hdr, chunk)
    requires Resized(s, s1, chunk, s.hdr[chunk].size + c.header + s.hdr[next].size)
    requires ListInv(c, s2) && Took(s1, s2, next)
    requires s3 == s2.(starts := s2.starts - {next})
    ensures next in s.free && ListInv(c, s3) && Absorbed(c.header, s, s3, chunk, next)
  {
    hide Linked, Tiles;
  }

  lemma HeadersCompose(H: nat, X1: set<nat>, X2: set<nat>, X: set<nat>, d0: seq<Byte>, d1: seq<Byte>, d2: seq<Byte>)
    requires X1 <= X && X2 <= X
    requires OnlyHeadersWritten(H, X1, d0, d1) && OnlyHeadersWritten(H, X2, d1, d2)
    ensures OnlyHeadersWritten(H, X, d0, d2)
  {
    forall i | 0 <= i < |d0| && !UnderHeader(H, X, i)
      ensures d2[i] == d0[i]
    {
      assert !UnderHeader(H, X1, i) && !UnderHeader(H, X2, i);
    }
  }

  /** From s to s' the chunk at `chunk` swallowed some of the chunks after it. */
  ghost predicate Merged(s: State, s': State, chunk: nat) {
    && s'.starts <= s.starts && s'.usage == s.usage
    && chunk in s.hdr && chunk in s'.hdr && s'.hdr[chunk].inUse == s.hdr[chunk].inUse
    && (forall o :: o in s.starts && o <= chunk ==> o in s'.starts)
    && (forall o :: o in s'.starts ==> o in s.hdr && o in s'.hdr)
    && (forall o :: o in s'.starts && o != chunk ==>
          s'.hdr[o].size == s.hdr[o].size && s'.hdr[o].inUse == s.hdr[o].inUse)
  }

  /** No free chunk follows the one at `o`. */
  ghost predicate Maximal(H: nat, s: State, o: nat)
    requires o in s.hdr
  {
    End(H, s.hdr, o) == s.usage || Live(s, End(H, s.hdr, o))
  }

  /** Where the free chunks that lie one behind the other from `p` on end. */
  ghost function RunEnd(H: nat, s: State, p: nat): nat
    requires 0 < H
    decreases s.usage - p
  {
    if p < s.usage && p in s.starts && p in s.hdr && !s.hdr[p].inUse then RunEnd(H, s, End(H, s.hdr, p)) else p
  }

  /** The loop that swallows free chunks is at one of them, or behind the last. */
  lemma RunStep(c: Config, s0: State, s: State, chunk: nat, next: nat)
    requires Inv(c, s0) && Inv(c, s) && chunk in s.starts && next == End(c.header, s.hdr, chunk)
    requires Merged(s0, s, chunk)
    ensures if next < s.usage && !(s.hdr[next].inUse) then
        next in s.hdr && RunEnd(c.header, s0, next) == RunEnd(c.header, s0, End(c.header, s.hdr, next))
      else RunEnd(c.header, s0, next) == next
  {
    hide Linked;
  }

  /** From s to s' a header was written at `rest`, inside the payload of a live chunk. */
  ghost predicate Inserted(H: nat, s: State, s': State, rest: nat, h: Header) {
    && s'.starts == s.starts + {rest} && s'.usage == s.usage && s'.free == s.free && s'.head == s.head
    && rest !in s.starts && rest in s'.hdr && s'.hdr[rest] == h
    && (forall o :: o in s.starts ==> o in s.hdr && o in s'.hdr && s'.hdr[o] == s.hdr[o])
  }

  lemma InsertIsApart(c: Config, s: State, chunk: nat, rest: nat)
    requires Inv(c, s) && chunk in s.starts
    requires chunk + c.header <= rest && rest + c.header < End(c.header, s.hdr, chunk)
    ensures rest !in s.starts && rest + c.header <= c.arena
    ensures forall k :: k in s.starts ==> Apart(c.header, k, rest)
  {
    forall k | k in s.starts
      ensures Apart(c.header, k, rest)
    {
      assert k + c.header <= End(c.header, s.hdr, k);
    }
  }

  lemma InsertKeepsList(c: Config, s: State, s': State, chunk: nat, rest: nat, h: Header)
    requires Inv(c, s) && chunk in s.starts && |s'.data| == |s.data|
    requires chunk + c.header <= rest && rest + c.header < End(c.header, s.hdr, chunk)
    requires Inserted(c.header, s, s', rest, h)
    ensures ListInv(c, s')
  {
    InvImpliesListInv(c, s);
    InsertIsApart(c, s, chunk, rest);
    assert Spaced(c.header, s'.hdr, s'.starts);
    assert forall i :: 0 <= i < |s.free| ==> s.free[i] in s.free;
  }

  /** From s to s' only the header of `chunk` changed. */
  ghost predicate Rewritten(s: State, s': State, chunk: nat, size: nat) {
    && s'.starts == s.starts && s'.usage == s.usage && s'.free == s.free && s'.head == s.head
    && chunk in s.starts && chunk in s.hdr && chunk in s'.hdr
    && s'.hdr[chunk].size == size && s'.hdr[chunk].inUse == s.hdr[chunk].inUse
    && (forall o :: o in s.starts ==> o in s.hdr && o in s'.hdr)
    && (forall o :: o in s.starts && o != chunk ==> s'.hdr[o] == s.hdr[o])
  }

  lemma RewriteKeepsList(c: Config, s: State, s': State, chunk: nat, size: nat)
    requires ListInv(c, s) && Rewritten(s, s', chunk, size) && chunk !in s.free && |s'.data| == |s.data|
    ensures ListInv(c, s')
  {
    assert forall i :: 0 <= i < |s.free| ==> s.free[i] in s.free;
  }

  lemma CutInSteps(H: nat, s: State, s1: State, s2: State, s3: State, chunk: nat, offset: nat, h: Header)
    requires 0 < H && Tiles(H, s) && chunk in s.starts && offset + H < s.hdr[chunk].size
    requires h.size == s.hdr[chunk].size - H - offset
    requires Inserted(H, s, s1, chunk + H + offset, h)
    requires var rest := chunk + H + offset;
             if End(H, s1.hdr, rest) == s1.usage then Released(s1, s2, rest) else Pushed(s1, s2, rest)
    requires Rewritten(s2, s3, chunk, offset)
    ensures Cut(H, s, s3, chunk, offset)
  {
    assert End(H, s1.hdr, chunk + H + offset) == End(H, s.hdr, chunk);
  }

  /** From s to s' the live chunk at `chunk` was cut down to `offset` bytes. The rest
      became a free chunk, or wilderness when nothing followed. */
  ghost predicate Cut(H: nat, s: State, s': State, chunk: nat, offset: nat) {
    && chunk in s.starts && (forall o :: o in s.starts ==> o in s.hdr) && (forall o :: o in s'.starts ==> o in s'.hdr)
    && offset + H < s.hdr[chunk].size
    && (forall o :: o in s.starts ==> o in s'.starts && s'.hdr[o].inUse == s.hdr[o].inUse)
    && (forall o :: o in s.starts && o != chunk ==> s'.hdr[o].size == s.hdr[o].size)
    && s'.hdr[chunk].size == offset
    && var rest := chunk + H + offset;
       if End(H, s.hdr, chunk) == s.usage then
         s'.starts == s.starts && s'.usage == rest && s'.free == s.free
       else
         && s'.starts == s.starts + {rest} && s'.usage == s.usage && s'.free == [rest] + s.free
         && !s'.hdr[rest].inUse && End(H, s'.hdr, rest) == End(H, s.hdr, chunk)
  }

  lemma CutTiles(H: nat, s: State, s': State, chunk: nat, offset: nat)
    requires 0 < H && Tiles(H, s) && Cut(H, s, s', chunk, offset)
    ensures Tiles(H, s')
  {
    assert End(H, s'.hdr, chunk) == chunk + H + offset < End(H, s.hdr, chunk);
    forall o {:trigger End(H, s'.hdr, o)} | o in s'.starts
      ensures End(H, s'.hdr, o) == s'.usage || (End(H, s'.hdr, o) < s'.usage && End(H, s'.hdr, o) in s'.starts)
    {
      assert o in s.starts && o != chunk ==> End(H, s'.hdr, o) == End(H, s.hdr, o);
      assert o in s.starts && o < chunk ==> End(H, s.hdr, o) <= chunk;
    }
    forall o, p {:trigger End(H, s'.hdr, o), p in s'.starts} | o in s'.starts && p in s'.starts && o < p
      ensures End(H, s'.hdr, o) <= p
    {
      assert o in s.starts && o != chunk ==> End(H, s'.hdr, o) == End(H, s.hdr, o);
    }
  }

  lemma CutKeepsInv(c: Config, s: State, s': State, chunk: nat, offset: nat)
    requires Inv(c, s) && ListInv(c, s') && Cut(c.header, s, s', chunk, offset) && s.hdr[chunk].inUse
    ensures Inv(c, s') && Elsewhere(s, s', chunk) && s'.usage <= s.usage
  {
    CutTiles(c.header, s, s', chunk, offset);
  }

  lemma CutOutcome(c: Config, s: State, s': State, chunk: nat, offset: nat)
    requires Inv(c, s) && ListInv(c, s') && Cut(c.header, s, s', chunk, offset) && s.hdr[chunk].inUse
    requires OnlyHeadersWritten(c.header, s.starts + {chunk + c.header + offset}, s.data, s'.data)
    ensures Inv(c, s') && chunk in Blocks(c, s) && chunk in Blocks(c, s')
    ensures offset <= |Blocks(c, s)[chunk]| && Blocks(c, s')[chunk] == Blocks(c, s)[chunk][..offset]
    ensures Blocks(c, s') - {chunk} == Blocks(c, s) - {chunk} && s'.usage <= s.usage
    ensures s'.free == s.free || s'.free == [chunk + c.header + offset] + s.free
  {
    hide Linked, Blocks, Tiles, ListInv, OnlyHeadersWritten, Elsewhere;
    CutKeepsInv(c, s, s', chunk, offset);
    BlockAt(c, s, chunk);
    BlockAt(c, s', chunk);
    var X := s.starts + {chunk + c.header + offset};
    assert HeadersWithin(c.header, s, X, chunk, offset) by {
      assert chunk + c.header + offset + c.header <= End(c.header, s.hdr, chunk);
    }
    OtherBlocks(c, s, s', X, chunk, offset);
    PayloadKept(c, s, X, chunk, offset, s'.data, chunk, offset);
    var a := chunk + c.header;
    SliceOfSlice(s.data, a, s.hdr[chunk].size, offset);
  }

  /** From s to s' a new live chunk of the given size was added at the end. */
  ghost predicate Extended(H: nat, s: State, s': State, size: nat) {
    && s'.starts == s.starts + {s.usage} && s'.usage == s.usage + H + size && s'.free == s.free
    && (forall o :: o in s.starts ==> o in s.hdr) && (forall o :: o in s'.starts ==> o in s'.hdr)
    && (forall o :: o in s.starts ==> s'.hdr[o].inUse == s.hdr[o].inUse && s'.hdr[o].size == s.hdr[o].size)
    && s'.hdr[s.usage].inUse && s'.hdr[s.usage].size == size
  }

  lemma ExtendTiles(H: nat, s: State, s': State, size: nat)
    requires 0 < H && Tiles(H, s) && Extended(H, s, s', size) && s.usage !in s.starts
    ensures Tiles(H, s')
  {
    forall o {:trigger End(H, s'.hdr, o)} | o in s'.starts
      ensures End(H, s'.hdr, o) == s'.usage || (End(H, s'.hdr, o) < s'.usage && End(H, s'.hdr, o) in s'.starts)
    {
      assert o in s.starts ==> End(H, s'.hdr, o) == End(H, s.hdr, o);
    }
    forall o, p {:trigger End(H, s'.hdr, o), p in s'.starts} | o in s'.starts && p in s'.starts && o < p
      ensures End(H, s'.hdr, o) <= p
    {
      assert o in s.starts ==> End(H, s'.hdr, o) == End(H, s.hdr, o);
      assert p in s.starts ==> End(H, s.hdr, p) <= s.usage;
    }
  }

  lemma ExtendKeepsInv(c: Config, s: State, s': State, size: nat)
    requires Inv(c, s) && |s'.data| == |s.data| && s'.head == s.head && Extended(c.header, s, s', size)
    requires s.usage + c.header + size <= c.arena
    requires forall o :: o in s.starts ==> o in s'.hdr && s'.hdr[o] == s.hdr[o]
    ensures Inv(c, s') && Elsewhere(s, s', s.usage)
  {
    UsageIsNoStart(c, s);
    ExtendTiles(c.header, s, s', size);
    assert forall i :: 0 <= i < |s.free| ==> s.free[i] in s.free;
  }

  lemma UsageIsNoStart(c: Config, s: State)
    requires Inv(c, s)
    ensures forall o :: o in s.starts ==> o + c.header <= s.usage
  {
    hide Linked;
    forall o | o in s.starts
      ensures o + c.header <= s.usage
    {
      assert End(c.header, s.hdr, o) <= s.usage;
    }
  }

  lemma ExtendOutcome(c: Config, s: State, s': State, size: nat)
    requires Inv(c, s) && |s'.data| == |s.data| && s'.head == s.head && Extended(c.header, s, s', size)
    requires s.usage + c.header + size <= c.arena
    requires forall o :: o in s.starts ==> o in s'.hdr && s'.hdr[o] == s.hdr[o]
    requires OnlyHeadersWritten(c.header, s'.starts, s.data, s'.data)
    ensures Inv(c, s') && s.usage !in Blocks(c, s)
    ensures s.usage in Blocks(c, s') && |Blocks(c, s')[s.usage]| == size
    ensures Blocks(c, s') - {s.usage} == Blocks(c, s)
  {
    hide Linked, Tiles, Blocks, Elsewhere;
    ExtendKeepsInv(c, s, s', size);
    UsageIsNoStart(c, s);
    OtherBlocks(c, s, s', s'.starts, s.usage, 0);
    BlockAt(c, s, s.usage);
    BlockAt(c, s', s.usage);
    assert Blocks(c, s) - {s.usage} == Blocks(c, s);
  }

  /** The chunk at index b of the list is the smallest of the first n that is large
      enough, and the first of that size. */
  ghost predicate BestFit(hdr: map<nat, Header>, q: seq<nat>, n: nat, size: nat, b: nat)
    requires n <= |q| && forall i :: 0 <= i < |q| ==> q[i] in hdr
  {
    && b < n && size <= hdr[q[b]].size
    && forall j :: 0 <= j < n && size <= hdr[q[j]].size ==>
         hdr[q[b]].size < hdr[q[j]].size || (hdr[q[b]].size == hdr[q[j]].size && b <= j)
  }

  lemma FreeListStep(c: Config, s: State, o: nat)
    requires Inv(c, s) && o in s.starts && !s.hdr[o].inUse
    ensures o in s.free
    ensures s.hdr[o].next == NIL || (0 <= s.hdr[o].next && s.hdr[o].next in s.free)
  {
    hide Tiles;
    var i :| 0 <= i < |s.free| && s.free[i] == o;
    assert s.hdr[o].next == Next(s.free, i);
  }

  /** The free chunks before `chunk` in the list are followed by no free chunk. */
  ghost predicate DoneUpTo(c: Config, s: State, chunk: int)
    requires Inv(c, s)
  {
    forall o :: o in s.free && (chunk < 0 || Precedes(s.free, o, chunk)) ==> o in s.hdr && Maximal(c.header, s, o)
  }

  lemma ListFront(c: Config, s: State)
    requires Inv(c, s)
    ensures s.head != NIL ==> 0 <= s.head && s.head in s.free && |After(s.free, s.head)| < |s.free|
    ensures DoneUpTo(c, s, s.head)
  {
    hide Tiles, Precedes, After;
    if s.free != [] {
      FirstInList(s.free);
    }
  }

  /** Coalescing at `chunk` and moving on in the list. */
  lemma ListStep(c: Config, s: State, s': State, chunk: nat)
    requires Inv(c, s) && Inv(c, s') && chunk in s.free && chunk in s'.starts
    requires Merged(s, s', chunk) && Maximal(c.header, s', chunk) && Keeps(s.free, s'.free) && DoneUpTo(c, s, chunk)
    ensures chunk in s'.free && chunk in s'.hdr
    ensures var next := s'.hdr[chunk].next;
      && (next != NIL ==> 0 <= next && next in s'.free && |After(s'.free, next)| < |After(s.free, chunk)|)
      && DoneUpTo(c, s', next)
  {
    FreeListStep(c, s', chunk);
    var k :| 0 <= k < |s'.free| && s'.free[k] == chunk;
    assert s'.hdr[chunk].next == Next(s'.free, k);
    hide Tiles, Linked, Precedes, After;
    StepForward(s'.free, k);
    AfterShrinks(s.free, s'.free, chunk);
    forall o | o in s'.free && Precedes(s'.free, o, chunk) ensures o in s'.hdr && Maximal(c.header, s', o) {
      ListMember(c, s, s', o, chunk);
    }
  }

  /** All but the last `rest` entries of the list, or all of them, are followed by no free chunk. */
  ghost predicate SettledFront(c: Config, s: State, rest: int)
    requires Inv(c, s)
  {
    exists n: nat :: (n == |s.free| || |s.free| - n <= rest) && SettledTo(c, s, n)
  }

  ghost predicate SettledTo(c: Config, s: State, n: nat)
    requires Inv(c, s)
  {
    n <= |s.free| && forall j :: 0 <= j < n ==> s.free[j] in s.hdr && Maximal(c.header, s, s.free[j])
  }

  lemma {:induction false} CountList(q: seq<nat>)
    requires Distinct(q)
    ensures |Elements(q)| == |q|
  {
    if q == [] {
      assert Elements(q) == {};
    } else {
      var n := |q| - 1;
      CountList(q[..n]);
      assert q == q[..n] + [q[n]];
      assert Elements(q) == Elements(q[..n]) + {q[n]};
    }
  }

  lemma AfterCount(q: seq<nat>, k: nat)
    requires Distinct(q) && k < |q|
    ensures |q| - k - 1 <= |After(q, q[k])|
  {
    var r := q[k + 1..];
    assert forall i :: 0 <= i < |r| ==> r[i] == q[k + 1 + i];
    CountList(r);
    forall y | y in Elements(r) ensures y in After(q, q[k]) {
      var i :| 0 <= i < |r| && r[i] == y;
      assert q[k + 1 + i] == y;
    }
    Subset(Elements(r), After(q, q[k]));
  }

  lemma FrontSettled(c: Config, s: State, chunk: int, rest: int)
    requires Inv(c, s) && DoneUpTo(c, s, chunk)
    requires chunk != NIL ==> 0 <= chunk && chunk in s.free && |After(s.free, chunk)| < rest
    ensures SettledFront(c, s, rest)
  {
    hide Tiles, Linked, Maximal, After;
    var n := |s.free|;
    if chunk != NIL {
      var k :| 0 <= k < |s.free| && s.free[k] == chunk;
      assert Distinct(s.free) by {
        InvImpliesListInv(c, s);
        ListIsDistinct(c, s);
      }
      AfterCount(s.free, k);
      n := k;
      forall j | 0 <= j < n ensures Precedes(s.free, s.free[j], chunk) {
      }
    }
    forall j | 0 <= j < n ensures s.free[j] in s.hdr && Maximal(c.header, s, s.free[j]) {
      assert s.free[j] in s.free;
    }
    assert SettledTo(c, s, n);
  }

  lemma ListIsDistinct(c: Config, s: State)
    requires Inv(c, s)
    ensures Distinct(s.free)
  {
  }

  lemma ListMember(c: Config, s: State, s': State, o: nat, chunk: nat)
    requires Inv(c, s) && Inv(c, s') && chunk in s.free && o in s'.free && Precedes(s'.free, o, chunk)
    requires Merged(s, s', chunk) && Maximal(c.header, s', chunk) && Keeps(s.free, s'.free) && DoneUpTo(c, s, chunk)
    ensures o in s'.hdr && Maximal(c.header, s', o)
  {
    assert Precedes(s.free, o, chunk);
    assert o in s.free by {
      var i, j :| 0 <= i < j < |s.free| && s.free[i] == o && s.free[j] == chunk;
    }
    hide Tiles, Precedes, Linked;
    if o != chunk {
      MergeKeepsMaximal(c, s, s', chunk, o);
    }
  }

  lemma AllDone(c: Config, s: State)
    requires Inv(c, s) && DoneUpTo(c, s, NIL)
    ensures Settled(c, s, s.usage)
  {
    hide Tiles, Linked, Maximal;
  }

  /** The free list is as it was, or the rest of a block that was cut is in front. */
  ghost predicate Listed(c: Config, q: seq<nat>, q': seq<nat>, chunk: nat, size: nat)
    requires 0 < c.align
  {
    q' == q || q' == [chunk + c.header + Align(c, size)] + q
  }

  /** The length to which a block is cut back: the aligned size, unless what is left over
      could not hold another chunk. */
  function Trimmed(c: Config, size: nat, length: nat): nat
    requires 0 < c.align
  {
    if Align(c, size) + c.header < length then Align(c, size) else length
  }

  lemma RoundUpMultiple(k: nat, a: nat)
    requires 0 < a
    ensures (Times(k, a) + a - 1) / a == k
  {
    var q := (Times(k, a) + a - 1) / a;
    RoundedDown(Times(k, a) + a - 1, a);
    if q < k {
      MulMonotone(a, q + 1, k);
      TimesStep(q, a);
      assert false;
    }
    if k < q {
      MulMonotone(a, k + 1, q);
      TimesStep(k, a);
      assert false;
    }
  }

  /** What a successful allocation does to the live blocks: one new block of at least
      the requested length, and no change to any other. */
  ghost predicate Allocated(b: map<nat, seq<Byte>>, b': map<nat, seq<Byte>>, o: nat, size: nat) {
    && o !in b && o in b' && size <= |b'[o]|
    && b' - {o} == b
  }

  lemma StretchOutcome(c: Config, s: State, s': State, chunk: nat, size: nat)
    requires Inv(c, s) && ListInv(c, s) && Live(s, chunk) && End(c.header, s.hdr, chunk) == s.usage
    requires s.hdr[chunk].size < size && s.usage + size - s.hdr[chunk].size <= c.arena
    requires Resized(s, s'.(usage := s.usage), chunk, size) && s'.usage == s.usage + size - s.hdr[chunk].size
    requires OnlyHeadersWritten(c.header, s.starts, s.data, s'.data)
    ensures Inv(c, s') && Reallocated(Blocks(c, s), Blocks(c, s'), chunk, chunk, size)
  {
    StretchKeepsInv(c, s, s', chunk, size);
    hide Linked, Tiles, Blocks;
    ChunkGrew(c, s, s', chunk);
    BlockAt(c, s', chunk);
    OtherBlocks(c, s, s', s.starts, chunk, 0);
  }

  lemma StretchKeepsInv(c: Config, s: State, s': State, chunk: nat, size: nat)
    requires Inv(c, s) && ListInv(c, s) && Live(s, chunk) && End(c.header, s.hdr, chunk) == s.usage
    requires s.hdr[chunk].size < size && s.usage + size - s.hdr[chunk].size <= c.arena
    requires Resized(s, s'.(usage := s.usage), chunk, size) && s'.usage == s.usage + size - s.hdr[chunk].size
    ensures Inv(c, s') && Elsewhere(s, s', chunk)
  {
    ResizeKeepsList(c, s, s'.(usage := s.usage), chunk, size);
    hide Linked;
    StretchTiles(c, s, s', chunk, size);
  }

  lemma StretchTiles(c: Config, s: State, s': State, chunk: nat, size: nat)
    requires Inv(c, s) && Live(s, chunk) && End(c.header, s.hdr, chunk) == s.usage && s.hdr[chunk].size < size
    requires Resized(s, s'.(usage := s.usage), chunk, size) && s'.usage == s.usage + size - s.hdr[chunk].size
    ensures Tiles(c.header, s')
  {
    hide Linked;
    var H := c.header;
    forall o {:trigger End(H, s'.hdr, o)} | o in s'.starts
      ensures End(H, s'.hdr, o) == s'.usage || (End(H, s'.hdr, o) < s'.usage && End(H, s'.hdr, o) in s'.starts)
    {
      assert o != chunk ==> End(H, s'.hdr, o) == End(H, s.hdr, o);
      assert o < chunk ==> End(H, s.hdr, o) <= chunk;
      assert o <= End(H, s.hdr, o);
    }
    forall o, p {:trigger End(H, s'.hdr, o), p in s'.starts} | o in s'.starts && p in s'.starts && o < p
      ensures End(H, s'.hdr, o) <= p
    {
      assert o != chunk ==> End(H, s'.hdr, o) == End(H, s.hdr, o);
      assert End(H, s.hdr, p) <= s.usage;
    }
  }

  /** The header store after one byte at address a has been written. */
  function Clobber(H: nat, hdr: map<nat, Header>, a: nat): map<nat, Header> {
    map k | k in hdr && !(k <= a < k + H) :: hdr[k]
  }

  lemma PokeHitsNoHeader(c: Config, s: State, o: nat, i: nat)
    requires Inv(c, s) && Live(s, o) && i < s.hdr[o].size
    ensures o + c.header + i < s.usage
    ensures forall k :: k in s.starts ==>
      k in Clobber(c.header, s.hdr, o + c.header + i) && Clobber(c.header, s.hdr, o + c.header + i)[k] == s.hdr[k]
    ensures forall k :: k in s.starts && k != o && Live(s, k) ==>
      !(k + c.header <= o + c.header + i < k + c.header + s.hdr[k].size)
  {
    hide Linked;
    assert End(c.header, s.hdr, o) <= s.usage;
    forall k | k in s.starts
      ensures !(k <= o + c.header + i < k + c.header)
      ensures k != o ==> !(k <= o + c.header + i < End(c.header, s.hdr, k))
    {
      assert k + c.header <= End(c.header, s.hdr, k);
    }
  }

  lemma PokeKeepsInv(c: Config, s: State, s': State, o: nat, i: nat, b: Byte)
    requires Inv(c, s) && Live(s, o) && i < s.hdr[o].size && o + c.header + i < |s.data|
    requires s' == s.(hdr := Clobber(c.header, s.hdr, o + c.header + i), data := s.data[o + c.header + i := b])
    ensures Inv(c, s')
    ensures forall k :: k in s.starts ==> k in s.hdr && k in s'.hdr && s'.hdr[k] == s.hdr[k]
  {
    PokeHitsNoHeader(c, s, o, i);
    assert forall i :: 0 <= i < |s.free| ==> s.free[i] in s.free;
    assert Tiles(c.header, s') by {
      hide Linked;
      assert forall k {:trigger End(c.header, s'.hdr, k)} :: k in s.starts ==> End(c.header, s'.hdr, k) == End(c.header, s.hdr, k);
    }
  }

  lemma PokeOutcome(c: Config, s: State, s': State, o: nat, i: nat, b: Byte)
    requires Inv(c, s) && Live(s, o) && i < s.hdr[o].size && o + c.header + i < |s.data|
    requires s' == s.(hdr := Clobber(c.header, s.hdr, o + c.header + i), data := s.data[o + c.header + i := b])
    ensures Inv(c, s') && o in Blocks(c, s) && i < |Blocks(c, s)[o]|
    ensures Blocks(c, s') == Blocks(c, s)[o := Blocks(c, s)[o][i := b]]
  {
    hide Linked, Tiles, Clobber;
    PokeKeepsInv(c, s, s', o, i, b);
    PokeHitsNoHeader(c, s, o, i);
    BlockAt(c, s, o);
    hide Blocks;
    var m, m' := Blocks(c, s)[o := Blocks(c, s)[o][i := b]], Blocks(c, s');
    forall k: nat
      ensures k in m' <==> k in m
      ensures k in m ==> m'[k] == m[k]
    {
      BlockAt(c, s, k);
      BlockAt(c, s', k);
      assert k in m ==> m'[k] == m[k];
    }
    assert m'.Keys == m.Keys;
  }

  /** `ptr` is a sound answer to a request for a new block: null and nothing changed, or a new
      block that is long enough, with all others as they were, in a heap that is well formed. */
  ghost predicate Answered(c: Config, b: map<nat, seq<Byte>>, s': State, ptr: int, request: nat) {
    && Inv(c, s')
    && if ptr == NIL then Blocks(c, s') == b
       else c.header <= ptr && Allocated(b, Blocks(c, s'), ptr - c.header, request)
  }

  /** The same for the request to resize the block at `o`; on failure the block may have got
      longer. */
  ghost predicate Resettled(c: Config, b: map<nat, seq<Byte>>, s': State, o: nat, ptr: int, request: nat) {
    && Inv(c, s')
    && if ptr == NIL then Grew(b, Blocks(c, s'), o)
       else c.header <= ptr && Reallocated(b, Blocks(c, s'), o, ptr - c.header, request)
  }

  /** No tiling of the heap makes a pointer a sound answer to a request beyond the arena. */
  lemma BeyondArenaUnsound(c: Config, b: map<nat, seq<Byte>>, s': State, o: nat, ptr: int, request: nat)
    requires ptr != NIL && c.arena < request
    ensures !Answered(c, b, s', ptr, request) && !Resettled(c, b, s', o, ptr, request)
  {
    if Inv(c, s') && c.header <= ptr && ptr - c.header in Blocks(c, s') {
      LiveBlockInArena(c, s', ptr - c.header);
    }
  }

  /** What heapmem_realloc does with a request beyond the arena, for a block of length `cur`: an
      apparent shrink hands the block back, no longer than it was; a small wrapped growth of the
      last chunk writes the whole size into a footprint that grew by `adj` only; otherwise the
      allocation refuses, or wraps around and hands out what lies behind the footprint. */
  ghost predicate Beyond(c: Config, s: State, s': State, chunk: nat, cur: nat, size: nat, adj: int, newPtr: int) {
    if adj <= 0 then
      newPtr == chunk + c.header && Inv(c, s') && chunk in Blocks(c, s') && |Blocks(c, s')[chunk]| <= cur
    else if chunk + c.header + cur == s.usage && s.usage + adj <= c.arena then
      newPtr == chunk + c.header && s'.usage == s.usage + adj && chunk in s'.hdr && s'.hdr[chunk].size == size
    else if ExtendOk(c, s.usage, size) then newPtr == NIL && Inv(c, s')
    else newPtr == s.usage + c.header && s'.usage == Wrap(c, s.usage + c.header + size)
  }

  /** The aligned size and what the growth is taken for, for small and for large requests. */
  lemma SizesOf(c: Config, usage: nat, cur: nat, request: nat)
    requires WellFormed(c) && Machine(c) && usage <= c.arena && cur <= c.arena && 0 < request <= c.sizeMax
    ensures var size := Align(c, request);
      && size + c.align - 1 <= c.sizeMax && Align(c, size) == size
      && ToInt(c, size - cur) <= c.intMax
      && (if request <= c.arena then request <= size else size == 0 || request <= size)
      && (size <= cur || request <= c.arena ==> ExtendOk(c, usage, size))
      && (cur < size && size - cur <= c.intMax ==> ToInt(c, size - cur) == size - cur)
      && (size - cur > c.intMax ==> cur < request)
  {
    var size := Align(c, request);
    AlignedFits(c, request);
    if request + c.align - 1 <= c.sizeMax {
      AlignExact(c, request);
    } else {
      AlignWrapsToZero(c, request);
    }
    hide Align, Machine;
    if cur < size && size - cur <= c.intMax {
      ToIntExact(c, size - cur);
    }
    hide ToInt;
    ToIntRange(c, size - cur);
  }

  lemma FitsExtend(c: Config, usage: nat, size: nat)
    requires WellFormed(c) && usage <= c.arena && size <= c.arena
    ensures ExtendOk(c, usage, size)
  {
  }

  /** Half of the range of size_t is more than INT_MAX. */
  lemma SumFits(c: Config, usage: nat, adj: nat)
    requires WellFormed(c) && Machine(c) && usage <= c.arena && adj <= c.intMax
    ensures usage + adj <= c.sizeMax
  {
    var m, n := c.sizeMax + 1, 2 * (c.intMax + 1);
    if m < n {
      SmallMod(m, n);
    }
  }

  /** The block was handed back, cut if it was longer than needed. */
  lemma KeptVerdict(c: Config, s: State, b: map<nat, seq<Byte>>, s': State, chunk: nat, cur: nat, request: nat)
    requires WellFormed(c) && Machine(c) && s.usage <= c.arena && cur <= c.arena && 0 < request <= c.sizeMax
    requires chunk in b && |b[chunk]| == cur && ToInt(c, Align(c, request) - cur) <= 0
    requires Inv(c, s') && chunk in Blocks(c, s')
    requires var size := Align(c, request); var b' := Blocks(c, s');
      && (size <= cur ==> size <= |b'[chunk]| == Trimmed(c, size, cur)) && (cur < Align(c, size) ==> b' == b)
      && b'[chunk] <= b[chunk] && b' - {chunk} == b - {chunk}
    ensures Resolved(c, s, b, s', chunk, cur, chunk + c.header, request)
  {
    hide Linked, Tiles, Blocks, Align, ToInt, Machine, Wrap, Inv;
    SizesOf(c, s.usage, cur, request);
    if c.arena < request {
      BeyondArenaUnsound(c, b, s', chunk, chunk + c.header, request);
    }
  }

  lemma EnlargedVerdict(c: Config, s: State, b: map<nat, seq<Byte>>, s': State, chunk: nat, cur: nat, newPtr: int, request: nat)
    requires Inv(c, s) && Machine(c) && s.usage <= c.arena && cur <= c.arena && 0 < request <= c.sizeMax && WellFormed(c)
    requires chunk in s.starts && chunk in s.hdr && s.hdr[chunk].size == cur && chunk in b && |b[chunk]| == cur
    requires 0 < ToInt(c, Align(c, request) - cur)
    requires Enlarged(c, s, b, s', chunk, cur, Align(c, request), ToInt(c, Align(c, request) - cur), newPtr)
    ensures Resolved(c, s, b, s', chunk, cur, newPtr, request)
  {
    hide Linked, Tiles, Blocks, Align, ToInt, Machine, Wrap, Inv, ExtendOk, Reallocated, Grew, Enlarged;
    SizesOf(c, s.usage, cur, request);
    var size := Align(c, request);
    var adj, last := ToInt(c, size - cur), chunk + c.header + cur == s.usage;
    if last && s.usage + adj <= c.arena {
      StretchVerdict(c, s, b, s', chunk, cur, newPtr, request);
    } else if size <= cur {
      ShrinkVerdict(c, s, b, s', chunk, cur, newPtr, request);
    } else {
      MoveVerdict(c, s, b, s', chunk, cur, newPtr, request);
    }
  }

  /** The footprint has been extended. */
  lemma StretchVerdict(c: Config, s: State, b: map<nat, seq<Byte>>, s': State, chunk: nat, cur: nat, newPtr: int, request: nat)
    requires Inv(c, s) && Machine(c) && s.usage <= c.arena && cur <= c.arena && 0 < request <= c.sizeMax && WellFormed(c)
    requires chunk in s.starts && chunk in s.hdr && s.hdr[chunk].size == cur
    requires var size := Align(c, request); var adj := ToInt(c, size - cur);
      && 0 < adj && chunk + c.header + cur == s.usage && s.usage + adj <= c.arena
      && Enlarged(c, s, b, s', chunk, cur, size, adj, newPtr)
    ensures Resolved(c, s, b, s', chunk, cur, newPtr, request)
  {
    hide Linked, Tiles, Blocks, Align, ToInt, Machine, Wrap, Inv, ExtendOk, Reallocated, Grew;
    SizesOf(c, s.usage, cur, request);
    var size := Align(c, request);
    var adj := ToInt(c, size - cur);
    ToIntZero(c);
    if adj != size - cur {
      BrokenStretch(c, s, s', chunk, size, adj);
    } else {
      LargerSize(c, s', b, chunk, size, request);
    }
    if c.arena < request {
      BeyondArenaUnsound(c, b, s', chunk, newPtr, request);
    }
  }

  lemma LargerSize(c: Config, s': State, b: map<nat, seq<Byte>>, o: nat, size: nat, request: nat)
    requires Inv(c, s')
    ensures request <= size ==>
      forall p: nat :: Reallocated(b, Blocks(c, s'), o, p, size) ==> Reallocated(b, Blocks(c, s'), o, p, request)
  {
  }

  /** A shrink has been taken for a growth. */
  lemma ShrinkVerdict(c: Config, s: State, b: map<nat, seq<Byte>>, s': State, chunk: nat, cur: nat, newPtr: int, request: nat)
    requires Machine(c) && s.usage <= c.arena && cur <= c.arena && 0 < request <= c.sizeMax && WellFormed(c)
    requires var size := Align(c, request); var adj := ToInt(c, size - cur);
      && 0 < adj && size <= cur && !(chunk + c.header + cur == s.usage && s.usage + adj <= c.arena)
      && Enlarged(c, s, b, s', chunk, cur, size, adj, newPtr)
    ensures Resolved(c, s, b, s', chunk, cur, newPtr, request)
  {
    hide Linked, Tiles, Blocks, Align, ToInt, Machine, Wrap, Inv, ExtendOk, Reallocated, Grew;
    SizesOf(c, s.usage, cur, request);
    var size := Align(c, request);
    var adj := ToInt(c, size - cur);
    ToIntZero(c);
    assert Misread(c, size, cur);
    if Inv(c, s') {
      LargerSize(c, s', b, chunk, size, request);
    }
    if c.arena < request {
      BeyondArenaUnsound(c, b, s', chunk, chunk + c.header, request);
    }
  }

  lemma ToIntZero(c: Config)
    ensures ToInt(c, 0) == 0
  {
  }

  /** The block has been enlarged where it is or moved, or the request was refused. */
  lemma MoveVerdict(c: Config, s: State, b: map<nat, seq<Byte>>, s': State, chunk: nat, cur: nat, newPtr: int, request: nat)
    requires Machine(c) && s.usage <= c.arena && cur <= c.arena && 0 < request <= c.sizeMax && WellFormed(c)
    requires var size := Align(c, request); var adj := ToInt(c, size - cur);
      && 0 < adj && cur < size && !(chunk + c.header + cur == s.usage && s.usage + adj <= c.arena)
      && Enlarged(c, s, b, s', chunk, cur, size, adj, newPtr)
    ensures Resolved(c, s, b, s', chunk, cur, newPtr, request)
  {
    hide Linked, Tiles, Blocks, Align, ToInt, Machine, Wrap, Inv, ExtendOk, Reallocated, Grew;
    SizesOf(c, s.usage, cur, request);
    var size := Align(c, request);
    if Inv(c, s') {
      LargerSize(c, s', b, chunk, size, request);
    }
    if c.arena < request && newPtr != NIL {
      BeyondArenaUnsound(c, b, s', chunk, newPtr, request);
    }
  }

  lemma ToIntRange(c: Config, x: int)
    ensures ToInt(c, x) <= c.intMax
  {
  }

  /** What becomes of a block of length `cur` that is to get `size` bytes, when that is taken for a
      growth by `adj`. */
  ghost predicate Enlarged(c: Config, s: State, b: map<nat, seq<Byte>>, s': State, chunk: nat, cur: nat, size: nat, adj: nat, newPtr: int) {
    var last := chunk + c.header + cur == s.usage;
    if last && s.usage + adj <= c.arena then
      && newPtr == chunk + c.header && s'.starts == s.starts && s'.usage == s.usage + adj
      && chunk in s'.hdr && s'.hdr[chunk].size == size
      && (adj == size - cur ==> Inv(c, s') && Reallocated(b, Blocks(c, s'), chunk, chunk, size))
    else if size <= cur then
      if last then newPtr == NIL && ExtendOk(c, s.usage, size) ==> Inv(c, s') && Blocks(c, s') == b
      else newPtr == chunk + c.header && Inv(c, s') && Reallocated(b, Blocks(c, s'), chunk, chunk, size)
    else if ExtendOk(c, s.usage, size) then
      && Inv(c, s') && (c.arena < size ==> newPtr == NIL)
      && if newPtr == NIL then Grew(b, Blocks(c, s'), chunk)
         else c.header <= newPtr && Reallocated(b, Blocks(c, s'), chunk, newPtr - c.header, size)
    else newPtr == s.usage + c.header && s'.usage == Wrap(c, s.usage + c.header + size)
  }

  /** What heapmem_realloc promises for a block of length `cur`: a sound answer if and only if the
      guard holds. When a shrink of the last block is taken for a growth, the footprint that is
      extended by it fits no tiling; and if it cannot be, a null pointer leaves all as it was. */
  ghost predicate Resolved(c: Config, s: State, b: map<nat, seq<Byte>>, s': State, chunk: nat, cur: nat, newPtr: int, request: nat)
    requires 0 < c.align
  {
    var size := Align(c, request);
    var adj, last := ToInt(c, size - cur), chunk + c.header + cur == s.usage;
    && (!(Misread(c, size, cur) && last) ==>
          (Resettled(c, b, s', chunk, newPtr, request) <==> ReallocOk(c, s.usage, cur, last, request)))
    && (Misread(c, size, cur) && last && s.usage + adj <= c.arena ==> !Inv(c, s'))
    && (Misread(c, size, cur) && last && s.usage + adj > c.arena && newPtr == NIL ==> Inv(c, s') && Blocks(c, s') == b)
    && (adj <= 0 && request <= c.arena ==>
          && newPtr == chunk + c.header && Inv(c, s') && chunk in Blocks(c, s')
          && |Blocks(c, s')[chunk]| == if size <= cur then Trimmed(c, request, cur) else cur)
    && (request > c.arena && !Misread(c, size, cur) ==> Beyond(c, s, s', chunk, cur, size, adj, newPtr))
  }

  /** Writing a size into the last chunk that the footprint has not grown by leaves no tiling. */
  lemma BrokenStretch(c: Config, s: State, s': State, chunk: nat, size: nat, adj: nat)
    requires Inv(c, s) && chunk in s.starts && chunk in s.hdr && End(c.header, s.hdr, chunk) == s.usage
    requires s'.starts == s.starts && s'.usage == s.usage + adj && chunk in s'.hdr && s'.hdr[chunk].size == size
    requires 0 < adj != size - s.hdr[chunk].size
    ensures !Inv(c, s')
  {
    hide Linked, Blocks, Tiles;
    if Inv(c, s') {
      var end := End(c.header, s'.hdr, chunk);
      NextStart(c, s', chunk);
      if end in s.starts {
        StartsBefore(c, s, chunk, end);
      }
    }
  }

  lemma NextStart(c: Config, s: State, o: nat)
    requires Inv(c, s) && o in s.starts && o in s.hdr
    ensures var end := End(c.header, s.hdr, o); end == s.usage || (end < s.usage && end in s.starts)
  {
  }

  lemma StartsBefore(c: Config, s: State, o: nat, p: nat)
    requires Inv(c, s) && o in s.starts && o in s.hdr && p in s.starts
    ensures p < s.usage && (o < p ==> End(c.header, s.hdr, o) <= p)
  {
    assert p < End(c.header, s.hdr, p);
  }

  /** Growing in place and then moving, or failing to, amounts to one reallocation. */
  lemma GrewThen(b: map<nat, seq<Byte>>, b1: map<nat, seq<Byte>>, b2: map<nat, seq<Byte>>, o: nat, o': int, size: nat)
    requires Grew(b, b1, o) && o in b
    ensures b2 == b1 ==> Grew(b, b2, o)
    ensures 0 <= o' && Reallocated(b1, b2, o, o', size) ==> Reallocated(b, b2, o, o', size)
  {
  }

  /** The new chunk of an empty free list is put behind the others, if there is room. */
  ghost predicate Extension(s: State, s': State, H: nat, size: nat, arena: nat, ptr: int) {
    if s.usage + H + size <= arena then
      && ptr == s.usage + H && s'.usage == ptr + size && s'.free == s.free && s'.starts == s.starts + {s.usage}
      && s.usage in s'.hdr && s'.hdr[s.usage].size == size && s'.hdr[s.usage].inUse
      && forall o :: o in s.starts ==>
           o in s.hdr && o in s'.hdr && s'.hdr[o].size == s.hdr[o].size && s'.hdr[o].inUse == s.hdr[o].inUse
    else ptr == NIL && s'.usage == s.usage && s'.free == s.free
  }

  lemma ExtensionIs(c: Config, s: State, s': State, size: nat)
    requires Extended(c.header, s, s', size) && s.usage + c.header + size <= c.arena
    requires forall o :: o in s.starts ==> o in s.hdr && o in s'.hdr && s'.hdr[o] == s.hdr[o]
    ensures Extension(s, s', c.header, size, c.arena, s.usage + c.header)
  {
  }

  /** Freeing a chunk puts it in front of the free list and leaves all chunk boundaries as they are, or
      takes away the last one. */
  ghost predicate NothingMerged(s: State, s': State, H: nat, chunk: nat) {
    && chunk in s.hdr
    && (if End(H, s.hdr, chunk) == s.usage
        then s'.starts == s.starts - {chunk} && s'.usage == chunk && s'.free == s.free
        else s'.starts == s.starts && s'.usage == s.usage && s'.free == [chunk] + s.free)
    && forall o :: o in s'.starts ==>
         o in s.hdr && o in s'.hdr && s'.hdr[o].size == s.hdr[o].size
         && s'.hdr[o].inUse == (o != chunk && s.hdr[o].inUse)
  }

  lemma NoMerge(s: State, s': State, H: nat, chunk: nat)
    requires chunk in s.starts && chunk in s.hdr
    requires if End(H, s.hdr, chunk) == s.usage then Released(s, s', chunk) else Pushed(s, s', chunk)
    ensures NothingMerged(s, s', H, chunk)
  {
  }

  lemma ReleasedIsLess(s: State, s': State, H: nat, chunk: nat)
    requires chunk in s.starts && chunk in s.hdr
    requires if End(H, s.hdr, chunk) == s.usage then Released(s, s', chunk) else Pushed(s, s', chunk)
    ensures s'.usage <= s.usage
  {
  }

  lemma LiveBlockInArena(c: Config, s: State, o: nat)
    requires Inv(c, s) && o in Blocks(c, s)
    ensures |Blocks(c, s)[o]| <= c.arena
  {
    BlockAt(c, s, o);
    assert End(c.header, s.hdr, o) <= s.usage;
  }

  /** What a successful reallocation does: the block moves from o to o', has room for
      the request, keeps the old contents as far as both lengths go, and no other
      block changes. */
  ghost predicate Reallocated(b: map<nat, seq<Byte>>, b': map<nat, seq<Byte>>, o: nat, o': nat, size: nat) {
    && o in b && o' in b' && size <= |b'[o']|
    && b' - {o'} == b - {o}
    && forall i :: 0 <= i < |b[o]| && i < |b'[o']| ==> b'[o'][i] == b[o][i]
  }

  /** Entry `n` of the free list, and what comes after it. */
  lemma ListEntry(c: Config, s: State, n: nat)
    requires Inv(c, s)
    ensures n == 0 ==> s.head == if s.free == [] then NIL else s.free[0]
    ensures forall i :: 0 <= i < |s.free| ==> s.free[i] in s.hdr
    ensures n < |s.free| ==> s.hdr[s.free[n]].next == if n + 1 < |s.free| then s.free[n + 1] else NIL
  {
    hide Tiles, Blocks;
    assert n < |s.free| ==> s.hdr[s.free[n]].next == Next(s.free, n);
  }

  // ---------------------------------------------------------------------------
  // Free memory is used again

  /** One of the entries of the free list that a search looks at is large enough. */
  ghost predicate Suffices(c: Config, s: State, size: nat) {
    exists j :: 0 <= j < |s.free| && j < c.searchMax && FitsAt(s, j, size)
  }

  ghost predicate FitsAt(s: State, j: nat, size: nat)
    requires j < |s.free|
  {
    s.free[j] in s.hdr && size <= s.hdr[s.free[j]].size
  }

  /** What is left of a list has no entry at a greater index than before. */
  lemma IndexShrinks(q: seq<nat>, r: seq<nat>, j: nat, i: nat)
    requires Distinct(q) && Distinct(r) && Keeps(q, r) && j < |q| && i < |r| && q[j] == r[i]
    ensures i <= j
  {
    CountList(q[..j]);
    CountList(r[..i]);
    forall y | y in Elements(r[..i]) ensures y in Elements(q[..j]) {
      var k :| 0 <= k < i && r[k] == y;
      assert Precedes(r, y, r[i]);
      var a, b :| 0 <= a < b < |q| && q[a] == y && q[b] == q[j];
      assert q[..j][a] == y;
    }
    Subset(Elements(r[..i]), Elements(q[..j]));
  }

  lemma ChunkAround(c: Config, s: State, i: nat) returns (p: nat)
    requires Inv(c, s) && i < s.usage
    ensures p in s.starts && p in s.hdr && p <= i < End(c.header, s.hdr, p)
  {
    TilingIsExact(c, s, i);
    hide Linked;
    p :| p in s.starts && p <= i < End(c.header, s.hdr, p);
  }

  lemma StartsHaveHeaders(c: Config, s: State)
    requires Inv(c, s)
    ensures forall o :: o in s.starts ==> o in s.hdr
  {
    hide Linked;
  }

  /** Where one chunk swallows others, whatever vanishes lies within it; it never shrinks. */
  lemma Swallowed(c: Config, s: State, s': State, chunk: nat, o: nat)
    requires Inv(c, s) && Inv(c, s') && Merged(s, s', chunk) && chunk in s.starts && chunk in s'.starts
    requires o in s.starts && (o in s'.starts ==> o == chunk)
    ensures o in s.hdr && chunk in s'.hdr && s.hdr[o].size <= s'.hdr[chunk].size
  {
    hide Inv;
    StartsHaveHeaders(c, s);
    StartsHaveHeaders(c, s');
    StartsBefore(c, s, o, o);
    var p := ChunkAround(c, s', o);
    assert p != chunk ==> s'.hdr[p].size == s.hdr[p].size;
    StartsBefore(c, s, p, o);
    NextStart(c, s', chunk);
    NextStart(c, s, o);
    var end := End(c.header, s'.hdr, chunk);
    if end in s.starts {
      StartsBefore(c, s, o, end);
    }
  }

  /** An entry that is large enough is still there, or within the chunk that swallowed it; that chunk is
      looked at as well, or too small itself. */
  lemma SufficesStill(c: Config, s: State, s': State, chunk: nat, p: nat, size: nat)
    requires Inv(c, s) && Inv(c, s') && Merged(s, s', chunk) && chunk in s.starts && chunk in s'.starts && Keeps(s.free, s'.free)
    requires (p < |s'.free| && p < c.searchMax && s'.free[p] == chunk) || s'.hdr[chunk].size < size
    ensures Suffices(c, s, size) ==> Suffices(c, s', size)
  {
    hide Linked, Blocks, Tiles, Keeps;
    if Suffices(c, s, size) {
      var j :| 0 <= j < |s.free| && j < c.searchMax && FitsAt(s, j, size);
      var o := s.free[j];
      assert o in s.free;
      if o in s'.starts && o != chunk {
        assert o in s'.free;
        var i :| 0 <= i < |s'.free| && s'.free[i] == o;
        ListIsDistinct(c, s);
        ListIsDistinct(c, s');
        IndexShrinks(s.free, s'.free, j, i);
        assert FitsAt(s', i, size);
      } else {
        Swallowed(c, s, s', chunk, o);
        assert FitsAt(s', p, size);
      }
    }
  }

  /** Some chunks have swallowed others. */
  ghost predicate Gathered(s: State, s': State) {
    && s'.usage == s.usage && s'.starts <= s.starts && Keeps(s.free, s'.free)
    && forall o :: o in s'.starts ==>
         o in s.hdr && o in s'.hdr && s.hdr[o].size <= s'.hdr[o].size && s'.hdr[o].inUse == s.hdr[o].inUse
  }

  lemma GatheredMore(c: Config, s: State, s1: State, s2: State, chunk: nat)
    requires Inv(c, s1) && Inv(c, s2) && chunk in s1.starts && chunk in s2.starts
    requires Gathered(s, s1) && Merged(s1, s2, chunk) && Keeps(s1.free, s2.free)
    ensures Gathered(s, s2)
  {
    hide Precedes, Linked;
    assert s1.hdr[chunk].size <= s2.hdr[chunk].size by {
      Swallowed(c, s1, s2, chunk, chunk);
    }
    hide Tiles;
  }

  lemma NothingGathered(c: Config, s: State)
    requires Inv(c, s)
    ensures Gathered(s, s) && SufficesToo(c, s, s)
  {
    hide Linked, Blocks;
    InvImpliesListInv(c, s);
  }

  /** What a search finds beforehand it can find afterwards. */
  ghost predicate SufficesToo(c: Config, s: State, s': State) {
    forall size {:trigger Suffices(c, s', size)} :: Suffices(c, s, size) ==> Suffices(c, s', size)
  }

  lemma SufficesAfter(c: Config, s0: State, s: State, s': State, chunk: nat, p: nat)
    requires Inv(c, s) && Inv(c, s') && Merged(s, s', chunk) && chunk in s.starts && chunk in s'.starts && Keeps(s.free, s'.free)
    requires p < |s'.free| && p < c.searchMax && s'.free[p] == chunk && SufficesToo(c, s0, s)
    ensures SufficesToo(c, s0, s')
  {
    hide Inv, Merged, Keeps, Suffices;
    forall size: nat {:trigger Suffices(c, s', size)} | Suffices(c, s0, size) ensures Suffices(c, s', size) {
      assert Suffices(c, s, size);
      SufficesStill(c, s, s', chunk, p, size);
    }
  }

  /** Where the chunk just visited stands now. */
  lemma ListIndex(c: Config, s: State, s': State, chunk: nat, p: nat) returns (i: nat)
    requires Inv(c, s) && Inv(c, s') && Keeps(s.free, s'.free) && p < |s.free| && s.free[p] == chunk && chunk in s'.free
    ensures i <= p && i < |s'.free| && s'.free[i] == chunk
  {
    ListIsDistinct(c, s);
    ListIsDistinct(c, s');
    hide Inv, Keeps;
    i :| 0 <= i < |s'.free| && s'.free[i] == chunk;
    IndexShrinks(s.free, s'.free, p, i);
  }

  /** What defragmentation may do: what a search finds beforehand it can find afterwards. */
  ghost predicate Defragmented(c: Config, s: State, s': State)
    requires Inv(c, s)
  {
    && Inv(c, s') && Blocks(c, s') == Blocks(c, s) && Gathered(s, s')
    && SettledFront(c, s', |s.free| - c.searchMax)
    && SufficesToo(c, s, s')
  }

  /** Where a request for `size` bytes is served once the heap is defragmented: in the entry of the list
      that fits best, if one that is looked at suffices; otherwise behind all chunks, or nowhere. */
  ghost predicate Chosen(c: Config, mid: State, size: nat, b: nat, chunk: int)
    requires Inv(c, mid)
  {
    if Suffices(c, mid, size) then
      BestEntry(c, mid, size, b) && chunk == mid.free[b]
    else chunk == NIL || chunk == mid.usage
  }

  ghost predicate BestEntry(c: Config, s: State, size: nat, b: nat)
    requires Inv(c, s)
  {
    b < |s.free| && BestFit(s.hdr, s.free, if c.searchMax < |s.free| then c.searchMax else |s.free|, size, b)
  }

  lemma UsageKept(c: Config, s: State, s': State)
    requires Inv(c, s) && Defragmented(c, s, s')
    ensures s'.usage == s.usage
    ensures forall size {:trigger Suffices(c, s', size)} :: Suffices(c, s, size) ==> Suffices(c, s', size)
  {
    hide Tiles, Linked, Blocks, SettledFront, Keeps;
  }

  /** Any entry suffices for nothing. */
  lemma FirstSuffices(c: Config, s: State)
    requires Inv(c, s)
    ensures s.free != [] && c.searchMax > 0 ==> Suffices(c, s, 0)
    ensures s.free == [] || c.searchMax == 0 ==> forall size :: !Suffices(c, s, size)
  {
    if s.free != [] && c.searchMax > 0 {
      assert FitsAt(s, 0, 0);
    }
  }

  lemma EntryIsFree(c: Config, s: State, size: nat, b: nat)
    requires Inv(c, s) && BestEntry(c, s, size, b)
    ensures s.free[b] in s.free && s.free[b] in s.hdr && size <= s.hdr[s.free[b]].size
  {
  }

  /** The search finds an entry if there is one. */
  lemma SearchIsComplete(c: Config, s: State, size: nat, best: int, b: nat)
    requires Inv(c, s)
    requires best == NIL ==> forall j :: 0 <= j < |s.free| && j < c.searchMax ==> s.hdr[s.free[j]].size < size
    requires best != NIL ==> BestEntry(c, s, size, b)
    ensures best != NIL <==> Suffices(c, s, size)
  {
    hide Tiles;
    if best != NIL {
      assert FitsAt(s, b, size);
    }
  }

  /** A request was served from the heap s. */
  ghost predicate ServedFrom(c: Config, s: State, size: nat, chunk: int)
    requires Inv(c, s)
  {
    exists mid: State, k: nat :: Defragmented(c, s, mid) && Chosen(c, mid, size, k, chunk)
  }

  /** The same, once chunks have been swallowed in vain. */
  ghost predicate ServedAnew(c: Config, s: State, size: nat, chunk: int) {
    exists s1: State :: Inv(c, s1) && Gathered(s, s1) && ServedFrom(c, s1, size, chunk)
  }

  /** What becomes of a block of length `cur` that is to grow to `size` bytes. If it is the last one and
      the arena has room, the footprint grows with it. If it has room together with the free chunks right
      behind it, it swallows them and gives back what it does not need. Otherwise it moves to where a new
      block of that length would go, and the request is refused only if nothing suffices for that. */
  ghost predicate Grown(c: Config, s: State, s': State, chunk: nat, cur: nat, size: nat, newPtr: int)
    requires 0 < c.header && 0 < c.align
  {
    var here, room := chunk + c.header, RunEnd(c.header, s, chunk + c.header + cur) - (chunk + c.header);
    if here + cur == s.usage && s.usage + size - cur <= c.arena then
      && newPtr == here && Inv(c, s') && chunk in Blocks(c, s') && |Blocks(c, s')[chunk]| == size
      && s'.usage == s.usage + size - cur
    else if size <= room then
      && newPtr == here && Inv(c, s') && chunk in Blocks(c, s') && |Blocks(c, s')[chunk]| == Trimmed(c, size, room)
    else
      && ServedAnew(c, s, size, if newPtr == NIL then NIL else newPtr - c.header)
      && (Suffices(c, s, size) ==> newPtr != NIL && s'.usage <= s.usage)
      && (newPtr == NIL ==> s'.usage == s.usage && c.arena < s.usage + c.header + size && !Suffices(c, s', size))
  }

  /** A live chunk has swallowed what lies behind it and is still too small. */
  lemma InVain(c: Config, s: State, s': State, chunk: nat, size: nat)
    requires Inv(c, s) && Inv(c, s') && Merged(s, s', chunk) && chunk in s.starts && chunk in s'.starts && Keeps(s.free, s'.free)
    requires chunk in s'.hdr && s'.hdr[chunk].size < size
    ensures Gathered(s, s') && (Suffices(c, s, size) ==> Suffices(c, s', size))
  {
    hide Inv, Merged, Gathered, Keeps, Suffices;
    NothingGathered(c, s);
    GatheredMore(c, s, s, s', chunk);
    SufficesStill(c, s, s', chunk, 0, size);
  }

  datatype Stats = Stats(inUse: nat, overhead: nat, available: nat, footprint: nat, chunks: nat)

  /** Total length of the blocks of chunks below n. */
  ghost function LiveBytes(b: map<nat, seq<Byte>>, n: nat): nat {
    if n == 0 then 0 else LiveBytes(b, n - 1) + if n - 1 in b then |b[n - 1]| else 0
  }

  /** Number of chunks that begin below n. */
  ghost function Count(starts: set<nat>, n: nat): nat {
    if n == 0 then 0 else Count(starts, n - 1) + if n - 1 in starts then 1 else 0
  }

  lemma {:induction false} CountFrame(x: set<nat>, y: set<nat>, n: nat)
    requires forall o :: 0 <= o < n ==> (o in x <==> o in y)
    ensures Count(x, n) == Count(y, n)
  {
    if n > 0 {
      CountFrame(x, y, n - 1);
    }
  }

  lemma {:induction false} EmptyGap(b: map<nat, seq<Byte>>, starts: set<nat>, lo: nat, hi: nat)
    requires lo <= hi && (forall o :: o in b ==> o in starts) && (forall o :: lo <= o < hi ==> o !in starts)
    ensures LiveBytes(b, hi) == LiveBytes(b, lo) && Count(starts, hi) == Count(starts, lo)
    decreases hi
  {
    if lo < hi {
      EmptyGap(b, starts, lo, hi - 1);
      assert hi - 1 !in starts;
    }
  }

  /** Passing over one chunk adds its size, if it is live, and one to the count. */
  lemma ChunkStep(c: Config, s: State, o: nat)
    requires Inv(c, s) && o in s.starts
    ensures LiveBytes(Blocks(c, s), End(c.header, s.hdr, o)) ==
            LiveBytes(Blocks(c, s), o) + if Live(s, o) then s.hdr[o].size else 0
    ensures Count(s.starts, End(c.header, s.hdr, o)) == Count(s.starts, o) + 1
  {
    hide Inv, Blocks;
    BlockAt(c, s, o);
    ChunkInterior(c, s, o);
    EmptyGap(Blocks(c, s), s.starts, o + 1, End(c.header, s.hdr, o));
  }

  lemma ChunkInterior(c: Config, s: State, o: nat)
    requires Inv(c, s) && o in s.starts
    ensures o in s.hdr && o < End(c.header, s.hdr, o)
    ensures forall p :: o < p < End(c.header, s.hdr, o) ==> p !in s.starts
    ensures forall p :: p in Blocks(c, s) ==> p in s.starts
  {
    hide Linked;
    assert o < End(c.header, s.hdr, o);
  }

  lemma TimesDiv(k: nat, a: nat)
    requires 0 < a
    ensures Times(k, a) / a == k
  {
    var q, r := Times(k, a) / a, Times(k, a) % a;
    assert k * a == q * a + r;
    assert (k - q) * a == r;
    if k - q >= 1 {
      MulMonotone(a, 1, k - q);
    } else if q - k >= 1 {
      MulMonotone(a, 1, q - k);
    }
  }

  lemma TimesStep(k: nat, a: nat)
    ensures Times(k + 1, a) == Times(k, a) + a
  {
  }

  /** Coalescing at `chunk` does not reopen what was settled before it. */
  lemma MergeKeepsMaximal(c: Config, s: State, s': State, chunk: nat, o: nat)
    requires Inv(c, s) && Inv(c, s') && Merged(s, s', chunk) && chunk in s.starts
    requires o in s'.starts && o != chunk && Maximal(c.header, s, o)
    ensures Maximal(c.header, s', o)
  {
    hide Linked;
    assert End(c.header, s'.hdr, o) == End(c.header, s.hdr, o);
  }

  ghost predicate Settled(c: Config, s: State, n: nat)
    requires Inv(c, s)
  {
    forall o :: o in s.starts && o < n && !s.hdr[o].inUse ==> Maximal(c.header, s, o)
  }

  lemma FirstChunk(c: Config, s: State)
    requires Inv(c, s)
    ensures 0 < s.usage ==> 0 in s.starts
    ensures Settled(c, s, 0) && Times(Count(s.starts, 0), c.header) == 0
  {
    hide Linked;
  }

  lemma ChunkHeader(c: Config, s: State, o: nat)
    requires Inv(c, s) && o in s.starts
    ensures o in s.hdr
    ensures End(c.header, s.hdr, o) == s.usage || (End(c.header, s.hdr, o) < s.usage && End(c.header, s.hdr, o) in s.starts)
  {
    hide Linked;
  }

  lemma SettledAfter(c: Config, s: State, s': State, chunk: nat)
    requires Inv(c, s) && Inv(c, s') && Merged(s, s', chunk) && chunk in s.starts && Settled(c, s, chunk)
    requires chunk in s'.starts && Maximal(c.header, s', chunk)
    ensures Settled(c, s', chunk) && Count(s'.starts, chunk) == Count(s.starts, chunk)
  {
    hide Linked, Tiles;
    forall o | o in s'.starts && o < chunk && !s'.hdr[o].inUse
      ensures Maximal(c.header, s', o)
    {
      MergeKeepsMaximal(c, s, s', chunk, o);
    }
    CountFrame(s.starts, s'.starts, chunk);
  }

  lemma SettleOne(c: Config, s: State, chunk: nat)
    requires Inv(c, s) && chunk in s.starts && Settled(c, s, chunk)
    requires s.hdr[chunk].inUse || Maximal(c.header, s, chunk)
    ensures Settled(c, s, End(c.header, s.hdr, chunk))
  {
    hide Linked;
    forall o | o in s.starts && o < End(c.header, s.hdr, chunk)
      ensures o <= chunk
    {
    }
  }

  /** One more byte of `src` copied over the front of `dst`. */
  lemma CopyOneMore(src: seq<Byte>, dst: seq<Byte>, j: nat)
    requires j < |src| && j < |dst|
    ensures (src[..j] + dst[j..])[j := src[j]] == src[..j + 1] + dst[j + 1..]
  {
  }

  class Heap {
    const cfg: Config
    const image: (Header, nat) -> Byte
    const data: array<Byte>
    var usage: nat
    var freeList: int
    var hdr: map<nat, Header>
    ghost var starts: set<nat>
    ghost var free: seq<nat>

    constructor (cfg: Config, image: (Header, nat) -> Byte)
      requires WellFormed(cfg)
      ensures Valid() && Mem() == map[] && this.cfg == cfg && fresh(data)
      ensures usage == 0 && free == [] && starts == {}
    {
      this.cfg, this.image := cfg, image;
      data := new Byte[cfg.arena];
      usage, freeList, hdr := 0, NIL, map[];
      starts, free := {}, [];
    }

    ghost function St(): State
      reads this, data
    {
      State(hdr, data[..], usage, freeList, starts, free)
    }

    ghost predicate Valid()
      reads this, data
    {
      Inv(cfg, St())
    }

    /** Writes a whole header; single-field updates in the source are writes of the
        old header with that field changed. */
    method SetHeader(o: nat, h: Header)
      requires o + cfg.header <= data.Length
      requires o in starts && forall k :: k in starts && k != o ==> k in hdr && Apart(cfg.header, k, o)
      modifies `hdr, data
      ensures forall k :: k in starts ==> k in hdr && hdr[k] == if k == o then h else old(hdr)[k]
      ensures OnlyHeadersWritten(cfg.header, starts, old(data[..]), data[..])
    {
      hdr := PutHeader(cfg.header, hdr, o, h);
      forall j | 0 <= j < cfg.header {
        data[o + j] := image(h, j);
      }
      assert forall i :: 0 <= i < data.Length && !UnderHeader(cfg.header, starts, i) ==> !(o <= i < o + cfg.header);
    }

    /** The header writes of taking a chunk off the free list. */
    method Unlink(chunk: nat)
      requires Spaced(cfg.header, hdr, starts)
      requires forall o :: o in starts ==> o + cfg.header <= data.Length
      requires chunk in starts
      requires hdr[chunk].prev == NIL || (0 <= hdr[chunk].prev && hdr[chunk].prev in starts)
      requires hdr[chunk].next == NIL || (0 <= hdr[chunk].next && hdr[chunk].next in starts)
      requires hdr[chunk].prev != chunk && hdr[chunk].next != chunk
      requires hdr[chunk].prev == NIL || hdr[chunk].prev != hdr[chunk].next
      requires chunk == freeList <==> hdr[chunk].prev == NIL
      modifies `hdr, `freeList, data
      ensures AllUnlinked(old(hdr), hdr, chunk, starts)
      ensures freeList == if old(freeList) == chunk then old(hdr)[chunk].next else old(freeList)
      ensures OnlyHeadersWritten(cfg.header, starts, old(data[..]), data[..])
    {
      SetHeader(chunk, hdr[chunk].(inUse := true));
      if chunk == freeList {
        freeList := hdr[chunk].next;
        if freeList != NIL {
          SetHeader(freeList, hdr[freeList].(prev := NIL));
        }
      } else {
        var prev := hdr[chunk].prev;
        SetHeader(prev, hdr[prev].(next := hdr[chunk].next));
      }
      if hdr[chunk].next != NIL {
        var next := hdr[chunk].next;
        SetHeader(next, hdr[next].(prev := hdr[chunk].prev));
      }
    }

    /** Marks a chunk as allocated and takes it off the free list. */
    method AllocateChunk(chunk: nat)
      requires ListInv(cfg, St()) && chunk in free
      modifies `hdr, `freeList, `free, data
      ensures ListInv(cfg, St()) && Took(old(St()), St(), chunk) && Keeps(old(free), free)
      ensures exists k :: 0 <= k < |old(free)| && old(free)[k] == chunk && free == RemoveAt(old(free), k)
      ensures OnlyHeadersWritten(cfg.header, starts, old(data[..]), data[..])
    {
      ghost var k :| 0 <= k < |free| && free[k] == chunk;
      ListNeighbours(hdr, free, freeList, k);
      Unlink(chunk);
      hide Keeps;
      RemoveAtKeeps(free, k);
      free := RemoveAt(free, k);
      UnlinkOutcome(cfg, old(St()), St(), k);
    }

    /** The header writes of putting a chunk on the free list. */
    method LinkFirst(chunk: nat)
      requires Spaced(cfg.header, hdr, starts)
      requires forall o :: o in starts ==> o + cfg.header <= data.Length
      requires chunk in starts && !hdr[chunk].inUse
      requires freeList == NIL || (0 <= freeList && freeList in starts && freeList != chunk)
      modifies `hdr, `freeList, data
      ensures forall o :: o in starts ==> o in hdr && hdr[o] == Linking(old(hdr), chunk, old(freeList), o)
      ensures freeList == chunk
      ensures OnlyHeadersWritten(cfg.header, starts, old(data[..]), data[..])
    {
      SetHeader(chunk, hdr[chunk].(prev := NIL));
      SetHeader(chunk, hdr[chunk].(next := freeList));
      if freeList != NIL {
        SetHeader(freeList, hdr[freeList].(prev := chunk));
      }
      freeList := chunk;
    }

    /** Marks a chunk as free and puts it on the free list, or back into the
        wilderness when it is the last one. */
    method FreeChunk(chunk: nat)
      requires ListInv(cfg, St()) && chunk in starts && chunk !in free
      requires End(cfg.header, hdr, chunk) <= usage
      modifies `hdr, `freeList, `free, `usage, `starts, data
      ensures ListInv(cfg, St())
      ensures if End(cfg.header, old(hdr), chunk) == old(usage)
              then Released(old(St()), St(), chunk)
              else Pushed(old(St()), St(), chunk)
      ensures OnlyHeadersWritten(cfg.header, old(starts), old(data[..]), data[..])
    {
      assert freeList != NIL ==> free[0] in free;
      SetHeader(chunk, hdr[chunk].(inUse := false));
      if chunk + cfg.header + hdr[chunk].size == usage {
        usage := usage - (cfg.header + hdr[chunk].size);
        starts := starts - {chunk};
      } else {
        LinkFirst(chunk);
        free := [chunk] + free;
        PushOutcome(cfg, old(St()), St(), chunk);
      }
    }


    ghost function Mem(): map<nat, seq<Byte>>
      requires Valid()
      reads this, data
    {
      Blocks(cfg, St())
    }

    /** One round of the coalescing loop. */
    method AbsorbNext(chunk: nat, next: nat)
      requires Valid() && chunk in starts && next == End(cfg.header, hdr, chunk) < usage && !hdr[next].inUse
      modifies `hdr, `freeList, `free, `starts, data
      ensures Valid() && Absorbed(cfg.header, old(St()), St(), chunk, next)
      ensures next in hdr && hdr[next].size == old(hdr)[next].size
      ensures Grew(old(Mem()), Mem(), chunk)
      ensures End(cfg.header, hdr, chunk) == End(cfg.header, old(hdr), next)
      ensures Keeps(old(free), free)
    {
      hide Linked, Blocks, Keeps;
      ghost var s0 := St();
      InvImpliesListInv(cfg, s0);
      var grown := hdr[chunk].size + cfg.header + hdr[next].size;
      SetHeader(chunk, hdr[chunk].(size := grown));
      ghost var s1 := St();
      hide Tiles;
      ResizeKeepsList(cfg, s0, s1, chunk, grown);
      AllocateChunk(next);
      ghost var s2 := St();
      starts := starts - {next};
      AbsorbInSteps(cfg, s0, s1, s2, St(), chunk, next);
      HeadersCompose(cfg.header, s0.starts, s0.starts, s0.starts, s0.data, s1.data, s2.data);
      AbsorbOutcome(cfg, s0, St(), chunk, next);
    }

    /** Merges a chunk with the free chunks that follow it. */
    method CoalesceChunks(chunk: nat)
      requires Valid() && chunk in starts
      modifies `hdr, `freeList, `free, `starts, data
      ensures Valid() && chunk in starts && Merged(old(St()), St(), chunk)
      ensures Maximal(cfg.header, St(), chunk)
      ensures End(cfg.header, hdr, chunk) == RunEnd(cfg.header, old(St()), End(cfg.header, old(hdr), chunk))
      ensures Grew(old(Mem()), Mem(), chunk)
      ensures Keeps(old(free), free)
    {
      hide Linked, Blocks, Precedes, RunEnd;
      var next := chunk + cfg.header + hdr[chunk].size;
      while next < usage && !hdr[next].inUse
        invariant Valid() && chunk in starts && next == End(cfg.header, hdr, chunk)
        invariant Merged(old(St()), St(), chunk)
        invariant RunEnd(cfg.header, old(St()), next) == RunEnd(cfg.header, old(St()), End(cfg.header, old(hdr), chunk))
        invariant Grew(old(Mem()), Mem(), chunk) && Keeps(old(free), free)
        decreases usage - next
      {
        RunStep(cfg, old(St()), St(), chunk, next);
        AbsorbNext(chunk, next);
        next := next + cfg.header + hdr[next].size;
      }
      RunStep(cfg, old(St()), St(), chunk, next);
    }

    /** Writes the header of what is going to be cut off. */
    method WriteRest(chunk: nat, rest: nat, h: Header)
      requires Valid() && chunk in starts
      requires chunk + cfg.header <= rest && rest + cfg.header < End(cfg.header, hdr, chunk)
      modifies `hdr, `starts, data
      ensures ListInv(cfg, St()) && Inserted(cfg.header, old(St()), St(), rest, h)
      ensures OnlyHeadersWritten(cfg.header, starts, old(data[..]), data[..])
    {
      InsertIsApart(cfg, St(), chunk, rest);
      starts := starts + {rest};
      SetHeader(rest, h);
      InsertKeepsList(cfg, old(St()), St(), chunk, rest, h);
    }

    /** Writes the header of what is kept. */
    method WriteKept(chunk: nat, offset: nat)
      requires ListInv(cfg, St()) && chunk in starts && chunk !in free
      modifies `hdr, data
      ensures ListInv(cfg, St()) && Rewritten(old(St()), St(), chunk, offset)
      ensures OnlyHeadersWritten(cfg.header, starts, old(data[..]), data[..])
    {
      SetHeader(chunk, hdr[chunk].(size := offset));
      SetHeader(chunk, hdr[chunk].(next := NIL, prev := NIL));
      RewriteKeepsList(cfg, old(St()), St(), chunk, offset);
    }

    /** Cuts a live chunk in two and frees the second part. */
    method Divide(chunk: nat, offset: nat)
      requires Valid() && chunk in starts && hdr[chunk].inUse && offset + cfg.header < hdr[chunk].size
      modifies `hdr, `freeList, `free, `usage, `starts, data
      ensures ListInv(cfg, St()) && Cut(cfg.header, old(St()), St(), chunk, offset)
      ensures OnlyHeadersWritten(cfg.header, old(starts) + {chunk + cfg.header + offset}, old(data[..]), data[..])
    {
      hide Linked;
      var rest := chunk + cfg.header + offset;
      var h := Header(NIL, NIL, hdr[chunk].size - cfg.header - offset, false);
      WriteRest(chunk, rest, h);
      ghost var s1 := St();
      FreeChunk(rest);
      ghost var s2 := St();
      WriteKept(chunk, offset);
      CutInSteps(cfg.header, old(St()), s1, s2, St(), chunk, offset, h);
      HeadersCompose(cfg.header, s1.starts, s1.starts, s1.starts, old(data[..]), s1.data, s2.data);
      HeadersCompose(cfg.header, s1.starts, s2.starts, s1.starts, old(data[..]), s2.data, data[..]);
    }

    /** Keeps the first `size` bytes of a live chunk, rounded up, and frees the rest
        when there is room for another header in it. */
    method SplitChunk(chunk: nat, size: nat)
      requires Valid() && chunk in Mem()
      modifies `hdr, `freeList, `free, `usage, `starts, data
      ensures Valid() && chunk in Mem() && usage <= old(usage)
      ensures size <= |old(Mem())[chunk]| ==>
        size <= |Mem()[chunk]| == Trimmed(cfg, size, |old(Mem())[chunk]|)
      ensures |old(Mem())[chunk]| < Align(cfg, size) ==> Mem() == old(Mem())
      ensures Listed(cfg, old(free), free, chunk, size)
      ensures Mem()[chunk] <= old(Mem())[chunk] && Mem() - {chunk} == old(Mem()) - {chunk}
    {
      hide Linked, ListInv, Cut, Align;
      BlockAt(cfg, St(), chunk);
      assert End(cfg.header, hdr, chunk) <= usage;
      var offset := Align(cfg, size);
      if size <= hdr[chunk].size {
        AlignExact(cfg, size);
      }
      if offset <= hdr[chunk].size {
        SmallMod(offset + cfg.header, cfg.sizeMax + 1);
      }
      if Wrap(cfg, offset + cfg.header) < hdr[chunk].size {
        if hdr[chunk].size < offset {
          // The sum has wrapped around. The source now forms a pointer outside the arena,
          // which is undefined in C; what follows is not part of this model.
          return;
        }
        Divide(chunk, offset);
        CutOutcome(cfg, old(St()), St(), chunk, offset);
      }
    }

    /** Scans the free list and coalesces what it meets, within the search bound. As many
        entries as that bound are swallowed or come to stand, settled, at the front; a list
        within it comes out with no two free chunks next to each other. */
    method DefragChunks()
      requires Valid()
      modifies `hdr, `freeList, `free, `starts, data
      ensures Valid() && Mem() == old(Mem())
      ensures old(free) == [] ==> St() == old(St())
      ensures old(free) != [] ==> free != []
      ensures |old(free)| <= cfg.searchMax ==> Settled(cfg, St(), usage)
      ensures Defragmented(cfg, old(St()), St())
    {
      hide Tiles, Blocks, Linked, Maximal, Keeps, Merged, Grew, Settled, Precedes, After, Gathered, SufficesToo;
      ghost var ahead := |free|;
      ghost var p: nat := 0;
      var i := cfg.searchMax;
      var chunk := freeList;
      ListFront(cfg, St());
      ListEntry(cfg, St(), 0);
      NothingGathered(cfg, St());
      while chunk != NIL
        invariant Valid() && Mem() == old(Mem()) && 0 <= i <= cfg.searchMax
        invariant old(free) == [] ==> chunk == NIL && St() == old(St())
        invariant old(free) != [] ==> free != []
        invariant chunk != NIL ==> 0 <= chunk && chunk in free
        invariant DoneUpTo(cfg, St(), chunk)
        invariant chunk != NIL ==> |After(free, chunk)| < ahead - (cfg.searchMax - i)
        invariant chunk != NIL ==> p < |free| && free[p] == chunk && p <= cfg.searchMax - i
        invariant Gathered(old(St()), St()) && SufficesToo(cfg, old(St()), St())
        decreases i
      {
        if i == 0 {
          break;
        }
        i := i - 1;
        BlockAt(cfg, St(), chunk);
        ghost var s, before := St(), Mem();
        CoalesceChunks(chunk);
        GrewNothing(before, Mem(), chunk);
        ListStep(cfg, s, St(), chunk);
        p := ListIndex(cfg, s, St(), chunk, p);
        GatheredMore(cfg, old(St()), s, St(), chunk);
        SufficesAfter(cfg, old(St()), s, St(), chunk, p);
        ListEntry(cfg, St(), p);
        p := p + 1;
        chunk := hdr[chunk].next;
      }
      FrontSettled(cfg, St(), chunk, ahead - cfg.searchMax);
      if chunk == NIL {
        AllDone(cfg, St());
      }
    }

    /** Best-fit search over the first entries of the free list. */
    method SearchBest(size: nat) returns (best: int, ghost b: nat)
      requires Valid()
      ensures best != NIL <==> Suffices(cfg, St(), size)
      ensures best != NIL ==> 0 <= best && BestEntry(cfg, St(), size, b) && best == free[b]
    {
      hide Inv, Next;
      best, b := NIL, 0;
      var i := cfg.searchMax;
      var chunk := freeList;
      ghost var n := 0;
      ListEntry(cfg, St(), 0);
      while chunk != NIL
        invariant n <= |free| && i == cfg.searchMax - n && chunk == if n < |free| then free[n] else NIL
        invariant best == NIL ==> forall j :: 0 <= j < n ==> hdr[free[j]].size < size
        invariant best != NIL ==> 0 <= best && b < n && best == free[b] && BestFit(hdr, free, n, size, b)
        decreases i
      {
        if i == 0 {
          break;
        }
        i := i - 1;
        if size <= hdr[chunk].size {
          if best == NIL || hdr[chunk].size < hdr[best].size {
            best, b := chunk, n;
          }
          if hdr[best].size == size {
            break;
          }
        }
        ListEntry(cfg, St(), n);
        ListEntry(cfg, St(), n + 1);
        chunk := hdr[chunk].next;
        n := n + 1;
      }
      SearchIsComplete(cfg, St(), size, best, b);
    }

    /** Takes the best-fitting free chunk, if the bounded search finds one: entry `b` of the list that
        defragmentation leaves, in the heap `mid`. */
    method GetFreeChunk(size: nat) returns (best: int, ghost mid: State, ghost b: nat)
      requires Valid()
      modifies `hdr, `freeList, `free, `usage, `starts, data
      ensures Valid() && Defragmented(cfg, old(St()), mid)
      ensures best == NIL <==> !Suffices(cfg, mid, size)
      ensures best == NIL ==> St() == mid
      ensures best != NIL ==> BestEntry(cfg, mid, size, b) && best == mid.free[b] && usage <= mid.usage
      ensures best != NIL ==> Allocated(old(Mem()), Mem(), best, size)
      ensures best != NIL ==> Listed(cfg, RemoveAt(mid.free, b), free, best, size)
      ensures best != NIL ==> |Mem()[best]| == Trimmed(cfg, size, mid.hdr[best].size) <= Align(cfg, size) + cfg.header
      ensures best == NIL ==> Mem() == old(Mem()) && usage == old(usage)
      ensures old(free) == [] ==> best == NIL && St() == old(St())
      ensures if old(free) == [] || cfg.searchMax == 0 then best == NIL else size == 0 ==> best != NIL
    {
      hide Align, Tiles, Linked, Blocks, BestFit, Suffices, Gathered, SettledFront, SufficesToo, Listed;
      DefragChunks();
      mid := St();
      best, b := SearchBest(size);
      FirstSuffices(cfg, mid);
      if best != NIL {
        EntryIsFree(cfg, mid, size, b);
        ListIsDistinct(cfg, mid);
        TakeChunk(best, size);
      }
    }

    /** Takes a free chunk off the list and cuts it to size. */
    method TakeChunk(best: nat, size: nat)
      requires Valid() && best in free && best in hdr && size <= hdr[best].size
      modifies `hdr, `freeList, `free, `usage, `starts, data
      ensures Valid() && Allocated(old(Mem()), Mem(), best, size) && usage <= old(usage)
      ensures |Mem()[best]| == Trimmed(cfg, size, old(hdr)[best].size) <= Align(cfg, size) + cfg.header
      ensures exists k :: 0 <= k < |old(free)| && old(free)[k] == best && Listed(cfg, RemoveAt(old(free), k), free, best, size)
    {
      hide Align, Listed;
      hide Tiles, Blocks, Linked;
      ghost var s1 := St();
      InvImpliesListInv(cfg, s1);
      AllocateChunk(best);
      TookOutcome(cfg, s1, St(), best);
      BlockAt(cfg, St(), best);
      SplitChunk(best, size);
      assert Mem() - {best} == old(Mem());
    }

    /** Grows the footprint, if the arena has room for the sum as computed. */
    method ExtendSpace(size: nat) returns (oldUsage: int)
      modifies `usage
      ensures var end := Wrap(cfg, old(usage) + size);
        if end <= cfg.arena then oldUsage == old(usage) && usage == end
        else oldUsage == NIL && usage == old(usage)
      ensures old(usage) + size <= cfg.sizeMax ==>
        if old(usage) + size <= cfg.arena then oldUsage == old(usage) && usage == old(usage) + size
        else oldUsage == NIL && usage == old(usage)
    {
      if usage + size <= cfg.sizeMax {
        SmallMod(usage + size, cfg.sizeMax + 1);
      }
      if Wrap(cfg, usage + size) > cfg.arena {
        return NIL;
      }
      oldUsage := usage;
      usage := Wrap(cfg, usage + size);
    }

    /** A client stores one byte in a block it owns. */
    method Write(chunk: nat, i: nat, b: Byte)
      requires Valid() && chunk in Mem() && i < |Mem()[chunk]|
      modifies `hdr, data
      ensures Valid() && Mem() == old(Mem())[chunk := old(Mem())[chunk][i := b]]
    {
      hide Linked, Tiles;
      BlockAt(cfg, St(), chunk);
      PokeHitsNoHeader(cfg, St(), chunk, i);
      hide Blocks;
      hdr := Clobber(cfg.header, hdr, chunk + cfg.header + i);
      data[chunk + cfg.header + i] := b;
      PokeOutcome(cfg, old(St()), St(), chunk, i, b);
    }

    /** heapmem_alloc, for every request that size_t can express; the pointer handed out is the
        end of the chunk's header. The chunk is chosen in the heap `mid` that defragmentation leaves. */
    method Alloc(request: nat) returns (ptr: int, ghost mid: State, ghost b: nat)
      requires Valid() && Machine(cfg) && request <= cfg.sizeMax
      modifies `hdr, `freeList, `free, `usage, `starts, data
      ensures Answered(cfg, old(Mem()), St(), ptr, request) <==> AllocOk(cfg, old(usage), old(free), request)
      ensures Defragmented(cfg, old(St()), mid)
      ensures Chosen(cfg, mid, Align(cfg, request), b, if ptr == NIL then NIL else ptr - cfg.header)
      ensures Suffices(cfg, old(St()), Align(cfg, request)) ==> ptr != NIL && usage <= old(usage)
      ensures if Suffices(cfg, mid, Align(cfg, request))
        then Listed(cfg, RemoveAt(mid.free, b), free, mid.free[b], Align(cfg, request)) else free == mid.free
      ensures ptr == NIL ==> St() == mid && !Suffices(cfg, St(), Align(cfg, request))
      ensures ptr == NIL ==> usage == old(usage) && cfg.arena < usage + cfg.header + Align(cfg, request)
      ensures AllocOk(cfg, old(usage), old(free), request) && ptr == NIL ==>
        cfg.arena < usage + cfg.header + request + cfg.align
      ensures AllocOk(cfg, old(usage), old(free), request) && ptr != NIL ==>
        |Mem()[ptr - cfg.header]| <= Align(cfg, request) + cfg.header
      ensures !AllocOk(cfg, old(usage), old(free), request) ==> ptr != NIL && cfg.arena < request
      ensures !AllocOk(cfg, old(usage), old(free), request) && cfg.sizeMax < request + cfg.align - 1 ==>
        Valid() && cfg.header <= ptr && ptr - cfg.header in Mem() && |Mem()[ptr - cfg.header]| <= cfg.header
      ensures !AllocOk(cfg, old(usage), old(free), request) && request + cfg.align - 1 <= cfg.sizeMax ==>
        ptr == old(usage) + cfg.header && usage == Wrap(cfg, old(usage) + cfg.header + Align(cfg, request))
      ensures old(free) == [] && Align(cfg, request) <= cfg.arena ==>
        Extension(old(St()), St(), cfg.header, Align(cfg, request), cfg.arena, ptr)
    {
      hide Linked, Tiles, Blocks, Align, Machine, Extension, Suffices, SettledFront, BestFit, Gathered, Listed;
      var size := Align(cfg, request);
      ghost var was := Mem();
      AlignedFits(cfg, request);
      if request + cfg.align - 1 <= cfg.sizeMax {
        AlignExact(cfg, request);
      } else {
        AlignWrapsToZero(cfg, request);
      }
      ghost var ok := AllocOk(cfg, usage, free, request);
      if !ok {
        AllocFailsBeyondArena(cfg, usage, free, request);
      }
      var chunk;
      chunk, mid, b := GetFreeChunk(size);
      UsageKept(cfg, old(St()), mid);
      if chunk == NIL {
        chunk := NewChunk(size);
        if chunk == NIL {
          return NIL, mid, b;
        }
      } else {
        LiveBlockInArena(cfg, St(), chunk);
      }
      ptr := chunk + cfg.header;
      if !ok {
        BeyondArenaUnsound(cfg, was, St(), 0, ptr, request);
      }
    }

    /** The header writes for a new chunk behind all others. */
    method WriteNew(chunk: nat, size: nat)
      requires chunk + cfg.header <= data.Length && Spaced(cfg.header, hdr, starts)
      requires forall o :: o in starts ==> o + cfg.header <= chunk && 0 < cfg.header
      modifies `hdr, `starts, data
      ensures starts == old(starts) + {chunk} && chunk in hdr && hdr[chunk].size == size && hdr[chunk].inUse
      ensures forall o :: o in old(starts) ==> o in old(hdr) && o in hdr && hdr[o] == old(hdr)[o]
      ensures OnlyHeadersWritten(cfg.header, starts, old(data[..]), data[..])
    {
      starts := starts + {chunk};
      SetHeader(chunk, Header(NIL, NIL, size, false));
      SetHeader(chunk, hdr[chunk].(inUse := true));
    }

    /** Extends the heap by one live chunk of the given size. */
    method NewChunk(size: nat) returns (chunk: int)
      requires Valid() && size <= cfg.sizeMax
      modifies `hdr, `usage, `starts, data
      ensures ExtendOk(cfg, old(usage), size) ==> Valid()
      ensures ExtendOk(cfg, old(usage), size) ==>
        if old(usage) + cfg.header + size <= cfg.arena
        then 0 <= chunk && Allocated(old(Mem()), Mem(), chunk, size) && |Mem()[chunk]| == size
        else chunk == NIL && Mem() == old(Mem()) && usage == old(usage)
      ensures !ExtendOk(cfg, old(usage), size) ==>
        chunk == old(usage) && usage == Wrap(cfg, old(usage) + cfg.header + size)
      ensures chunk == NIL ==> St() == old(St()) && cfg.arena < usage + cfg.header + size
      ensures chunk == NIL || chunk == old(usage)
      ensures size <= cfg.arena ==>
        Extension(old(St()), St(), cfg.header, size, cfg.arena, if chunk == NIL then NIL else chunk + cfg.header)
    {
      hide Linked, Blocks, Wrap;
      ghost var s := St();
      InvImpliesListInv(cfg, s);
      UsageIsNoStart(cfg, s);
      WrapTwice(cfg, usage, cfg.header + size);
      if usage + cfg.header + size <= cfg.sizeMax {
        ExtendFits(cfg, usage, size);
      }
      chunk := ExtendSpace(Wrap(cfg, cfg.header + size));
      if chunk == NIL {
        return;
      }
      if data.Length < chunk + cfg.header {
        // The sum has wrapped around. The header lies outside the arena, which is not part
        // of this model.
        return;
      }
      WriteNew(chunk, size);
      hide Tiles, ListInv, Extension;
      if s.usage + cfg.header + size <= cfg.sizeMax {
        ExtendOutcome(cfg, s, St(), size);
        ExtensionIs(cfg, s, St(), size);
      }
    }

    /** heapmem_free */
    method Free(ptr: int)
      requires Valid() && (ptr == NIL || (cfg.header <= ptr && ptr - cfg.header in Mem()))
      modifies `hdr, `freeList, `free, `usage, `starts, data
      ensures Valid()
      ensures Mem() == if ptr == NIL then old(Mem()) else old(Mem()) - {ptr - cfg.header}
      ensures ptr != NIL ==> NothingMerged(old(St()), St(), cfg.header, ptr - cfg.header)
      ensures usage <= old(usage)
    {
      if ptr != NIL {
        var chunk: nat := ptr - cfg.header;
        ghost var s := St();
        BlockAt(cfg, s, chunk);
        InvImpliesListInv(cfg, s);
        assert End(cfg.header, hdr, chunk) <= usage;
        hide *;
        FreeChunk(chunk);
        ReleasedIsLess(s, St(), cfg.header, chunk);
        NoMerge(s, St(), cfg.header, chunk);
        FreeOutcome(cfg, s, St(), chunk);
      }
    }

    /** A client, or memcpy, loads one byte of a block. */
    method Read(chunk: nat, i: nat) returns (b: Byte)
      requires Valid() && chunk in Mem() && i < |Mem()[chunk]|
      ensures b == Mem()[chunk][i]
    {
      hide Linked, Tiles, Blocks;
      BlockAt(cfg, St(), chunk);
      b := data[chunk + cfg.header + i];
    }

    /** memcpy from the start of one block to the start of another. */
    method CopyPayload(dst: nat, src: nat, n: nat)
      requires Valid() && dst in Mem() && src in Mem() && dst != src && n <= |Mem()[src]| && n <= |Mem()[dst]|
      modifies `hdr, data
      ensures Valid() && Mem() == old(Mem())[dst := old(Mem())[src][..n] + old(Mem())[dst][n..]]
    {
      hide Inv, Blocks;
      ghost var b := Mem();
      var j := 0;
      assert b[src][..0] + b[dst][0..] == b[dst];
      while j < n
        invariant 0 <= j <= n && Valid() && Mem() == b[dst := b[src][..j] + b[dst][j..]]
      {
        var x := Read(src, j);
        Write(dst, j, x);
        CopyOneMore(b[src], b[dst], j);
        j := j + 1;
      }
    }

    /** The part of heapmem_realloc that grows a block where it stands, by `adj` bytes as far as
        the source knows: at the end of the heap by extending the footprint, elsewhere by
        swallowing the free chunks after it. */
    method GrowInPlace(chunk: nat, size: nat, adj: nat) returns (ok: bool)
      requires Valid() && chunk in Mem() && 0 < adj <= cfg.intMax && usage + adj <= cfg.sizeMax
      modifies `hdr, `freeList, `free, `usage, `starts, data
      ensures var last := chunk + cfg.header + |old(Mem())[chunk]| == old(usage);
        && (last ==> (ok <==> old(usage) + adj <= cfg.arena))
        && (last && ok ==> starts == old(starts) && usage == old(usage) + adj && chunk in hdr && hdr[chunk].size == size)
        && (last && !ok ==> Valid() && Mem() == old(Mem()) && usage == old(usage))
        && (last && ok && adj == size - |old(Mem())[chunk]| ==>
              Valid() && Reallocated(old(Mem()), Mem(), chunk, chunk, size) && |Mem()[chunk]| == size)
        && (!last ==> Valid() && chunk in Mem())
        && (!last && ok ==> Reallocated(old(Mem()), Mem(), chunk, chunk, size))
        && (!last && !ok ==> Grew(old(Mem()), Mem(), chunk) && |Mem()[chunk]| < size && usage == old(usage))
        && (!last && size <= |old(Mem())[chunk]| ==> ok)
      ensures !ok ==> Gathered(old(St()), St()) && (Suffices(cfg, old(St()), size) ==> Suffices(cfg, St(), size))
      ensures var room := RunEnd(cfg.header, old(St()), chunk + cfg.header + |old(Mem())[chunk]|) - (chunk + cfg.header);
        if chunk + cfg.header + |old(Mem())[chunk]| == old(usage) then room == |old(Mem())[chunk]|
        else (ok <==> size <= room) && (ok ==> |Mem()[chunk]| == Trimmed(cfg, size, room))
    {
      hide Linked, Blocks, Gathered, Suffices, Trimmed;
      NothingGathered(cfg, St());
      BlockAt(cfg, St(), chunk);
      if chunk + cfg.header + hdr[chunk].size == usage {
        ok := StretchLast(chunk, size, adj);
      } else {
        ok := Swallow(chunk, size);
      }
    }

    /** Grows a chunk into the free ones behind it. */
    method Swallow(chunk: nat, size: nat) returns (ok: bool)
      requires Valid() && chunk in Mem()
      modifies `hdr, `freeList, `free, `usage, `starts, data
      ensures Valid() && chunk in Mem()
      ensures ok ==> Reallocated(old(Mem()), Mem(), chunk, chunk, size)
      ensures !ok ==> Grew(old(Mem()), Mem(), chunk) && |Mem()[chunk]| < size && usage == old(usage)
      ensures size <= |old(Mem())[chunk]| ==> ok
      ensures var room := RunEnd(cfg.header, old(St()), chunk + cfg.header + |old(Mem())[chunk]|) - (chunk + cfg.header);
        && (ok <==> size <= room) && (ok ==> |Mem()[chunk]| == Trimmed(cfg, size, room))
      ensures !ok ==> Gathered(old(St()), St()) && (Suffices(cfg, old(St()), size) ==> Suffices(cfg, St(), size))
    {
      hide Linked, Blocks, RunEnd, Gathered, Suffices, Trimmed, Keeps;
      ghost var s := St();
      BlockAt(cfg, St(), chunk);
      CoalesceChunks(chunk);
      hide Tiles;
      BlockAt(cfg, St(), chunk);
      ok := hdr[chunk].size >= size;
      if !ok {
        InVain(cfg, s, St(), chunk, size);
      }
      if ok {
        ghost var b := Mem();
        LiveBlockInArena(cfg, St(), chunk);
        SplitChunk(chunk, size);
        assert forall i :: 0 <= i < |old(Mem())[chunk]| && i < |Mem()[chunk]| ==> Mem()[chunk][i] == b[chunk][i];
      }
    }

    /** Grows the last chunk by extending the footprint. */
    method StretchLast(chunk: nat, size: nat, adj: nat) returns (ok: bool)
      requires Valid() && chunk in Mem() && End(cfg.header, hdr, chunk) == usage
      requires 0 < adj && usage + adj <= cfg.sizeMax
      modifies `hdr, `usage, data
      ensures ok <==> old(usage) + adj <= cfg.arena
      ensures !ok ==> Valid() && St() == old(St())
      ensures ok && adj == size - |old(Mem())[chunk]| ==>
        Valid() && chunk in Mem() && Reallocated(old(Mem()), Mem(), chunk, chunk, size) && |Mem()[chunk]| == size
      ensures ok ==> usage == old(usage) + adj && chunk in hdr && hdr[chunk].size == size
    {
      hide Linked, Blocks;
      ghost var s := St();
      BlockAt(cfg, s, chunk);
      InvImpliesListInv(cfg, s);
      var oldUsage := ExtendSpace(adj);
      ok := oldUsage != NIL;
      if ok {
        SetHeader(chunk, hdr[chunk].(size := size));
        hide Tiles;
        if adj == size - s.hdr[chunk].size {
          StretchOutcome(cfg, s, St(), chunk, size);
          BlockAt(cfg, St(), chunk);
        }
      }
    }

    /** heapmem_realloc, for every request that size_t can express. Of a shrink of the last block that
        is taken for a growth only the part is modelled in which nothing is copied. */
    method Realloc(ptr: int, request: nat) returns (newPtr: int)
      requires Valid() && (ptr == NIL || (cfg.header <= ptr && ptr - cfg.header in Mem()))
      requires Machine(cfg) && request <= cfg.sizeMax
      modifies `hdr, `freeList, `free, `usage, `starts, data
      ensures ptr == NIL ==>
        (Answered(cfg, old(Mem()), St(), newPtr, request) <==> AllocOk(cfg, old(usage), old(free), request))
      ensures ptr != NIL && request == 0 ==> Valid() && newPtr == NIL && Mem() == old(Mem()) - {ptr - cfg.header}
      ensures ptr != NIL && request != 0 ==>
        var cur := |old(Mem())[ptr - cfg.header]|;
        && Resolved(cfg, old(St()), old(Mem()), St(), ptr - cfg.header, cur, newPtr, request)
        && (Align(cfg, request) - cfg.intMax <= cur < Align(cfg, request) ==>
              Grown(cfg, old(St()), St(), ptr - cfg.header, cur, Align(cfg, request), newPtr))
      ensures ptr == NIL ==>
        var size := Align(cfg, request);
        && ServedFrom(cfg, old(St()), size, if newPtr == NIL then NIL else newPtr - cfg.header)
        && (Suffices(cfg, old(St()), size) ==> newPtr != NIL && usage <= old(usage))
        && (newPtr == NIL ==> usage == old(usage) && cfg.arena < usage + cfg.header + size && !Suffices(cfg, St(), size))
    {
      hide Linked, Tiles, Blocks, Align, ToInt, Machine, AllocOk, Answered, Resolved, Grown, Suffices, Chosen, Defragmented;
      if ptr == NIL {
        ghost var mid, b;
        newPtr, mid, b := Alloc(request);
        return;
      } else if request == 0 {
        Free(ptr);
        return NIL;
      }
      newPtr := Resize(ptr - cfg.header, request);
    }

    /** heapmem_realloc for a block, from the comment on special cases on. */
    method Resize(chunk: nat, request: nat) returns (newPtr: int)
      requires Valid() && chunk in Mem() && 0 < request <= cfg.sizeMax && Machine(cfg)
      modifies `hdr, `freeList, `free, `usage, `starts, data
      ensures Resolved(cfg, old(St()), old(Mem()), St(), chunk, |old(Mem())[chunk]|, newPtr, request)
      ensures Align(cfg, request) - cfg.intMax <= |old(Mem())[chunk]| < Align(cfg, request) ==>
        Grown(cfg, old(St()), St(), chunk, |old(Mem())[chunk]|, Align(cfg, request), newPtr)
    {
      hide Linked, Tiles, Blocks, Align, ToInt, Machine, Wrap, Inv, Reallocated, Grew, Resolved, Grown, Enlarged;
      ghost var b, s := Mem(), St();
      BlockOf(s, chunk);
      var size := Align(cfg, request);
      DifferenceAsInt(cfg, size - hdr[chunk].size);
      SizesOf(cfg, usage, hdr[chunk].size, request);
      var adj := ToInt(cfg, Wrap(cfg, size - hdr[chunk].size));
      if adj <= 0 {
        SplitChunk(chunk, size);
        newPtr := chunk + cfg.header;
        KeptVerdict(cfg, s, b, St(), chunk, |b[chunk]|, request);
      } else {
        SumFits(cfg, usage, adj);
        newPtr := Enlarge(chunk, size, adj);
        EnlargedVerdict(cfg, s, b, St(), chunk, |b[chunk]|, newPtr, request);
      }
    }

    ghost method BlockOf(s: State, chunk: nat)
      requires Inv(cfg, s) && chunk in Blocks(cfg, s)
      ensures chunk in s.starts && chunk in s.hdr && s.hdr[chunk].size == |Blocks(cfg, s)[chunk]| <= cfg.arena
      ensures s.usage <= cfg.arena && WellFormed(cfg)
    {
      BlockAt(cfg, s, chunk);
      LiveBlockInArena(cfg, s, chunk);
    }

    /** The part of heapmem_realloc for what it takes for a growth. */
    method Enlarge(chunk: nat, size: nat, adj: nat) returns (newPtr: int)
      requires Valid() && chunk in Mem() && 0 < adj <= cfg.intMax && usage + adj <= cfg.sizeMax && Machine(cfg)
      requires size + cfg.align - 1 <= cfg.sizeMax && Align(cfg, size) == size
      modifies `hdr, `freeList, `free, `usage, `starts, data
      ensures Enlarged(cfg, old(St()), old(Mem()), St(), chunk, |old(Mem())[chunk]|, size, adj, newPtr)
      ensures |old(Mem())[chunk]| < size && adj == size - |old(Mem())[chunk]| ==>
        Grown(cfg, old(St()), St(), chunk, |old(Mem())[chunk]|, size, newPtr)
    {
      hide Linked, Tiles, Blocks, Align, ToInt, Machine, Wrap, Inv, ExtendOk, Suffices, Gathered, ServedFrom, RunEnd, Trimmed;
      ghost var s, b, cur := St(), Mem(), |Mem()[chunk]|;
      BlockOf(St(), chunk);
      var grown := GrowInPlace(chunk, size, adj);
      if grown {
        newPtr := chunk + cfg.header;
        if chunk + cfg.header + |b[chunk]| != old(usage) {
          BlockOf(St(), chunk);
          FitsExtend(cfg, old(usage), size);
        }
      } else {
        ghost var s1, b1 := St(), Mem();
        newPtr := Move(chunk, size);
        assert ServedFrom(cfg, s1, size, if newPtr == NIL then NIL else newPtr - cfg.header);
        if cur <= size && ExtendOk(cfg, old(usage), size) {
          GrewThen(b, b1, Mem(), chunk, newPtr - cfg.header, size);
        }
      }
    }

    /** The part of heapmem_realloc that moves a block elsewhere. */
    method Move(chunk: nat, size: nat) returns (newPtr: int)
      requires Valid() && chunk in Mem() && size <= cfg.sizeMax && Machine(cfg)
      requires size + cfg.align - 1 <= cfg.sizeMax && Align(cfg, size) == size
      modifies `hdr, `freeList, `free, `usage, `starts, data
      ensures ExtendOk(cfg, old(usage), size) && newPtr == NIL ==> Valid() && Mem() == old(Mem())
      ensures ExtendOk(cfg, old(usage), size) && newPtr != NIL && |old(Mem())[chunk]| <= size ==>
        Valid() && cfg.header <= newPtr && Reallocated(old(Mem()), Mem(), chunk, newPtr - cfg.header, size)
      ensures ExtendOk(cfg, old(usage), size) && cfg.arena < size ==> newPtr == NIL
      ensures !ExtendOk(cfg, old(usage), size) ==>
        newPtr == old(usage) + cfg.header && usage == Wrap(cfg, old(usage) + cfg.header + size)
      ensures ServedFrom(cfg, old(St()), size, if newPtr == NIL then NIL else newPtr - cfg.header)
      ensures Suffices(cfg, old(St()), size) ==> newPtr != NIL && usage <= old(usage)
      ensures newPtr == NIL ==> usage == old(usage) && cfg.arena < usage + cfg.header + size && !Suffices(cfg, St(), size)
    {
      hide Linked, Tiles, Blocks, Align, Machine, ExtendOk, Wrap, Suffices, Chosen, Defragmented;
      ghost var b := Mem();
      ghost var mid, k;
      newPtr, mid, k := Alloc(size);
      if newPtr == NIL {
        return;
      }
      BeyondArenaUnsound(cfg, b, St(), chunk, newPtr, if cfg.arena < size then size else cfg.arena + 1);
      if cfg.arena < size {
        // The sum has wrapped around. The copy goes to memory beyond the footprint and is not
        // part of this model.
        return;
      }
      var dst: nat := newPtr - cfg.header;
      assert Mem()[chunk] == b[chunk];
      BlockAt(cfg, St(), chunk);
      if size < hdr[chunk].size {
        // A shrink that was taken for a growth. The copy may go beyond the new block and is not
        // part of this model.
        return;
      }
      CopyPayload(dst, chunk, hdr[chunk].size);
      Free(chunk + cfg.header);
      assert Mem() - {dst} == b - {chunk};
    }

    /** Every free chunk that begins before n is followed by a live one or by nothing. */
    ghost predicate SettledBelow(n: nat)
      requires Valid()
      reads this, data
    {
      Settled(cfg, St(), n)
    }

    /** Coalesces a free chunk behind which everything is settled. */
    method Settle(chunk: nat)
      requires Valid() && chunk in starts && !hdr[chunk].inUse && SettledBelow(chunk)
      modifies `hdr, `freeList, `free, `starts, data
      ensures Valid() && Mem() == old(Mem()) && SettledBelow(chunk)
      ensures chunk in starts && chunk in hdr && !hdr[chunk].inUse && Maximal(cfg.header, St(), chunk)
      ensures Count(starts, chunk) == Count(old(starts), chunk)
    {
      hide Linked, Tiles, Blocks, Maximal, Settled, Grew;
      ghost var s, b := St(), Mem();
      BlockAt(cfg, s, chunk);
      CoalesceChunks(chunk);
      GrewNothing(b, Mem(), chunk);
      SettledAfter(cfg, s, St(), chunk);
    }

    /** heapmem_stats; it coalesces as it goes. */
    method HeapStats() returns (stats: Stats)
      requires Valid()
      modifies `hdr, `freeList, `free, `starts, data
      ensures Valid() && Mem() == old(Mem()) && SettledBelow(usage)
      ensures stats.inUse + stats.available + stats.overhead == cfg.arena
      ensures stats.inUse == LiveBytes(Mem(), usage)
      ensures stats.chunks == Count(starts, usage) && stats.footprint == usage
      ensures stats.overhead == Times(stats.chunks, cfg.header)
    {
      hide Linked, Tiles, Blocks, Merged, Maximal, Settled, Grew, Times;
      var usedBytes: nat, available: nat, overhead: nat := 0, 0, 0;
      var chunk := 0;
      FirstChunk(cfg, St());
      while chunk < usage
        invariant Valid() && Mem() == old(Mem()) && SettledBelow(chunk)
        invariant chunk == usage || (chunk < usage && chunk in starts)
        invariant usedBytes == LiveBytes(Mem(), chunk)
        invariant overhead == Times(Count(starts, chunk), cfg.header)
        invariant usedBytes + available + overhead == chunk
        decreases usage - chunk
      {
        ChunkHeader(cfg, St(), chunk);
        if hdr[chunk].inUse {
          usedBytes := usedBytes + hdr[chunk].size;
        } else {
          Settle(chunk);
          available := available + hdr[chunk].size;
        }
        ChunkHeader(cfg, St(), chunk);
        ChunkStep(cfg, St(), chunk);
        TimesStep(Count(starts, chunk), cfg.header);
        overhead := overhead + cfg.header;
        SettleOne(cfg, St(), chunk);
        chunk := chunk + cfg.header + hdr[chunk].size;
      }
      TimesDiv(Count(starts, usage), cfg.header);
      stats := Stats(usedBytes, overhead, available + (cfg.arena - usage), usage, overhead / cfg.header);
    }
  }
}
