/** The allocator as a transition system.  A state is the allocator's own data
    together with what the rest of the program holds; the three steps are what
    mpopulate, a successful allocation and free_memblock do to it. */
module HeapState {
  import opened Arith
  import opened FreeList
  import opened Malloc

  /** Minimum block size and the distance from virtual to physical addresses. */
  datatype Config = Config(min: nat, phys: nat)

  ghost predicate ConfigOk(c: Config) {
    IsPow2(c.min) && 0 < c.min < HALF
  }

  datatype State = State(
    free: seq<Block>,
    freemem: nat,
    usedmem: nat,
    maxusedmem: nat,
    live: map<nat, nat>,        // allocations held: address to requested size
    cache: seq<(nat, nat)>,     // those the cache discarders can give up, in order
    pool: set<int>,             // bytes ever given to the allocator
    leaked: nat,                // bytes lost to pieces too small to keep
    edges: set<int>,            // edges of populated regions
    onGrid: bool)               // every request so far had its offset on the grid

  const NO_HEAP := State([], 0, 0, 0, map[], [], {}, 0, {}, true)

  ghost predicate CacheOk(cache: seq<(nat, nat)>, live: map<nat, nat>) {
    && (forall i :: 0 <= i < |cache| ==> cache[i].0 in live && live[cache[i].0] == cache[i].1)
    && (forall i, j :: 0 <= i < j < |cache| ==> cache[i].0 != cache[j].0)
  }

  /** The usage counters: used memory is the sum of the rounded live sizes, free
      memory is the free list plus the leaks, and together they are the pool. */
  ghost predicate Accounts(c: Config, s: State) {
    && SizesOk(c.min, s.live)
    && s.usedmem == SumLive(c.min, s.live)
    && s.freemem == Sum(s.free) + s.leaked
    && s.usedmem + s.freemem == |s.pool|
    && s.usedmem <= s.maxusedmem
  }

  ghost predicate GridOk(c: Config, s: State)
    requires c.min > 0
  {
    s.onGrid ==>
      && EdgeAligned(c.min, c.phys, s.edges, s.free)
      && forall p :: p in s.live ==> OnGrid(c.min, c.phys, p)
  }

  ghost predicate InRange(pool: set<int>) {
    forall a :: a in pool ==> 0 < a < HALF - 1
  }

  ghost predicate Inv(c: Config, s: State) {
    && ConfigOk(c)
    && Canonical(c.min, s.free)
    && Separated(c.min, s.free, s.live, s.pool)
    && InRange(s.pool)
    && Accounts(c, s)
    && CacheOk(s.cache, s.live)
    && GridOk(c, s)
  }

  /** Bytes lost by cutting `actual` bytes at `pre` from a block of `size` bytes. */
  ghost function LeakOf(min: nat, size: nat, pre: nat, actual: nat): nat
    requires pre + actual <= size
  {
    var post := size - pre - actual;
    (if pre < min then pre else 0) + (if post < min then post else 0)
  }

  ghost predicate Request(c: Config, size: nat, align: nat) {
    && 0 < c.min < WORD
    && size < WORD && RoundUp(c.min, size) > 0
    && (align == 0 || IsPow2(align))
  }

  /** A successful allocation out of free block `k`. */
  ghost predicate TookFrom(c: Config, s: State, k: nat, size: nat, align: nat, offset: nat, s': State, ptr: nat) {
    && Request(c, size, align)
    && k < |s.free| && Fits(c.min, c.phys, s.free[k], RoundUp(c.min, size), align, offset)
    && var actual := RoundUp(c.min, size);
       var pre := PreSize(c.min, c.phys, s.free[k].start, align, offset);
       var used := s.usedmem + actual;
    && ptr == s.free[k].start + pre
    && s.freemem >= actual
    && s' == s.(free := Split(c.min, s.free, k, pre, actual),
                freemem := s.freemem - actual,
                usedmem := used,
                maxusedmem := if used > s.maxusedmem then used else s.maxusedmem,
                live := s.live[ptr := size],
                leaked := s.leaked + LeakOf(c.min, s.free[k].size, pre, actual),
                onGrid := s.onGrid && offset % c.min == 0)
  }

  /** First fit: the block taken from is the first one that fits. */
  ghost predicate Allocated(c: Config, s: State, size: nat, align: nat, offset: nat, s': State, ptr: nat) {
    && c.min > 0 && size < WORD && c.min < WORD
    && TookFrom(c, s, FirstFit(c.min, c.phys, s.free, RoundUp(c.min, size), align, offset),
                size, align, offset, s', ptr)
  }

  /** The owner of `ptr` gives it back. */
  ghost predicate Freed(c: Config, s: State, ptr: nat, s': State) {
    && ptr in s.live
    && SizesOk(c.min, s.live)
    && s.usedmem >= RoundUp(c.min, s.live[ptr])
    && Released(c.min, s.free, Held(c.min, s.live, ptr), s'.free)
    && s' == s.(free := s'.free,
                freemem := s.freemem + RoundUp(c.min, s.live[ptr]),
                usedmem := s.usedmem - RoundUp(c.min, s.live[ptr]),
                live := s.live - {ptr})
  }

  /** A cache discarder gives up its next allocation. */
  ghost predicate Discarded(c: Config, s: State, s': State) {
    && s.cache != []
    && Freed(c, s.(cache := s.cache[1..]), s.cache[0].0, s')
  }

  /** Memory [start, start + len) joins the pool. */
  ghost predicate PopulatedBy(c: Config, s: State, start: nat, len: nat, s': State) {
    && c.min > 0 && len > 0 && len % c.min == 0 && 0 < start && start + len < HALF
    && (forall a :: start <= a < start + len ==> a !in s.pool)
    && Released(c.min, s.free, Block(start, len), s'.free)
    && s' == s.(free := s'.free,
                freemem := s.freemem + len,
                pool := s.pool + Range(start, start + len),
                edges := s.edges + {start, start + len})
  }

  /** mpopulate() of `len` bytes: as many of them as make whole units join the pool.
      Too few for one unit are freed all the same, as a block without a size. */
  ghost predicate Populated(c: Config, s: State, start: nat, len: nat, s': State) {
    && c.min > 0 && start !in s.pool
    && if len >= c.min then PopulatedBy(c, s, start, RoundDown(c.min, len), s')
       else s' == s.(free := FreeInto(s.free, Block(start, 0)))
  }

  // ------------------------------------------------------------------------
  // Allocation keeps the invariant
  // ------------------------------------------------------------------------

  lemma PoolBound(pool: set<int>)
    requires InRange(pool)
    ensures |pool| < HALF
  {
    RangeCard(1, HALF - 1);
    SubsetCard(pool, Range(1, HALF - 1));
  }

  lemma FreeBounds(c: Config, s: State)
    requires Inv(c, s)
    ensures forall i :: 0 <= i < |s.free| ==> 0 < s.free[i].start && s.free[i].End() < HALF
  {
    forall i | 0 <= i < |s.free| ensures 0 < s.free[i].start && s.free[i].End() < HALF {
      assert Covers(s.free[i], s.free[i].start) && Covers(s.free[i], s.free[i].End() - 1);
      assert IsFree(s.free, s.free[i].start) && IsFree(s.free, s.free[i].End() - 1);
    }
  }

  lemma PiecesSum(min: nat, b: Block, pre: nat, actual: nat)
    requires min > 0 && pre + actual <= b.size
    ensures Sum(Pieces(min, b, pre, actual)) + LeakOf(min, b.size, pre, actual) + actual == b.size
  {
    var post := b.size - pre - actual;
    var p1 := if pre >= min then [Block(b.start, pre)] else [];
    var p2 := if post >= min then [Block(b.start + pre + actual, post)] else [];
    SumConcat(p1, p2);
  }

  lemma CutSum(min: nat, free: seq<Block>, k: nat, pre: nat, actual: nat)
    requires min > 0 && k < |free| && pre + actual <= free[k].size
    ensures Sum(Split(min, free, k, pre, actual)) + LeakOf(min, free[k].size, pre, actual) + actual == Sum(free)
  {
    SumReplace(free, k, Pieces(min, free[k], pre, actual));
    PiecesSum(min, free[k], pre, actual);
  }

  /** What a cut does to the list and the separation of free and live bytes. */
  lemma CutSeparated(min: nat, free: seq<Block>, live: map<nat, nat>, pool: set<int>, k: nat, pre: nat, size: nat)
    requires Separated(min, free, live, pool) && Canonical(min, free) && k < |free|
    requires size < WORD && RoundUp(min, size) > 0 && pre + RoundUp(min, size) <= free[k].size
    ensures var p := free[k].start + pre;
      && p !in live && p in pool
      && Canonical(min, Split(min, free, k, pre, RoundUp(min, size)))
      && Separated(min, Split(min, free, k, pre, RoundUp(min, size)), live[p := size], pool)
  {
    var actual := RoundUp(min, size);
    var p := free[k].start + pre;
    var free' := Split(min, free, k, pre, actual);
    SplitCanonical(min, free, k, pre, actual);
    forall a ensures IsFree(free', a) ==> IsFree(free, a) {
      SplitBytes(min, free, k, pre, actual, a);
    }
    forall a | Covers(Block(p, actual), a) ensures IsFree(free, a) && !IsFree(free', a) {
      assert Covers(free[k], a);
      SplitBytes(min, free, k, pre, actual, a);
    }
    SeparatedAlloc(min, free, live, pool, free', p, size);
    assert Covers(free[k], p);
  }

  lemma TookGrid(c: Config, s: State, k: nat, size: nat, align: nat, offset: nat, s': State, ptr: nat)
    requires ConfigOk(c) && GridOk(c, s) && TookFrom(c, s, k, size, align, offset, s', ptr)
    ensures GridOk(c, s')
  {
    if s'.onGrid {
      CutLeaksOnlyAtEdges(c.min, c.phys, s.edges, s.free, k, RoundUp(c.min, size), align, offset);
      AllocationAligned(c.min, c.phys, s.free[k].start, align, offset);
    }
  }

  lemma TookAccounts(c: Config, s: State, k: nat, size: nat, align: nat, offset: nat, s': State, ptr: nat)
    requires Accounts(c, s) && TookFrom(c, s, k, size, align, offset, s', ptr) && ptr !in s.live
    ensures Accounts(c, s')
  {
    var pre := PreSize(c.min, c.phys, s.free[k].start, align, offset);
    CutSum(c.min, s.free, k, pre, RoundUp(c.min, size));
    SumLiveAdd(c.min, s.live, ptr, size);
  }

  /** An allocation keeps the invariant; the block returned is new, non-null,
      inside the pool and aligned as requested. */
  lemma TookKeepsInv(c: Config, s: State, k: nat, size: nat, align: nat, offset: nat, s': State, ptr: nat)
    requires Inv(c, s) && TookFrom(c, s, k, size, align, offset, s', ptr)
    ensures Inv(c, s')
    ensures ptr !in s.live && 0 < ptr && ptr + RoundUp(c.min, size) < HALF
    ensures var m := if align == 0 then WORD else align; (ptr + c.phys) % m == offset % m
  {
    hide Separated, Canonical, GridOk, Accounts, Split, IsFree, IsPow2, RoundUp, PreSize;
    var pre := PreSize(c.min, c.phys, s.free[k].start, align, offset);
    CutSeparated(c.min, s.free, s.live, s.pool, k, pre, size);
    FreeBounds(c, s);
    TookGrid(c, s, k, size, align, offset, s', ptr);
    TookAccounts(c, s, k, size, align, offset, s', ptr);
    AllocationAligned(c.min, c.phys, s.free[k].start, align, offset);
  }

  /** The counters never run below zero: a block that fits is accounted free. */
  lemma EnoughFree(c: Config, s: State, k: nat, actual: nat)
    requires Accounts(c, s) && k < |s.free| && s.free[k].size >= actual
    ensures s.freemem >= actual
  {
    SumReplace(s.free, k, []);
  }

  // ------------------------------------------------------------------------
  // Freeing keeps the invariant
  // ------------------------------------------------------------------------

  /** A live block may be released: it is in range and disjoint from the list. */
  lemma LiveReleasable(c: Config, s: State, ptr: nat)
    requires Inv(c, s) && ptr in s.live
    ensures 0 < ptr && ptr + RoundUp(c.min, s.live[ptr]) < HALF && ptr + s.live[ptr] < HALF
    ensures DisjointFrom(s.free, Held(c.min, s.live, ptr))
    ensures s.usedmem >= RoundUp(c.min, s.live[ptr])
  {
    var b := Held(c.min, s.live, ptr);
    assert Covers(b, ptr) && Covers(b, b.End() - 1);
    assert ptr in s.pool && b.End() - 1 in s.pool;
    ByteDisjoint(c.min, s.free, b);
    SumLiveRemove(c.min, s.live, ptr);
  }

  /** Releasing a block next to the one below it is releasing the union of the two. */
  lemma AbsorbLower(min: nat, free: seq<Block>, b: Block, free': seq<Block>, i: nat)
    requires Canonical(min, free) && Released(min, free, b, free')
    requires i < |free| && free[i].End() == b.start
    ensures Canonical(min, free[..i] + free[i+1..])
    ensures Sum(free[..i] + free[i+1..]) == Sum(free) - free[i].size
    ensures Released(min, free[..i] + free[i+1..], Block(free[i].start, free[i].size + b.size), free')
  {
    RemoveBlock(min, free, i);
    var m := Block(free[i].start, free[i].size + b.size);
    hide Canonical, IsFree;
    forall a ensures IsFree(free', a) <==> IsFree(free[..i] + free[i+1..], a) || Covers(m, a) {
      assert Covers(m, a) <==> Covers(free[i], a) || Covers(b, a);
    }
  }

  lemma OrderWithout(min: nat, free: seq<Block>, b: Block, i: nat)
    requires Canonical(min, free) && i < |free|
    requires forall j :: i < j < |free| ==> b.End() <= free[j].start
    ensures var free1 := free[..i] + free[i+1..];
      && (forall j :: 0 <= j < i ==> free1[j].End() < free[i].start)
      && (forall j :: i <= j < |free1| ==> b.End() <= free1[j].start)
  {
    var free1 := free[..i] + free[i+1..];
    assert forall j :: i <= j < |free1| ==> free1[j] == free[j+1];
  }

  lemma ReleasedSum(min: nat, free: seq<Block>, b: Block, free': seq<Block>, i: nat)
    requires min > 0 && Canonical(min, free) && b.size >= min && Released(min, free, b, free')
    requires i <= |free|
    requires forall j :: 0 <= j < i ==> free[j].End() <= b.start
    requires forall j :: i <= j < |free| ==> b.End() <= free[j].start
    ensures Sum(free') == Sum(free) + b.size
  {
    if i > 0 && free[i-1].End() == b.start {
      hide Released, IsFree;
      AbsorbLower(min, free, b, free', i - 1);
      OrderWithout(min, free, b, i - 1);
      hide Canonical;
      var free1 := free[..i-1] + free[i..];
      ReleaseAbove(min, free1, Block(free[i-1].start, free[i-1].size + b.size), free', i - 1);
    } else {
      ReleaseAbove(min, free, b, free', i);
    }
  }

  /** The case with a gap below the released block. */
  lemma ReleaseAbove(min: nat, free: seq<Block>, b: Block, free': seq<Block>, i: nat)
    requires min > 0 && Canonical(min, free) && b.size >= min && Released(min, free, b, free')
    requires i <= |free|
    requires forall j :: 0 <= j < i ==> free[j].End() < b.start
    requires forall j :: i <= j < |free| ==> b.End() <= free[j].start
    ensures Sum(free') == Sum(free) + b.size
  {
    if i < |free| && free[i].start == b.End() {
      MergeReleases(min, free, i, b);
      CanonicalUnique(min, free', free[..i] + [Block(b.start, b.size + free[i].size)] + free[i+1..]);
    } else {
      assert forall j :: i < j < |free| ==> free[i].End() < free[j].start;
      InsertReleases(min, free, i, b);
      CanonicalUnique(min, free', free[..i] + [b] + free[i..]);
    }
  }

  /** A block disjoint from the list has a place in it. */
  lemma {:induction false} PlaceFor(min: nat, free: seq<Block>, b: Block) returns (i: nat)
    requires min > 0 && Canonical(min, free) && b.size > 0 && DisjointFrom(free, b)
    ensures i <= |free|
    ensures forall j :: 0 <= j < i ==> free[j].End() <= b.start
    ensures forall j :: i <= j < |free| ==> b.End() <= free[j].start
  {
    i := 0;
    while i < |free| && free[i].End() <= b.start
      invariant i <= |free|
      invariant forall j :: 0 <= j < i ==> free[j].End() <= b.start
    {
      i := i + 1;
    }
    forall j | i <= j < |free| ensures b.End() <= free[j].start {
      assert Disjoint(free[j], b) && Disjoint(free[i], b);
    }
  }

  /** Releasing a block adds exactly its size to the total of the list. */
  lemma ReleaseAddsSize(min: nat, free: seq<Block>, b: Block, free': seq<Block>)
    requires min > 0 && Canonical(min, free) && b.size >= min && DisjointFrom(free, b)
    requires Released(min, free, b, free')
    ensures Sum(free') == Sum(free) + b.size
  {
    var i := PlaceFor(min, free, b);
    ReleasedSum(min, free, b, free', i);
  }

  lemma MultipleAtLeast(x: nat, m: nat)
    requires m > 0 && x > 0 && x % m == 0
    ensures x >= m
  {
  }

  lemma FreedGrid(c: Config, s: State, ptr: nat, s': State)
    requires ConfigOk(c) && GridOk(c, s) && Freed(c, s, ptr, s')
    ensures GridOk(c, s')
  {
    if s.onGrid {
      var b := Held(c.min, s.live, ptr);
      GridAdd(c.min, c.phys, ptr, b.size);
      ReleaseKeepsEdges(c.min, c.phys, s.edges, s.free, b, s'.free);
    }
  }

  /** Freeing keeps the invariant. */
  lemma FreedKeepsInv(c: Config, s: State, ptr: nat, s': State)
    requires Inv(c, s) && Freed(c, s, ptr, s')
    requires forall i :: 0 <= i < |s.cache| ==> s.cache[i].0 != ptr
    ensures Inv(c, s')
  {
    var b := Held(c.min, s.live, ptr);
    LiveReleasable(c, s, ptr);
    MultipleAtLeast(b.size, c.min);
    ReleaseAddsSize(c.min, s.free, b, s'.free);
    SeparatedFree(c.min, s.free, s.live, s.pool, s'.free, ptr);
    SumLiveRemove(c.min, s.live, ptr);
    FreedGrid(c, s, ptr, s');
  }

  /** A cache discarder performs a legal free. */
  lemma DiscardedKeepsInv(c: Config, s: State, s': State)
    requires Inv(c, s) && Discarded(c, s, s')
    ensures Inv(c, s')
  {
    var t := s.(cache := s.cache[1..]);
    assert forall i :: 0 <= i < |t.cache| ==> t.cache[i] == s.cache[i+1];
    assert Inv(c, t);
    FreedKeepsInv(c, t, s.cache[0].0, s');
  }

  lemma OutsidePool(c: Config, s: State, b: Block)
    requires Inv(c, s) && b.size > 0 && forall a :: Covers(b, a) ==> a !in s.pool
    ensures DisjointFrom(s.free, b)
  {
    ByteDisjoint(c.min, s.free, b);
  }

  lemma PopulatedSeparated(c: Config, s: State, start: nat, len: nat, s': State)
    requires Separated(c.min, s.free, s.live, s.pool) && PopulatedBy(c, s, start, len, s')
    ensures Separated(c.min, s'.free, s'.live, s'.pool)
  {
    forall p, a | p in s.live && Covers(Held(c.min, s.live, p), a) ensures !IsFree(s'.free, a) {
      assert a in s.pool;
    }
  }

  lemma PopulatedPool(c: Config, s: State, start: nat, len: nat, s': State)
    requires PopulatedBy(c, s, start, len, s')
    ensures |s'.pool| == |s.pool| + len
  {
    hide Released, Range;
    RangeCard(start, start + len);
    assert s.pool !! Range(start, start + len);
  }

  lemma PopulatedGrid(c: Config, s: State, start: nat, len: nat, s': State)
    requires c.min > 0 && GridOk(c, s) && PopulatedBy(c, s, start, len, s')
    ensures GridOk(c, s')
  {
    if s.onGrid {
      assert EdgeAligned(c.min, c.phys, s'.edges, s.free);
      ReleaseKeepsEdges(c.min, c.phys, s'.edges, s.free, Block(start, len), s'.free);
    }
  }

  /** Adding memory keeps the invariant. */
  lemma PopulatedByKeepsInv(c: Config, s: State, start: nat, len: nat, s': State)
    requires Inv(c, s) && PopulatedBy(c, s, start, len, s')
    ensures Inv(c, s')
  {
    hide Separated, Canonical, IsFree, GridOk, CacheOk;
    var b := Block(start, len);
    OutsidePool(c, s, b);
    MultipleAtLeast(len, c.min);
    ReleaseAddsSize(c.min, s.free, b, s'.free);
    PopulatedSeparated(c, s, start, len, s');
    PopulatedPool(c, s, start, len, s');
    PopulatedGrid(c, s, start, len, s');
  }

  /** Adding any length of memory keeps the invariant exactly when it makes up a
      unit, or when a free block happens to end where it starts; then too little
      memory changes nothing. */
  lemma PopulatedKeepsInv(c: Config, s: State, start: nat, len: nat, s': State)
    requires Inv(c, s) && Populated(c, s, start, len, s')
    ensures Inv(c, s') <==> len >= c.min || EndsAt(s.free, start)
    ensures len < c.min && EndsAt(s.free, start) ==> s' == s
  {
    hide Separated, GridOk, CacheOk, FreeInto, EndsAt, Accounts, RoundDown;
    if len >= c.min {
      PopulatedByKeepsInv(c, s, start, RoundDown(c.min, len), s');
    } else {
      NotFree(c, s, start);
      FreeNothing(c.min, s.free, start);
    }
  }

  lemma NotFree(c: Config, s: State, a: nat)
    requires Inv(c, s) && a !in s.pool
    ensures !IsFree(s.free, a)
  {
  }

  /** The first thing an empty heap may be given is one byte short of a unit. */
  lemma EmptyBlockLinked(c: Config, start: nat)
    requires ConfigOk(c)
    ensures var s' := NO_HEAP.(free := [Block(start, 0)]);
      Inv(c, NO_HEAP) && Populated(c, NO_HEAP, start, c.min - 1, s') && !Inv(c, s')
  {
    assert NO_HEAP.free == [];
  }

  // ------------------------------------------------------------------------
  // The whole of alloc_memblock
  // ------------------------------------------------------------------------

  /** Allocate at the first fit, discarding cached data one item at a time as long
      as nothing fits; fail when nothing fits and nothing is left to discard. */
  ghost predicate AllocOutcome(c: Config, s: State, size: nat, align: nat, offset: nat, s': State, ptr: nat)
    requires 0 < c.min < WORD && size < WORD
    decreases |s.cache|
  {
    var actual := RoundUp(c.min, size);
    if actual == 0 then s' == s && ptr == 0
    else if FirstFit(c.min, c.phys, s.free, actual, align, offset) < |s.free| then
      Allocated(c, s, size, align, offset, s', ptr)
    else if s.cache == [] then s' == s && ptr == 0
    else exists t: State :: Discarded(c, s, t) && |t.cache| < |s.cache| && AllocOutcome(c, t, size, align, offset, s', ptr)
  }

  /** The same without blocks: the allocation goes to the lowest address that is
      placed as requested with enough free bytes from it on; cached data is given up
      only while there is no such address. */
  ghost predicate AllocatedLowest(c: Config, s: State, size: nat, align: nat, offset: nat, s': State, ptr: nat)
    requires 0 < c.min < WORD && size < WORD
    decreases |s.cache|
  {
    var actual := RoundUp(c.min, size);
    if actual == 0 then s' == s && ptr == 0
    else if exists a: nat :: Candidate(c.min, c.phys, s.free, actual, align, offset, a) then
      && Candidate(c.min, c.phys, s.free, actual, align, offset, ptr)
      && (forall a: nat :: a < ptr ==> !Candidate(c.min, c.phys, s.free, actual, align, offset, a))
      && s'.live == s.live[ptr := size] && s'.cache == s.cache && s'.pool == s.pool
      && s'.usedmem == s.usedmem + actual && s'.freemem == s.freemem - actual
      && (forall a :: IsFree(s'.free, a) ==> IsFree(s.free, a) && !(ptr <= a < ptr + actual))
    else if s.cache == [] then s' == s && ptr == 0
    else exists t: State :: Discarded(c, s, t) && |t.cache| < |s.cache| && AllocatedLowest(c, t, size, align, offset, s', ptr)
  }

  lemma TookLowest(c: Config, s: State, size: nat, align: nat, offset: nat, s': State, ptr: nat)
    requires Inv(c, s) && Allocated(c, s, size, align, offset, s', ptr)
    ensures AllocatedLowest(c, s, size, align, offset, s', ptr)
  {
    hide Separated, GridOk, Accounts, InRange, CacheOk, PreSize, IsPow2, Candidate, RoundUp, Split, Canonical, IsFree;
    var actual := RoundUp(c.min, size);
    var k := FirstFit(c.min, c.phys, s.free, actual, align, offset);
    FirstFitLowest(c.min, c.phys, s.free, actual, align, offset, 0);
    forall a: nat | a < ptr ensures !Candidate(c.min, c.phys, s.free, actual, align, offset, a) {
      FirstFitLowest(c.min, c.phys, s.free, actual, align, offset, a);
    }
    forall a | IsFree(s'.free, a) ensures IsFree(s.free, a) && !(ptr <= a < ptr + actual) {
      SplitBytes(c.min, s.free, k, ptr - s.free[k].start, actual, a);
    }
  }

  /** Every outcome of alloc_memblock is the lowest allocation. */
  lemma {:induction false} AllocLowest(c: Config, s: State, size: nat, align: nat, offset: nat, s': State, ptr: nat)
    requires Inv(c, s) && size < WORD && (align == 0 || IsPow2(align))
    requires AllocOutcome(c, s, size, align, offset, s', ptr)
    ensures AllocatedLowest(c, s, size, align, offset, s', ptr)
    decreases |s.cache|
  {
    hide Separated, Canonical, GridOk, Accounts, Released, Split, IsFree, InRange, Fits, CacheOk, TookFrom, Candidate, IsPow2, Discarded;
    var actual := RoundUp(c.min, size);
    var k := FirstFit(c.min, c.phys, s.free, actual, align, offset);
    if actual == 0 {
    } else if k < |s.free| {
      TookLowest(c, s, size, align, offset, s', ptr);
    } else {
      forall a: nat ensures !Candidate(c.min, c.phys, s.free, actual, align, offset, a) {
        FirstFitLowest(c.min, c.phys, s.free, actual, align, offset, a);
      }
      if s.cache != [] {
        var t: State :| Discarded(c, s, t) && |t.cache| < |s.cache| && AllocOutcome(c, t, size, align, offset, s', ptr);
        DiscardedKeepsInv(c, s, t);
        AllocLowest(c, t, size, align, offset, s', ptr);
      }
    }
  }

  /** The allocations that `n` discards give up. */
  ghost function CacheKeys(cache: seq<(nat, nat)>): set<nat> {
    set i | 0 <= i < |cache| :: cache[i].0
  }

  /** What a caller of alloc_memblock can rely on.  Failure means that the size is
      not representable, or that no free block fits even with the cache empty. */
  lemma {:induction false} AllocOutcomeSafe(c: Config, s: State, size: nat, align: nat, offset: nat, s': State, ptr: nat)
    requires Inv(c, s) && size < WORD && (align == 0 || IsPow2(align))
    requires AllocOutcome(c, s, size, align, offset, s', ptr)
    ensures Inv(c, s')
    ensures ptr == 0 && RoundUp(c.min, size) != 0 ==>
      && s'.cache == []
      && FirstFit(c.min, c.phys, s'.free, RoundUp(c.min, size), align, offset) == |s'.free|
    ensures ptr != 0 ==>
      && ptr in s'.live && s'.live[ptr] == size && RoundUp(c.min, size) > 0
      && ptr !in CacheKeys(s'.cache) && ptr + RoundUp(c.min, size) < HALF
      && (var m := if align == 0 then WORD else align; (ptr + c.phys) % m == offset % m)
    decreases |s.cache|
  {
    hide Separated, Canonical, GridOk, Accounts, Released, Split, IsFree, InRange, Fits, CacheOk;
    CachedIsLive(c, s);
    var k := FirstFit(c.min, c.phys, s.free, RoundUp(c.min, size), align, offset);
    if RoundUp(c.min, size) == 0 {
    } else if k < |s.free| {
      TookKeepsInv(c, s, k, size, align, offset, s', ptr);
    } else if s.cache != [] {
      var t: State :| Discarded(c, s, t) && |t.cache| < |s.cache| && AllocOutcome(c, t, size, align, offset, s', ptr);
      DiscardedKeepsInv(c, s, t);
      AllocOutcomeSafe(c, t, size, align, offset, s', ptr);
    }
  }

  /** Allocation never takes memory from anyone but the caches: every allocation
      that is not cached survives with its size, and the only new one is `ptr`. */
  lemma {:induction false} AllocKeepsLive(c: Config, s: State, size: nat, align: nat, offset: nat, s': State, ptr: nat, p: nat)
    requires Inv(c, s) && size < WORD && (align == 0 || IsPow2(align))
    requires AllocOutcome(c, s, size, align, offset, s', ptr)
    ensures p in s.live && p !in CacheKeys(s.cache) ==> p in s'.live && s'.live[p] == s.live[p] && p != ptr
    ensures p in s'.live && p != ptr ==> p in s.live && s'.live[p] == s.live[p]
    ensures p in CacheKeys(s'.cache) ==> p in CacheKeys(s.cache)
    ensures s'.pool == s.pool
    decreases |s.cache|
  {
    hide Separated, Canonical, GridOk, Accounts, Released, Split, IsFree, InRange, Fits, CacheOk;
    if p in s.live { LiveReleasable(c, s, p); }
    var k := FirstFit(c.min, c.phys, s.free, RoundUp(c.min, size), align, offset);
    if RoundUp(c.min, size) == 0 {
    } else if k < |s.free| {
      TookKeepsInv(c, s, k, size, align, offset, s', ptr);
    } else if s.cache != [] {
      var t: State :| Discarded(c, s, t) && |t.cache| < |s.cache| && AllocOutcome(c, t, size, align, offset, s', ptr);
      DiscardedKeepsInv(c, s, t);
      AllocKeepsLive(c, t, size, align, offset, s', ptr, p);
      CacheKeysTail(s.cache);
    }
  }

  /** Every allocation outside the caches is still there, with the same size. */
  ghost predicate Survive(s: State, s': State) {
    forall p :: p in s.live && p !in CacheKeys(s.cache) ==>
      p in s'.live && s'.live[p] == s.live[p] && p !in CacheKeys(s'.cache)
  }

  lemma AllocSurvive(c: Config, s: State, size: nat, align: nat, offset: nat, s': State, ptr: nat)
    requires Inv(c, s) && size < WORD && (align == 0 || IsPow2(align))
    requires AllocOutcome(c, s, size, align, offset, s', ptr)
    ensures Survive(s, s')
    ensures ptr in s.live ==> ptr in CacheKeys(s.cache)
    ensures s'.live.Keys <= s.live.Keys + {ptr}
  {
    hide Inv, AllocOutcome, IsPow2;
    AllocKeepsLive(c, s, size, align, offset, s', ptr, ptr);
    forall p | p in s'.live ensures p in s.live.Keys + {ptr} {
      AllocKeepsLive(c, s, size, align, offset, s', ptr, p);
    }
    forall p | p in s.live && p !in CacheKeys(s.cache)
      ensures p in s'.live && s'.live[p] == s.live[p] && p !in CacheKeys(s'.cache)
    {
      AllocKeepsLive(c, s, size, align, offset, s', ptr, p);
    }
  }

  /** No two allocations share a byte. */
  lemma OneOwner(c: Config, s: State, p: nat, q: nat, a: int)
    requires Inv(c, s) && p in s.live && q in s.live
    requires p <= a < p + s.live[p] && q <= a < q + s.live[q]
    ensures p == q
  {
    assert p == q || Disjoint(Held(c.min, s.live, p), Held(c.min, s.live, q));
  }

  lemma CachedIsLive(c: Config, s: State)
    requires Inv(c, s)
    ensures forall p :: p in CacheKeys(s.cache) ==> p in s.live
  {
    hide Separated, Canonical, GridOk, Accounts;
  }

  lemma CacheKeysTail(cache: seq<(nat, nat)>)
    requires cache != []
    ensures CacheKeys(cache) == {cache[0].0} + CacheKeys(cache[1..])
  {
    forall p | p in CacheKeys(cache[1..]) ensures p in CacheKeys(cache) {
      var i :| 0 <= i < |cache[1..]| && cache[1..][i].0 == p;
      assert cache[i+1].0 == p;
    }
    forall p | p in CacheKeys(cache) ensures p in {cache[0].0} + CacheKeys(cache[1..]) {
      var i :| 0 <= i < |cache| && cache[i].0 == p;
      if i > 0 { assert cache[1..][i-1].0 == p; }
    }
  }

  // ------------------------------------------------------------------------
  // Runs
  // ------------------------------------------------------------------------

  datatype Op =
    | OpPopulate(start: nat, len: nat)
    | OpAlloc(size: nat, align: nat, offset: nat, ptr: nat)
    | OpFree(ptr: nat)
    | OpCache(ptr: nat)          // the owner lets the cache discarders free it
    | OpDiscard

  ghost predicate Step(c: Config, s: State, op: Op, s': State) {
    match op
    case OpPopulate(start, len) => Populated(c, s, start, len, s') && (len >= c.min || EndsAt(s.free, start))
    case OpAlloc(size, align, offset, ptr) => Allocated(c, s, size, align, offset, s', ptr)
    case OpFree(ptr) => Freed(c, s, ptr, s') && forall i :: 0 <= i < |s.cache| ==> s.cache[i].0 != ptr
    case OpCache(ptr) =>
      && ptr in s.live && (forall i :: 0 <= i < |s.cache| ==> s.cache[i].0 != ptr)
      && s' == s.(cache := s.cache + [(ptr, s.live[ptr])])
    case OpDiscard => Discarded(c, s, s')
  }

  ghost predicate Run(c: Config, ops: seq<Op>, states: seq<State>) {
    && |states| == |ops| + 1
    && states[0] == NO_HEAP
    && forall i :: 0 <= i < |ops| ==> Step(c, states[i], ops[i], states[i+1])
  }

  lemma StepKeepsInv(c: Config, s: State, op: Op, s': State)
    requires Inv(c, s) && Step(c, s, op, s')
    ensures Inv(c, s')
  {
    match op
    case OpPopulate(start, len) => PopulatedKeepsInv(c, s, start, len, s');
    case OpAlloc(size, align, offset, ptr) =>
      var k := FirstFit(c.min, c.phys, s.free, RoundUp(c.min, size), align, offset);
      TookKeepsInv(c, s, k, size, align, offset, s', ptr);
    case OpFree(ptr) => FreedKeepsInv(c, s, ptr, s');
    case OpCache(ptr) =>
    case OpDiscard => DiscardedKeepsInv(c, s, s');
  }

  lemma EmptySafe(c: Config)
    requires ConfigOk(c)
    ensures Inv(c, NO_HEAP)
  {
  }

  /** Every state of every run is safe, coalesced and correctly accounted. */
  lemma {:induction false} RunSafe(c: Config, ops: seq<Op>, states: seq<State>, n: nat)
    requires ConfigOk(c) && Run(c, ops, states) && n < |states|
    ensures Inv(c, states[n])
  {
    hide Inv, Step;
    if n == 0 {
      EmptySafe(c);
    } else {
      RunSafe(c, ops, states, n - 1);
      StepKeepsInv(c, states[n-1], ops[n-1], states[n]);
    }
  }

  ghost predicate NoPopulate(ops: seq<Op>, m: nat, n: nat) {
    m <= n <= |ops| && forall i :: m <= i < n ==> !ops[i].OpPopulate?
  }

  /** After the pool has been populated, used plus free memory never changes,
      whatever is allocated, freed, cached or discarded. */
  lemma {:induction false} RunConserves(c: Config, ops: seq<Op>, states: seq<State>, m: nat, n: nat)
    requires ConfigOk(c) && Run(c, ops, states) && NoPopulate(ops, m, n)
    ensures states[n].usedmem + states[n].freemem == states[m].usedmem + states[m].freemem
    decreases n
  {
    hide Inv, Step;
    if m < n {
      RunConserves(c, ops, states, m, n - 1);
      RunSafe(c, ops, states, n - 1);
      RunSafe(c, ops, states, n);
      StepPool(c, states[n-1], ops[n-1], states[n]);
      TotalIsPool(c, states[n-1]);
      TotalIsPool(c, states[n]);
    }
  }

  /** The most memory in use at any time up to state `n`. */
  ghost function Peak(states: seq<State>, n: nat): nat
    requires n < |states|
  {
    var used := states[n].usedmem;
    if n == 0 then used
    else
      var before := Peak(states, n - 1);
      if used > before then used else before
  }

  /** The high-water mark is what it says. */
  lemma {:induction false} RunPeak(c: Config, ops: seq<Op>, states: seq<State>, n: nat)
    requires ConfigOk(c) && Run(c, ops, states) && n < |states|
    ensures states[n].maxusedmem == Peak(states, n)
  {
    hide Inv, Step;
    if n > 0 {
      RunPeak(c, ops, states, n - 1);
      RunSafe(c, ops, states, n - 1);
      StepPeak(c, states[n-1], ops[n-1], states[n]);
    }
  }

  lemma StepPeak(c: Config, s: State, op: Op, s': State)
    requires Inv(c, s) && Step(c, s, op, s')
    ensures s'.maxusedmem == if s'.usedmem > s.maxusedmem then s'.usedmem else s.maxusedmem
  {
    hide Released, Fits, Canonical, Separated, GridOk, CacheOk, InRange, Split, FreeInto;
  }

  lemma StepPool(c: Config, s: State, op: Op, s': State)
    requires Step(c, s, op, s') && !op.OpPopulate?
    ensures s'.pool == s.pool
  {
    hide Released, Fits;
  }

  lemma TotalIsPool(c: Config, s: State)
    requires Inv(c, s)
    ensures s.usedmem + s.freemem == |s.pool|
  {
    hide Separated, Canonical, GridOk, CacheOk;
  }

  /** A run whose requests all have offsets on the grid loses a leading piece only
      from a block that starts at an edge of populated memory, and a trailing piece
      only from one that ends at an edge, which is what the comments on the two
      leaks claim. */
  lemma RunLeaksOnlyAtEdges(c: Config, ops: seq<Op>, states: seq<State>, n: nat, k: nat)
    requires ConfigOk(c) && Run(c, ops, states) && n < |ops| && ops[n].OpAlloc?
    requires states[n+1].onGrid
    requires k == FirstFit(c.min, c.phys, states[n].free, RoundUp(c.min, ops[n].size), ops[n].align, ops[n].offset)
    ensures k < |states[n].free|
    ensures
      var b := states[n].free[k];
      var pre := PreSize(c.min, c.phys, b.start, ops[n].align, ops[n].offset);
      var actual := RoundUp(c.min, ops[n].size);
      && pre + actual <= b.size
      && states[n+1].leaked == states[n].leaked + LeakOf(c.min, b.size, pre, actual)
      && (0 < pre < c.min ==> b.start in states[n].edges)
      && (0 < b.size - pre - actual < c.min ==> b.End() in states[n].edges)
      && (b.start !in states[n].edges && b.End() !in states[n].edges ==> states[n+1].leaked == states[n].leaked)
  {
    RunSafe(c, ops, states, n);
    var s := states[n];
    assert Step(c, s, ops[n], states[n+1]);
    CutLeaksOnlyAtEdges(c.min, c.phys, s.edges, s.free, k, RoundUp(c.min, ops[n].size), ops[n].align, ops[n].offset);
  }
}
