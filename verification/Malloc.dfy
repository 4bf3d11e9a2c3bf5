/** The dynamic memory allocator: first fit over an address-ordered free list,
    with alignment splitting, cache discarding and usage counters. */
module Malloc {
  import opened Arith
  import opened FreeList

  /** Round down to a multiple of the minimum block size. */
  function RoundDown(min: nat, len: nat): (r: nat)
    requires min > 0
    ensures r <= len < r + min && r % min == 0
    ensures len < min ==> r == 0
  {
    ModMultiple(len / min, min);
    len / min * min
  }

  /** Round up to a multiple of the minimum block size, in size_t arithmetic:
      zero stands for a zero request or for overflow. */
  function RoundUp(min: nat, size: nat): (r: nat)
    requires 0 < min < WORD && size < WORD
    ensures r % min == 0
    ensures size > 0 && size + min <= WORD ==> size <= r < size + min
    ensures r == 0 <==> size == 0 || size + min > WORD
  {
    RoundDown(min, (size + min - 1) % WORD)
  }

  /** One more than the alignment mask (align - 1) | (min - 1). */
  function Modulus(min: nat, align: nat): nat {
    if align == 0 then WORD else if align < min then min else align
  }

  /** Bytes skipped at the start of a block at `start` to reach the requested
      physical alignment; virt_to_phys adds `phys`. */
  function PreSize(min: nat, phys: nat, start: nat, align: nat, offset: nat): (pre: nat)
    requires min > 0
  {
    (offset - (start + phys)) % Modulus(min, align)
  }

  predicate Fits(min: nat, phys: nat, b: Block, actual: nat, align: nat, offset: nat)
    requires min > 0
  {
    var pre := PreSize(min, phys, b.start, align, offset);
    pre <= b.size && actual <= b.size - pre
  }

  /** The first block that fits, or the length of the list. */
  function FirstFit(min: nat, phys: nat, free: seq<Block>, actual: nat, align: nat, offset: nat): (k: nat)
    requires min > 0
    ensures k <= |free|
    ensures k < |free| ==> Fits(min, phys, free[k], actual, align, offset)
    ensures forall j :: 0 <= j < k ==> !Fits(min, phys, free[j], actual, align, offset)
  {
    if free == [] || Fits(min, phys, free[0], actual, align, offset) then 0
    else 1 + FirstFit(min, phys, free[1..], actual, align, offset)
  }

  /** An allocation is physically congruent to `offset` modulo `align`. */
  lemma AllocationAligned(min: nat, phys: nat, start: nat, align: nat, offset: nat)
    requires IsPow2(min) && min <= WORD && (align == 0 || IsPow2(align))
    ensures min > 0
    ensures var p := start + PreSize(min, phys, start, align, offset);
      (p + phys) % (if align == 0 then WORD else align) == offset % (if align == 0 then WORD else align)
    ensures (start + PreSize(min, phys, start, align, offset) + phys) % min == offset % min
  {
    SmallerDividesLarger(min, min);
    var m := Modulus(min, align);
    var x := start + phys;
    AlignUp(x, offset, m);
    var y := x + (offset - x) % m;
    if align != 0 {
      if align < min { SmallerDividesLarger(align, min); } else { SmallerDividesLarger(min, align); }
      SmallerDividesLarger(align, align);
      ModOfMod(y, offset, m, align);
    } else {
      WordIsPow2();
      SmallerDividesLarger(min, WORD);
    }
    ModOfMod(y, offset, m, min);
  }

  // ------------------------------------------------------------------------
  // Where an allocation goes
  // ------------------------------------------------------------------------

  /** Address `a` is physically at `offset` from a multiple of the alignment, which
      zero makes the whole address space, and of the minimum block size. */
  ghost predicate Congruent(min: nat, phys: nat, a: int, align: nat, offset: nat)
    requires min > 0
  {
    && (a + phys) % min == offset % min
    && (a + phys) % (if align == 0 then WORD else align) == offset % (if align == 0 then WORD else align)
  }

  /** From `a` on there are `n` free bytes, and `a` is placed as requested. */
  ghost predicate Candidate(min: nat, phys: nat, free: seq<Block>, n: nat, align: nat, offset: nat, a: nat)
    requires min > 0
  {
    && Congruent(min, phys, a, align, offset)
    && forall x :: a <= x < a + n ==> IsFree(free, x)
  }

  lemma CongruentModulus(min: nat, phys: nat, a: int, align: nat, offset: nat)
    requires IsPow2(min) && 0 < min <= WORD && (align == 0 || IsPow2(align))
    ensures Modulus(min, align) > 0
    ensures Congruent(min, phys, a, align, offset)
       <==> (a + phys) % Modulus(min, align) == offset % Modulus(min, align)
  {
    var m := Modulus(min, align);
    if (a + phys) % m == offset % m {
      SmallerDividesLarger(min, min);
      if align == 0 {
        WordIsPow2();
        SmallerDividesLarger(min, WORD);
      } else if align < min {
        SmallerDividesLarger(align, min);
        ModOfMod(a + phys, offset, m, align);
      } else {
        SmallerDividesLarger(min, align);
      }
      ModOfMod(a + phys, offset, m, min);
    }
  }

  /** Two numbers less than m apart with the same remainder are equal. */
  lemma SameRemainder(x: int, y: int, m: int)
    requires m > 0 && x % m == y % m && x <= y < x + m
    ensures x == y
  {
    var a, b, r := x / m, y / m, x % m;
    assert x == a * m + r && y == b * m + r;
    assert (b - a) * m == y - x;
    MulAtLeast(b - a, m);
  }

  /** The skip at the start of a block ends at the first address placed as
      requested. */
  lemma LowestCongruent(min: nat, phys: nat, start: nat, align: nat, offset: nat)
    requires IsPow2(min) && 0 < min <= WORD && (align == 0 || IsPow2(align))
    ensures Congruent(min, phys, start + PreSize(min, phys, start, align, offset), align, offset)
    ensures forall a :: start <= a < start + PreSize(min, phys, start, align, offset) ==>
      !Congruent(min, phys, a, align, offset)
  {
    hide IsPow2, Congruent;
    var m := Modulus(min, align);
    var pre := PreSize(min, phys, start, align, offset);
    CongruentModulus(min, phys, start + pre, align, offset);
    AlignUp(start + phys, offset, m);
    forall a | start <= a < start + pre ensures !Congruent(min, phys, a, align, offset) {
      CongruentModulus(min, phys, a, align, offset);
      if Congruent(min, phys, a, align, offset) {
        SameRemainder(a + phys, start + pre + phys, m);
      }
    }
  }

  /** A run of free bytes lies in one block. */
  lemma RunInBlock(min: nat, free: seq<Block>, a: nat, n: nat) returns (i: nat)
    requires min > 0 && Canonical(min, free) && n > 0
    requires forall x :: a <= x < a + n ==> IsFree(free, x)
    ensures i < |free| && free[i].start <= a && a + n <= free[i].End()
  {
    assert IsFree(free, a);
    i :| 0 <= i < |free| && Covers(free[i], a);
    BlockBoundary(min, free, i);
    assert !IsFree(free, free[i].End());
  }

  /** A block fits exactly if a run placed as requested lies in it. */
  lemma FitsExact(min: nat, phys: nat, b: Block, actual: nat, align: nat, offset: nat, a: nat)
    requires IsPow2(min) && 0 < min <= WORD && (align == 0 || IsPow2(align))
    requires b.start <= a && a + actual <= b.End() && Congruent(min, phys, a, align, offset)
    ensures Fits(min, phys, b, actual, align, offset) && b.start + PreSize(min, phys, b.start, align, offset) <= a
  {
    hide IsPow2, Congruent, PreSize;
    LowestCongruent(min, phys, b.start, align, offset);
  }

  /** First fit, stated without blocks: the address taken is the lowest one that is
      placed as requested with enough free bytes from it on, and there is none if
      no block fits. */
  lemma FirstFitLowest(min: nat, phys: nat, free: seq<Block>, actual: nat, align: nat, offset: nat, a: nat)
    requires IsPow2(min) && 0 < min <= WORD && (align == 0 || IsPow2(align)) && Canonical(min, free) && actual > 0
    ensures var k := FirstFit(min, phys, free, actual, align, offset);
      if k == |free| then !Candidate(min, phys, free, actual, align, offset, a)
      else
        var p := free[k].start + PreSize(min, phys, free[k].start, align, offset);
        && Candidate(min, phys, free, actual, align, offset, p)
        && (a < p ==> !Candidate(min, phys, free, actual, align, offset, a))
  {
    hide IsPow2, PreSize, Congruent;
    var k := FirstFit(min, phys, free, actual, align, offset);
    if k < |free| {
      var p := free[k].start + PreSize(min, phys, free[k].start, align, offset);
      LowestCongruent(min, phys, free[k].start, align, offset);
      forall x | p <= x < p + actual ensures IsFree(free, x) {
        assert Covers(free[k], x);
      }
    }
    if Candidate(min, phys, free, actual, align, offset, a) {
      var i := RunInBlock(min, free, a, actual);
      FitsExact(min, phys, free[i], actual, align, offset, a);
      if k < i {
        assert free[k].End() < free[i].start;
      }
    }
  }

  // ------------------------------------------------------------------------
  // Live allocations
  // ------------------------------------------------------------------------

  /** All requested sizes of a live-allocation map are representable. */
  ghost predicate SizesOk(min: nat, live: map<nat, nat>) {
    && 0 < min < WORD
    && forall p :: p in live ==> live[p] < WORD && RoundUp(min, live[p]) > 0
  }

  /** The bytes really held by the allocation at `p`. */
  ghost function Held(min: nat, live: map<nat, nat>, p: nat): Block
    requires SizesOk(min, live) && p in live
  {
    Block(p, RoundUp(min, live[p]))
  }

  ghost function SumLive(min: nat, live: map<nat, nat>): nat
    requires SizesOk(min, live)
  {
    if live == map[] then 0
    else
      var p :| p in live;
      RoundUp(min, live[p]) + SumLive(min, live - {p})
  }

  lemma {:induction false} SumLiveRemove(min: nat, live: map<nat, nat>, p: nat)
    requires SizesOk(min, live) && p in live
    ensures SumLive(min, live) == RoundUp(min, live[p]) + SumLive(min, live - {p})
    decreases |live|
  {
    hide RoundUp;
    var q :| q in live && SumLive(min, live) == RoundUp(min, live[q]) + SumLive(min, live - {q});
    if q != p {
      SumLiveRemove(min, live - {q}, p);
      SumLiveRemove(min, live - {p}, q);
      assert live - {q} - {p} == live - {p} - {q};
    }
  }

  lemma SumLiveAdd(min: nat, live: map<nat, nat>, p: nat, size: nat)
    requires SizesOk(min, live) && p !in live && size < WORD && RoundUp(min, size) > 0
    ensures SizesOk(min, live[p := size])
    ensures SumLive(min, live[p := size]) == SumLive(min, live) + RoundUp(min, size)
  {
    SumLiveRemove(min, live[p := size], p);
    assert live[p := size] - {p} == live;
  }

  /** The memory-safety invariant: free bytes and live allocations lie inside the
      pool, and no byte is both free and live or live twice. */
  ghost predicate Separated(min: nat, free: seq<Block>, live: map<nat, nat>, pool: set<int>) {
    && SizesOk(min, live)
    && (forall a :: IsFree(free, a) ==> a in pool)
    && (forall p, a :: p in live && Covers(Held(min, live, p), a) ==> a in pool && !IsFree(free, a))
    && (forall p, q :: p in live && q in live && p != q ==> Disjoint(Held(min, live, p), Held(min, live, q)))
  }

  /** Taking bytes out of the free list and giving them to a new allocation. */
  lemma SeparatedAlloc(min: nat, free: seq<Block>, live: map<nat, nat>, pool: set<int>,
                       free': seq<Block>, p: nat, size: nat)
    requires Separated(min, free, live, pool)
    requires size < WORD && RoundUp(min, size) > 0
    requires forall a :: IsFree(free', a) ==> IsFree(free, a)
    requires forall a :: Covers(Block(p, RoundUp(min, size)), a) ==> IsFree(free, a) && !IsFree(free', a)
    ensures p !in live
    ensures Separated(min, free', live[p := size], pool)
  {
    var b := Block(p, RoundUp(min, size));
    assert Covers(b, p);
    assert p !in live || Covers(Held(min, live, p), p);
    var live' := live[p := size];
    forall q | q in live ensures Disjoint(Held(min, live, q), b) {
      if !Disjoint(Held(min, live, q), b) {
        var a := if q <= p then p else q;
        assert Covers(Held(min, live, q), a) && Covers(b, a);
        assert false;
      }
    }
    assert forall q :: q in live' ==> Held(min, live', q) == if q == p then b else Held(min, live, q);
  }

  /** Giving a live allocation's bytes back to the free list. */
  lemma SeparatedFree(min: nat, free: seq<Block>, live: map<nat, nat>, pool: set<int>,
                      free': seq<Block>, p: nat)
    requires Separated(min, free, live, pool) && p in live
    requires forall a :: IsFree(free', a) <==> IsFree(free, a) || Covers(Held(min, live, p), a)
    ensures Separated(min, free', live - {p}, pool)
  {
    var live' := live - {p};
    assert forall q :: q in live' ==> Held(min, live', q) == Held(min, live, q);
    forall q, a | q in live' && Covers(Held(min, live', q), a) ensures !IsFree(free', a) {
      assert Disjoint(Held(min, live, q), Held(min, live, p));
    }
  }

  /** A block none of whose bytes is free is disjoint from the list. */
  lemma ByteDisjoint(min: nat, free: seq<Block>, b: Block)
    requires min > 0 && Canonical(min, free) && b.size > 0
    requires forall a :: Covers(b, a) ==> !IsFree(free, a)
    ensures DisjointFrom(free, b)
  {
    forall i | 0 <= i < |free| ensures Disjoint(free[i], b) {
      if !Disjoint(free[i], b) {
        var a := if b.start <= free[i].start then free[i].start else b.start;
        assert Covers(free[i], a) && Covers(b, a);
        assert false;
      }
    }
  }

  // ------------------------------------------------------------------------
  // Leaks
  // ------------------------------------------------------------------------

  ghost predicate OnGrid(min: nat, phys: nat, a: int)
    requires min > 0
  {
    (a + phys) % min == 0
  }

  /** Every boundary of a free block is on the grid of minimum-size multiples or
      is an edge of a populated region. */
  ghost predicate EdgeAligned(min: nat, phys: nat, edges: set<int>, free: seq<Block>)
    requires min > 0
  {
    forall i :: 0 <= i < |free| ==>
      && (OnGrid(min, phys, free[i].start) || free[i].start in edges)
      && (OnGrid(min, phys, free[i].End()) || free[i].End() in edges)
  }

  lemma GridDistance(min: nat, phys: nat, a: int, b: int)
    requires min > 0 && OnGrid(min, phys, a) && OnGrid(min, phys, b) && a <= b
    ensures b - a == 0 || b - a >= min
  {
    if b - a < min {
      MultiplesApart(a + phys, b + phys, min);
    }
  }

  lemma GridAdd(min: nat, phys: nat, a: int, n: nat)
    requires min > 0 && OnGrid(min, phys, a) && n % min == 0
    ensures OnGrid(min, phys, a + n)
  {
    assert a + n + phys == (a + phys) + (n / min) * min;
    ModAddMultiple(a + phys, n / min, min);
  }

  /** For an offset on the grid, a cut leaks a leading piece only from a block
      that starts at an edge of populated memory, and a trailing piece only from
      a block that ends at one. */
  lemma CutLeaksOnlyAtEdges(min: nat, phys: nat, edges: set<int>, free: seq<Block>, k: nat,
                            actual: nat, align: nat, offset: nat)
    requires IsPow2(min) && 0 < min <= WORD && (align == 0 || IsPow2(align)) && EdgeAligned(min, phys, edges, free)
    requires k < |free| && Fits(min, phys, free[k], actual, align, offset)
    requires actual % min == 0 && offset % min == 0
    ensures var pre := PreSize(min, phys, free[k].start, align, offset);
      var post := free[k].size - pre - actual;
      && (0 < pre < min ==> free[k].start in edges)
      && (0 < post < min ==> free[k].End() in edges)
      && EdgeAligned(min, phys, edges, Split(min, free, k, pre, actual))
  {
    var pre := PreSize(min, phys, free[k].start, align, offset);
    var p := free[k].start + pre;
    AllocationAligned(min, phys, free[k].start, align, offset);
    assert OnGrid(min, phys, p);
    GridAdd(min, phys, p, actual);
    if OnGrid(min, phys, free[k].start) { GridDistance(min, phys, free[k].start, p); }
    if OnGrid(min, phys, free[k].End()) { GridDistance(min, phys, p + actual, free[k].End()); }
    var mid := Pieces(min, free[k], pre, actual);
    var g := Split(min, free, k, pre, actual);
    forall i | 0 <= i < |g|
      ensures OnGrid(min, phys, g[i].start) || g[i].start in edges
      ensures OnGrid(min, phys, g[i].End()) || g[i].End() in edges
    {
      if i < k { assert g[i] == free[i]; }
      else if i < k + |mid| { assert g[i] == mid[i - k]; }
      else { assert g[i] == free[i - |mid| + 1]; }
    }
  }

  /** For every other offset, a block of two minimum sizes anywhere on the grid
      loses a leading piece to the smallest request. */
  lemma OffGridLeaks(min: nat, phys: nat, start: nat, offset: nat)
    requires min > 0 && offset % min != 0 && OnGrid(min, phys, start)
    ensures
      var b := Block(start, 2 * min);
      var pre := PreSize(min, phys, start, min, offset);
      && EdgeAligned(min, phys, {}, [b]) && Fits(min, phys, b, min, min, offset)
      && 0 < pre < min && Pieces(min, b, pre, min) == []
  {
    var q := (start + phys) / min;
    assert start + phys == q * min;
    ModAddMultiple(offset, -q, min);
    assert offset + (-q) * min == offset - (start + phys);
    ModMultiple(2, min);
    GridAdd(min, phys, start, 2 * min);
  }

  lemma BlockBoundary(min: nat, free: seq<Block>, i: nat)
    requires min > 0 && Canonical(min, free) && i < |free|
    ensures IsFree(free, free[i].start) && !IsFree(free, free[i].start - 1)
    ensures IsFree(free, free[i].End() - 1) && !IsFree(free, free[i].End())
  {
    assert Covers(free[i], free[i].start) && Covers(free[i], free[i].End() - 1);
  }

  lemma BoundaryBlock(free: seq<Block>, a: int)
    ensures IsFree(free, a) && !IsFree(free, a - 1) ==> exists j :: 0 <= j < |free| && free[j].start == a
    ensures IsFree(free, a - 1) && !IsFree(free, a) ==> exists j :: 0 <= j < |free| && free[j].End() == a
  {
    if IsFree(free, a) && !IsFree(free, a - 1) {
      var j :| 0 <= j < |free| && Covers(free[j], a);
      assert !Covers(free[j], a - 1);
    }
    if IsFree(free, a - 1) && !IsFree(free, a) {
      var j :| 0 <= j < |free| && Covers(free[j], a - 1);
      assert !Covers(free[j], a);
    }
  }

  /** A block start after a release is an old block start or the released start. */
  lemma ReleasedStart(min: nat, free: seq<Block>, b: Block, free': seq<Block>, i: nat)
    requires min > 0 && Released(min, free, b, free') && i < |free'|
    ensures free'[i].start == b.start || exists j :: 0 <= j < |free| && free[j].start == free'[i].start
  {
    var s: int := free'[i].start;
    BlockBoundary(min, free', i);
    assert !IsFree(free, s - 1) && !Covers(b, s - 1);
    BoundaryBlock(free, s);
  }

  lemma ReleasedEnd(min: nat, free: seq<Block>, b: Block, free': seq<Block>, i: nat)
    requires min > 0 && Released(min, free, b, free') && i < |free'|
    ensures free'[i].End() == b.End() || exists j :: 0 <= j < |free| && free[j].End() == free'[i].End()
  {
    var e: int := free'[i].End();
    BlockBoundary(min, free', i);
    assert !IsFree(free, e) && !Covers(b, e);
    BoundaryBlock(free, e);
  }

  /** Releasing a block whose own boundaries are on the grid or at edges. */
  lemma ReleaseKeepsEdges(min: nat, phys: nat, edges: set<int>, free: seq<Block>, b: Block, free': seq<Block>)
    requires min > 0 && EdgeAligned(min, phys, edges, free) && Released(min, free, b, free')
    requires OnGrid(min, phys, b.start) || b.start in edges
    requires OnGrid(min, phys, b.End()) || b.End() in edges
    ensures EdgeAligned(min, phys, edges, free')
  {
    forall i | 0 <= i < |free'|
      ensures OnGrid(min, phys, free'[i].start) || free'[i].start in edges
      ensures OnGrid(min, phys, free'[i].End()) || free'[i].End() in edges
    {
      ReleasedStart(min, free, b, free', i);
      ReleasedEnd(min, free, b, free', i);
    }
  }

  /** The comments on the two leaks say that they happen only at the very start
      and the very end of the heap.  An offset off the grid leaks in the middle:
      here a 1-byte request at offset 5 loses bytes [1024, 1029) and [1061, 1088). */
  lemma LeakInTheMiddle()
    ensures var free := [Block(1024, 64), Block(2048, 64)];
      var k := FirstFit(32, 0, free, RoundUp(32, 1), 32, 5);
      && Canonical(32, free) && EdgeAligned(32, 0, {}, free)
      && k == 0
      && Split(32, free, k, PreSize(32, 0, free[k].start, 32, 5), RoundUp(32, 1)) == [Block(2048, 64)]
  {
    hide RoundUp, PreSize, FirstFit;
    FiveBytesSkipped();
    var free := [Block(1024, 64), Block(2048, 64)];
    assert Fits(32, 0, free[0], 32, 32, 5);
    assert Pieces(32, free[0], 5, 32) == [];
    assert free[..0] + Pieces(32, free[0], 5, 32) + free[1..] == [Block(2048, 64)];
  }

  lemma FiveBytesSkipped()
    ensures RoundUp(32, 1) == 32 && PreSize(32, 0, 1024, 32, 5) == 5
  {
  }
}
