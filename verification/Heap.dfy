/** The allocator as a mutable object: the global free list and counters, with
    ghost fields for what the rest of the program holds.  Each method performs
    one transition of HeapState. */
module HeapModel {
  import opened Arith
  import opened FreeList
  import opened Malloc
  import opened HeapState

  /** offsetof ( struct autosized_block, data ): the size stored before the data. */
  const HEADER: nat := 8

  /** The result for zero-length blocks. */
  const NOWHERE: nat := WORD - 1

  /** Pointer difference as an ssize_t. */
  function PtrDiff(a: int, b: int): (d: int)
    ensures 0 <= a < HALF && 0 <= b < HALF ==> d == a - b
  {
    var u := (a - b) % WORD;
    if u < HALF then u else u - WORD
  }

  function ReadByte(mem: map<int, int>, a: int): int {
    if a in mem then mem[a] else 0
  }

  function Copy(mem: map<int, int>, dest: int, src: int, len: nat): (r: map<int, int>)
    ensures forall a :: dest <= a < dest + len ==> ReadByte(r, a) == ReadByte(mem, a - dest + src)
    ensures forall a :: !(dest <= a < dest + len) ==> ReadByte(r, a) == ReadByte(mem, a)
  {
    if len == 0 then mem
    else
      var m := Copy(mem, dest, src, len - 1);
      var last := dest + len - 1;
      var r := m[last := ReadByte(mem, last - dest + src)];
      assert forall a :: a != last ==> ReadByte(r, a) == ReadByte(m, a);
      r
  }

  lemma RoundUpExact(min: nat, n: nat)
    requires 0 < min < HALF && n < HALF && n % min == 0
    ensures RoundUp(min, n) == n
  {
    hide RoundUp;
    if n > 0 { MultiplesApart(n, RoundUp(min, n), min); }
  }

  /** What mpopulate needs before it may free the new memory. */
  lemma PopulateReady(c: Config, s: State)
    requires Inv(c, s)
    ensures ConfigOk(c)
    ensures forall i :: 0 <= i < |s.free| ==> s.free[i].size > 0 && s.free[i].End() < HALF
    ensures s.freemem < HALF && s.usedmem < HALF
  {
    hide Separated, IsFree, GridOk, SumLive, CacheOk;
    FreeBounds(c, s);
    PoolBound(s.pool);
  }

  lemma PopulateReleases(c: Config, s: State, start: nat, len: nat)
    requires Inv(c, s) && len > 0 && len % c.min == 0 && forall a :: start <= a < start + len ==> a !in s.pool
    ensures Released(c.min, s.free, Block(start, len), FreeInto(s.free, Block(start, len)))
  {
    hide Separated, IsFree, GridOk, SumLive, CacheOk, Released, FreeInto;
    OutsidePool(c, s, Block(start, len));
    MultipleAtLeast(len, c.min);
    FreeIntoReleases(c.min, s.free, Block(start, len));
  }

  /** What the owner of a block needs before freeing it. */
  lemma ReleaseReady(c: Config, s: State, ptr: nat)
    requires Inv(c, s) && ptr in s.live
    ensures ConfigOk(c) && SizesOk(c.min, s.live) && ptr + RoundUp(c.min, s.live[ptr]) < HALF
    ensures forall i :: 0 <= i < |s.free| ==> s.free[i].size > 0 && s.free[i].End() < HALF
    ensures Released(c.min, s.free, Held(c.min, s.live, ptr), FreeInto(s.free, Held(c.min, s.live, ptr)))
    ensures s.freemem + RoundUp(c.min, s.live[ptr]) < WORD && RoundUp(c.min, s.live[ptr]) <= s.usedmem < HALF
  {
    hide Separated, IsFree, GridOk, SumLive, CacheOk, RoundUp, Released, FreeInto;
    PopulateReady(c, s);
    LiveReleasable(c, s, ptr);
    MultipleAtLeast(RoundUp(c.min, s.live[ptr]), c.min);
    FreeIntoReleases(c.min, s.free, Held(c.min, s.live, ptr));
  }

  /** Meeting the block below the one being freed. */
  lemma IntoAbsorb(free: seq<Block>, i: nat, b: Block)
    requires i < |free| && free[i].End() == b.start
    ensures FreeInto(free[i..], b) == FreeInto(free[i+1..], Block(free[i].start, free[i].size + b.size))
  {
    assert free[i..][0] == free[i] && free[i..][1..] == free[i+1..];
  }

  /** Passing over a block further below. */
  lemma IntoPass(free: seq<Block>, i: nat, b: Block)
    requires i < |free| && free[i].End() != b.start && free[i].start < b.End()
    ensures free[..i] + FreeInto(free[i..], b) == free[..i+1] + FreeInto(free[i+1..], b)
  {
    hide FreeInto;
    PassOne(free[i..], b);
    assert free[i..][1..] == free[i+1..];
    assert free[..i+1] == free[..i] + [free[i]];
  }

  lemma PassOne(free: seq<Block>, b: Block)
    requires free != [] && free[0].End() != b.start && free[0].start < b.End()
    ensures FreeInto(free, b) == [free[0]] + FreeInto(free[1..], b)
  {
  }

  lemma WrapCancels(u: nat, l: nat)
    requires u < HALF && l < HALF
    ensures ((u - l) % WORD + l) % WORD == u
  {
  }

  class Heap {
    const c: Config
    var free: seq<Block>
    var freemem: nat
    var usedmem: nat
    var maxusedmem: nat
    var cache: seq<(nat, nat)>
    /** Sizes stored in the headers of autosized blocks. */
    var sizes: map<nat, nat>
    /** Byte contents of memory. */
    var mem: map<int, int>
    ghost var live: map<nat, nat>
    ghost var pool: set<int>
    ghost var leaked: nat
    ghost var edges: set<int>
    ghost var onGrid: bool

    ghost function St(): State
      reads this
    {
      State(free, freemem, usedmem, maxusedmem, live, cache, pool, leaked, edges, onGrid)
    }

    ghost predicate Valid()
      reads this
    {
      Inv(c, St())
    }

    constructor (c: Config)
      requires ConfigOk(c)
      ensures Valid() && this.c == c && St() == NO_HEAP
    {
      this.c := c;
      free, freemem, usedmem, maxusedmem := [], 0, 0, 0;
      sizes, mem, cache := map[], map[], [];
      live, pool, leaked, edges, onGrid := map[], {}, 0, {}, true;
    }

    /** check_blocks compares neighbours only, yet decides the whole invariant. */
    method CheckBlocks() returns (ok: bool)
      ensures ok <==> Canonical(c.min, free) && forall i :: 0 <= i < |free| ==> free[i].End() < WORD
    {
      var i := 0;
      while i < |free|
        invariant 0 <= i <= |free|
        invariant Canonical(c.min, free[..i])
        invariant forall j :: 0 <= j < i ==> free[j].End() < WORD
      {
        if free[i].size < c.min || free[i].End() >= WORD {
          return false;
        }
        if i > 0 && !(free[i].start > free[i-1].End()) {
          return false;
        }
        assert forall j :: 0 <= j < i ==> free[..i][j] == free[j];
        assert forall j :: 0 <= j < i - 1 ==> free[..i][j].End() < free[..i][i-1].start;
        assert forall j :: 0 <= j < i ==> free[j].End() < free[i].start;
        i := i + 1;
      }
      assert free[..|free|] == free;
      return true;
    }

    /** The list part of free_memblock: insert and merge with the neighbours. */
    method InsertAndMerge(ptr: nat, actual: nat)
      requires ptr + actual < HALF
      requires forall i :: 0 <= i < |free| ==> free[i].size > 0 && free[i].End() < HALF
      modifies `free
      ensures free == FreeInto(old(free), Block(ptr, actual))
    {
      hide FreeInto, PtrDiff;
      var freeing := Block(ptr, actual);
      ghost var was := free;
      var i := 0;
      var gapAfter := -1;
      assert free[..0] == [] && free[0..] == free;
      while i < |free|
        invariant 0 <= i <= |free| && freeing.End() == ptr + actual && gapAfter < 0
        invariant forall j :: 0 <= j < |free| ==> free[j].size > 0 && free[j].End() < HALF
        invariant free[..i] + FreeInto(free[i..], freeing) == FreeInto(was, Block(ptr, actual))
        decreases |free| - i
      {
        var block := free[i];
        var gapBefore := PtrDiff(freeing.start, block.End());
        gapAfter := PtrDiff(block.start, freeing.End());
        if gapBefore == 0 {
          IntoAbsorb(free, i, freeing);
          ghost var before := free;
          free := free[..i] + free[i+1..];
          freeing := Block(block.start, block.size + freeing.size);
          assert free[..i] == before[..i] && free[i..] == before[i+1..];
        }
        if gapAfter >= 0 {
          break;
        }
        if gapBefore != 0 {
          IntoPass(free, i, freeing);
          i := i + 1;
        }
      }
      FinishInsert(freeing, i, gapAfter);
    }

    /** Insert before position `i`, merging the following block if adjacent. */
    method FinishInsert(freeing: Block, i: nat, gapAfter: int)
      requires i <= |free|
      requires i < |free| ==>
        gapAfter == free[i].start - freeing.End() >= 0 && free[i].End() != freeing.start
      requires i == |free| ==> gapAfter < 0
      modifies `free
      ensures free == old(free)[..i] + FreeInto(old(free)[i..], freeing)
    {
      ghost var was := free;
      free := free[..i] + [freeing] + free[i..];
      if gapAfter == 0 {
        var block := free[i+1];
        free := free[i := Block(freeing.start, freeing.size + block.size)];
        free := free[..i+1] + free[i+2..];
        assert free == was[..i] + [Block(freeing.start, freeing.size + was[i].size)] + was[i+1..];
        assert was[i..][1..] == was[i+1..];
      }
    }

    /** free_memblock: returns the rounded-up block to the free list.  The counters
        are size_t, and mpopulate relies on their wrapping. */
    method FreeMemblock(ptr: nat, size: nat)
      requires ConfigOk(c) && size < WORD
      requires ptr != 0 ==>
        && ptr + RoundUp(c.min, size) < HALF
        && forall i :: 0 <= i < |free| ==> free[i].size > 0 && free[i].End() < HALF
      modifies `free, `freemem, `usedmem
      ensures ptr == 0 ==> free == old(free) && freemem == old(freemem) && usedmem == old(usedmem)
      ensures ptr != 0 ==>
        && free == FreeInto(old(free), Block(ptr, RoundUp(c.min, size)))
        && freemem == (old(freemem) + RoundUp(c.min, size)) % WORD
        && usedmem == (old(usedmem) - RoundUp(c.min, size)) % WORD
    {
      if ptr == 0 {
        return;
      }
      var actual := RoundUp(c.min, size);
      InsertAndMerge(ptr, actual);
      freemem := (freemem + actual) % WORD;
      usedmem := (usedmem - actual) % WORD;
    }

    /** free_phys: free_memblock called by the owner of a live allocation. */
    method Release(ptr: nat, size: nat)
      requires Valid() && size < WORD
      requires ptr != 0 ==> ptr in live && live[ptr] == size
      requires forall i :: 0 <= i < |cache| ==> cache[i].0 != ptr
      modifies `free, `freemem, `usedmem, `live
      ensures Valid()
      ensures ptr == 0 ==> St() == old(St())
      ensures ptr != 0 ==> Freed(c, old(St()), ptr, St())
    {
      hide Inv, Released, RoundUp, FreeInto, SizesOk;
      if ptr != 0 {
        ghost var s := St();
        ReleaseReady(c, s, ptr);
        FreeMemblock(ptr, size);
        live := live - {ptr};
        FreedKeepsInv(c, s, ptr, St());
      }
    }

    /** mpopulate: add [start, start + len) to the pool, rounding the length down.
        With less than a unit, the heap is still as it should be only if a free
        block ends at `start`. */
    method Mpopulate(start: nat, len: nat)
      requires Valid()
      requires 0 < start && start + len < HALF && start !in pool
      requires forall a :: start <= a < start + len ==> a !in pool
      modifies `free, `freemem, `usedmem, `pool, `edges
      ensures Populated(c, old(St()), start, len, St())
      ensures Valid() <==> len >= c.min || EndsAt(old(free), start)
    {
      hide Inv, Released, RoundDown, IsPow2, Range, FreeInto, EndsAt;
      ghost var s := St();
      InvConfig(c, s);
      var len' := RoundDown(c.min, len);
      PopulateReady(c, s);
      AddMemory(start, len');
      if len' > 0 {
        PopulateReleases(c, s, start, len');
        pool := pool + Range(start, start + len');
        edges := edges + {start, start + len'};
      }
      PopulatedKeepsInv(c, s, start, len, St());
    }

    /** Free the new memory, then undo its effect on the used-memory counter. */
    method AddMemory(start: nat, len: nat)
      requires ConfigOk(c) && 0 < start && start + len < HALF && len % c.min == 0
      requires freemem < HALF && usedmem < HALF
      requires forall i :: 0 <= i < |free| ==> free[i].size > 0 && free[i].End() < HALF
      modifies `free, `freemem, `usedmem
      ensures free == FreeInto(old(free), Block(start, len))
      ensures freemem == old(freemem) + len && usedmem == old(usedmem)
    {
      hide RoundUp, FreeInto, IsPow2;
      RoundUpExact(c.min, len);
      WrapCancels(usedmem, len);
      FreeMemblock(start, len);
      usedmem := (usedmem + len) % WORD;
    }

    /** Split block `k` around [pre, pre + actual), leaking pieces too small to keep. */
    method SplitBlock(k: nat, pre: nat, actual: nat)
      requires k < |free| && actual > 0 && pre + actual <= free[k].size && c.min > 0
      modifies `free
      ensures free == Split(c.min, old(free), k, pre, actual)
    {
      var block := free[k];
      var postSize := block.size - pre - actual;
      if postSize >= c.min {
        free := free[..k+1] + [Block(block.start + pre + actual, postSize)] + free[k+1..];
      }
      free := free[k := Block(block.start, pre)];
      if pre < c.min {
        free := free[..k] + free[k+1..];
      }
    }

    /** The body of the search loop once a block with enough space is found. */
    method TakeBlock(k: nat, pre: nat, size: nat, align: nat, offset: nat) returns (ptr: nat)
      requires Valid() && Request(c, size, align)
      requires k < |free| && Fits(c.min, c.phys, free[k], RoundUp(c.min, size), align, offset)
      requires pre == PreSize(c.min, c.phys, free[k].start, align, offset)
      modifies `free, `freemem, `usedmem, `maxusedmem, `live, `leaked, `onGrid
      ensures TookFrom(c, old(St()), k, size, align, offset, St(), ptr)
      ensures Valid()
    {
      hide Separated, Canonical, IsFree, GridOk, SumLive, CacheOk, Split, RoundUp, PreSize, Sum, LeakOf, InRange;
      var actual := RoundUp(c.min, size);
      ghost var s := St();
      EnoughFree(c, s, k, actual);
      var block := free[k];
      SplitBlock(k, pre, actual);
      freemem := freemem - actual;
      usedmem := usedmem + actual;
      if usedmem > maxusedmem {
        maxusedmem := usedmem;
      }
      ptr := block.start + pre;
      live := live[ptr := size];
      leaked := leaked + LeakOf(c.min, block.size, pre, actual);
      onGrid := onGrid && offset % c.min == 0;
      TookKeepsInv(c, s, k, size, align, offset, St(), ptr);
    }

    /** discard_cache: the discarders give up one item, if any is left. */
    method DiscardCache() returns (discarded: nat)
      requires Valid()
      modifies `free, `freemem, `usedmem, `live, `cache
      ensures Valid()
      ensures old(cache) == [] ==> discarded == 0 && St() == old(St())
      ensures old(cache) != [] ==> discarded == 1 && Discarded(c, old(St()), St())
    {
      if cache == [] {
        return 0;
      }
      hide Separated, Canonical, IsFree, GridOk, SumLive;
      var (ptr, size) := cache[0];
      cache := cache[1..];
      assert Valid();
      assert ptr != 0 && size < WORD by { LiveReleasable(c, St(), ptr); }
      Release(ptr, size);
      return 1;
    }

    /** alloc_memblock. */
    method AllocMemblock(size: nat, align: nat, offset: nat) returns (ptr: nat)
      requires Valid() && size < WORD && (align == 0 || IsPow2(align))
      modifies `free, `freemem, `usedmem, `maxusedmem, `live, `leaked, `onGrid, `cache
      ensures AllocOutcome(c, old(St()), size, align, offset, St(), ptr)
      ensures Valid()
    {
      hide Inv, TookFrom, Discarded;
      assert ConfigOk(c) by { InvConfig(c, St()); }
      var actual := RoundUp(c.min, size);
      if actual == 0 {
        return 0;
      }
      ghost var s0 := St();
      while true
        invariant Valid()
        invariant forall s', p :: AllocOutcome(c, St(), size, align, offset, s', p)
                              ==> AllocOutcome(c, s0, size, align, offset, s', p)
        decreases |cache|
      {
        var i := 0;
        while i < |free|
          invariant 0 <= i <= |free|
          invariant forall j :: 0 <= j < i ==> !Fits(c.min, c.phys, free[j], actual, align, offset)
        {
          var block := free[i];
          var pre := PreSize(c.min, c.phys, block.start, align, offset);
          if block.size < pre || block.size - pre < actual {
            i := i + 1;
            continue;
          }
          assert i == FirstFit(c.min, c.phys, free, actual, align, offset);
          ptr := TakeBlock(i, pre, size, align, offset);
          return;
        }
        assert FirstFit(c.min, c.phys, free, actual, align, offset) == |free|;
        ghost var s := St();
        var discarded := DiscardCache();
        if discarded == 0 {
          return 0;
        }
        assert |St().cache| < |s.cache| by { DiscardShrinks(c, s, St()); }
      }
    }

    /** `ptr` came from malloc(): its block is live, not cached, and its header
        holds the size that was asked of alloc_memblock. */
    ghost predicate Autosized(ptr: nat)
      reads this
    {
      && HEADER <= ptr < HALF
      && var b := ptr - HEADER;
         b in live && b !in CacheKeys(cache) && b in sizes && sizes[b] == live[b] && HEADER <= live[b] < WORD
    }

    /** realloc(): allocate, copy, then free the old block.  The old contents
        survive up to the smaller size, nobody else's memory is written, and a
        failed reallocation touches nothing. */
    method Realloc(oldPtr: nat, newSize: nat) returns (ptr: nat, ghost mid: State)
      requires Valid() && newSize < WORD
      requires oldPtr == 0 || oldPtr == NOWHERE || Autosized(oldPtr)
      modifies this
      ensures Valid()
      ensures newSize == 0 ==> ptr == NOWHERE && mid == old(St())
      ensures newSize + HEADER >= WORD ==> ptr == 0 && mid == old(St())
      ensures 0 < newSize && newSize + HEADER < WORD ==>
        && ptr != NOWHERE && (ptr == 0 || ptr > HEADER)
        && AllocOutcome(c, old(St()), newSize + HEADER, 1, 0, mid, if ptr == 0 then 0 else ptr - HEADER)
      ensures ptr == 0 ==> St() == mid && mem == old(mem) && sizes == old(sizes)
      ensures ptr != 0 && ptr != NOWHERE ==>
        && Autosized(ptr) && live[ptr - HEADER] == newSize + HEADER
        && sizes == old(sizes)[ptr - HEADER := newSize + HEADER]
      ensures ptr == NOWHERE ==> sizes == old(sizes)
      ensures ptr != 0 && (oldPtr == 0 || oldPtr == NOWHERE) ==> St() == mid && mem == old(mem)
      ensures ptr != 0 && oldPtr != 0 && oldPtr != NOWHERE ==>
        && Freed(c, mid, oldPtr - HEADER, St())
        && (forall a :: ptr <= a < ptr + newSize && a - ptr < old(sizes[oldPtr - HEADER]) - HEADER
              ==> ReadByte(mem, a) == ReadByte(old(mem), a - ptr + oldPtr))
        && (forall a :: !(ptr <= a < ptr + newSize) ==> ReadByte(mem, a) == ReadByte(old(mem), a))
      ensures newSize == 0 ==> mem == old(mem)
    {
      hide Inv, AllocOutcome, Freed, Discarded;
      ptr, mid := NOWHERE, St();
      ghost var s := St();
      ghost var q := if oldPtr == 0 || oldPtr == NOWHERE then 0 else oldPtr - HEADER;
      if newSize != 0 {
        var total := (newSize + HEADER) % WORD;
        if total < newSize {
          return 0, mid;
        }
        OneIsPow2();
        var block := AllocMemblock(total, 1, 0);
        mid := St();
        AllocForRealloc(c, s, total, mid, block, q);
        if block == 0 {
          return 0, mid;
        }
        sizes := sizes[block := total];
        ptr := block + HEADER;
      }
      if oldPtr != 0 && oldPtr != NOWHERE {
        CopyAndFree(oldPtr, ptr, newSize);
      }
    }

    /** Copy the relevant part of the old data, then free the old block. */
    method CopyAndFree(oldPtr: nat, ptr: nat, newSize: nat)
      requires Valid() && Autosized(oldPtr)
      modifies `free, `freemem, `usedmem, `live, `mem
      ensures Valid() && Freed(c, old(St()), oldPtr - HEADER, St()) && live == old(live) - {oldPtr - HEADER}
      ensures forall a :: (ptr <= a < ptr + newSize && a - ptr < sizes[oldPtr - HEADER] - HEADER
                           ==> ReadByte(mem, a) == ReadByte(old(mem), a - ptr + oldPtr))
      ensures forall a :: !(ptr <= a < ptr + newSize) ==> ReadByte(mem, a) == ReadByte(old(mem), a)
      ensures newSize == 0 ==> mem == old(mem)
    {
      hide Inv, Freed, ReadByte;
      var oldTotal := sizes[oldPtr - HEADER];
      var oldSize := oldTotal - HEADER;
      mem := Copy(mem, ptr, oldPtr, if oldSize < newSize then oldSize else newSize);
      ReleaseUncached(oldPtr - HEADER, oldTotal);
    }

    /** free_memblock for a block that the caches do not hold. */
    method ReleaseUncached(ptr: nat, size: nat)
      requires Valid() && size < WORD && ptr in live && live[ptr] == size && ptr !in CacheKeys(cache)
      modifies `free, `freemem, `usedmem, `live
      ensures Valid() && Freed(c, old(St()), ptr, St())
      ensures live == old(live) - {ptr}
    {
      ghost var s := St();
      assert ptr != 0 by { LiveReleasable(c, St(), ptr); }
      forall i | 0 <= i < |cache| ensures cache[i].0 != ptr {
        assert cache[i].0 in CacheKeys(cache);
      }
      hide Inv, Freed;
      Release(ptr, size);
      FreedLive(c, s, ptr, St());
    }

    /** malloc(). */
    method Malloc(size: nat) returns (ptr: nat)
      requires Valid() && size < WORD
      modifies this
      ensures Valid()
      ensures size == 0 ==> ptr == NOWHERE && St() == old(St())
      ensures size + HEADER >= WORD ==> ptr == 0 && St() == old(St())
      ensures ptr == 0 || ptr == NOWHERE ==> sizes == old(sizes)
      ensures ptr != 0 && ptr != NOWHERE ==>
        && Autosized(ptr) && live[ptr - HEADER] == size + HEADER
        && sizes == old(sizes)[ptr - HEADER := size + HEADER]
      ensures 0 < size && size + HEADER < WORD ==>
        && ptr != NOWHERE && (ptr == 0 || ptr > HEADER)
        && AllocOutcome(c, old(St()), size + HEADER, 1, 0, St(), if ptr == 0 then 0 else ptr - HEADER)
      ensures mem == old(mem)
    {
      hide Inv, AllocOutcome, Freed;
      ghost var mid;
      ptr, mid := Realloc(0, size);
    }

    /** free(). */
    method Free(ptr: nat)
      requires Valid()
      requires ptr == 0 || ptr == NOWHERE || Autosized(ptr)
      modifies this
      ensures Valid()
      ensures ptr == 0 || ptr == NOWHERE ==> St() == old(St())
      ensures ptr != 0 && ptr != NOWHERE ==> Freed(c, old(St()), ptr - HEADER, St())
      ensures sizes == old(sizes) && mem == old(mem)
    {
      hide Inv, AllocOutcome, Freed;
      var p;
      ghost var mid;
      p, mid := Realloc(ptr, 0);
    }
  }

  lemma FreedLive(c: Config, s: State, ptr: nat, s': State)
    requires Freed(c, s, ptr, s')
    ensures s'.live == s.live - {ptr} && s'.cache == s.cache
  {
    hide Released;
  }

  lemma OneIsPow2()
    ensures IsPow2(1)
  {
    assert Pow2(0) == 1;
  }

  /** The allocation inside realloc() is new, and the block being reallocated
      survives it. */
  lemma AllocForRealloc(c: Config, s: State, size: nat, s': State, block: nat, q: nat)
    requires Inv(c, s) && size < WORD && AllocOutcome(c, s, size, 1, 0, s', block)
    ensures Inv(c, s')
    ensures block != 0 ==>
      && block in s'.live && s'.live[block] == size && block !in CacheKeys(s'.cache)
      && block + size < HALF
    ensures q in s.live && q !in CacheKeys(s.cache) ==>
      q in s'.live && s'.live[q] == s.live[q] && q !in CacheKeys(s'.cache) && q != block
  {
    hide Inv, AllocOutcome;
    OneIsPow2();
    AllocOutcomeSafe(c, s, size, 1, 0, s', block);
    AllocKeepsLive(c, s, size, 1, 0, s', block, q);
  }

  lemma InvConfig(c: Config, s: State)
    requires Inv(c, s)
    ensures ConfigOk(c)
  {
  }

  lemma DiscardShrinks(c: Config, s: State, t: State)
    requires Discarded(c, s, t)
    ensures t.cache == s.cache[1..] && |t.cache| < |s.cache|
  {
  }
}
