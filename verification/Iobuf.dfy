/** I/O buffers on top of the allocator.  A descriptor is either inline, right
    after its buffer in the same block, or detached in a block of its own; only
    the test `end == iobuf` tells the two apart when the buffer is freed. */
module Iobuf {
  import opened Arith
  import opened FreeList
  import opened Malloc
  import opened HeapState
  import opened HeapModel

  /** sizeof and alignof of struct io_buffer. */
  datatype IobConfig = IobConfig(size: nat, align: nat)

  ghost predicate IobConfigOk(k: IobConfig) {
    IsPow2(k.align) && 0 < k.align <= k.size < 0x1_0000
  }

  /** Minimum buffer length. */
  const IOB_ZLEN: nat := 64

  datatype IoBuffer = IoBuffer(head: nat, data: nat, tail: nat, end: nat)

  /** Smallest power of two that is at least `n`, by doubling from `p`. */
  function NextPow2From(p: nat, n: nat): (r: nat)
    requires p > 0
    ensures r >= n && r >= p
    decreases n - p
  {
    if p >= n then p else NextPow2From(2 * p, n)
  }

  function NextPow2(n: nat): (r: nat)
    ensures r >= n && r >= 1
  {
    NextPow2From(1, n)
  }

  lemma {:induction false} NextPow2Least(k: nat, n: nat)
    ensures IsPow2(NextPow2From(Pow2(k), n))
    ensures Pow2(k) < n ==> NextPow2From(Pow2(k), n) < 2 * n
    decreases n - Pow2(k)
  {
    if Pow2(k) < n {
      assert Pow2(k + 1) == 2 * Pow2(k);
      NextPow2Least(k + 1, n);
    }
  }

  lemma NextPow2IsPow2(n: nat)
    ensures IsPow2(NextPow2(n))
    ensures n > 1 ==> NextPow2(n) < 2 * n
  {
    NextPow2Least(0, n);
    assert Pow2(0) == 1;
  }

  /** The rounded alignment is the least power of two not below `n`. */
  lemma NextPow2Minimal(n: nat, p: nat)
    requires IsPow2(p) && p >= n
    ensures NextPow2(n) <= p
  {
    NextPow2IsPow2(n);
    if p < NextPow2(n) {
      SmallerDividesLarger(p, NextPow2(n));
      MultiplesApart(p, NextPow2(n), p);
    }
  }

  /** Alignment actually requested: at least the padding, rounded up. */
  function EffectiveAlign(k: IobConfig, align: nat): (a: nat)
    requires k.size + k.align >= 1
  {
    var padding := k.size + k.align - 1;
    NextPow2(if align < padding then padding else align)
  }

  /** Length of an inline buffer, padded so that the descriptor is aligned. */
  function InlineLen(k: IobConfig, len: nat, offset: nat): (r: nat)
    requires k.align > 0
    ensures len <= r < len + k.align
  {
    len + (-(len as int) - offset) % k.align
  }

  lemma InlineLenAligned(k: IobConfig, len: nat, offset: nat)
    requires k.align > 0
    ensures (offset + InlineLen(k, len, offset)) % k.align == 0
  {
    AlignUp(len + offset, 0, k.align);
  }

  /** An inline descriptor is physically aligned. */
  lemma InlineDescriptorAligned(k: IobConfig, phys: nat, data: nat, len: nat, align: nat, offset: nat)
    requires IobConfigOk(k) && IsPow2(align) && align >= k.align
    requires (data + phys) % align == offset % align
    ensures (data + InlineLen(k, len, offset) + phys) % k.align == 0
  {
    SmallerDividesLarger(k.align, align);
    ModOfMod(data + phys, offset, align, k.align);
    InlineLenAligned(k, len, offset);
    var n := InlineLen(k, len, offset);
    var q := (data + phys) / k.align - offset / k.align;
    assert data + phys == offset + q * k.align;
    ModAddMultiple(offset + n, q, k.align);
  }

  /** A buffer aligned on its own rounded size never crosses a multiple of it. */
  lemma NeverCrosses(phys: nat, data: nat, len: nat, align: nat)
    requires IsPow2(align) && align >= NextPow2(len) && len > 0
    requires (data + phys) % align == 0
    ensures (data + phys) / NextPow2(len) == (data + phys + len - 1) / NextPow2(len)
  {
    hide NextPow2, IsPow2;
    var p := NextPow2(len);
    NextPow2IsPow2(len);
    SmallerDividesLarger(p, align);
    ModOfMod(data + phys, 0, align, p);
    var q := (data + phys) / p;
    assert data + phys == q * p;
    DivModUnique(data + phys + len - 1, q, len - 1, p);
  }

  lemma OwnSizeAligned(k: IobConfig, phys: nat, data: nat, len: nat)
    requires IobConfigOk(k) && len > 0
    requires (data + phys) % EffectiveAlign(k, len) == 0 % EffectiveAlign(k, len)
    ensures (data + phys) / NextPow2(len) == (data + phys + len - 1) / NextPow2(len)
  {
    hide NextPow2, IsPow2;
    var padding := k.size + k.align - 1;
    NextPow2IsPow2(if len < padding then padding else len);
    NextPow2Minimal(len, EffectiveAlign(k, len));
    NeverCrosses(phys, data, len, EffectiveAlign(k, len));
  }

  /** The allocator's disjointness is what makes the inline test sound: a detached
      descriptor, which sits HEADER bytes into its own block, can never be at the
      end of the buffer it describes. */
  lemma DetachedIsNotAtEnd(c: Config, s: State, head: nat, block: nat)
    requires Inv(c, s) && head in s.live && block in s.live && head != block && s.live[head] > 0
    requires s.live[block] > HEADER
    ensures block + HEADER != head + s.live[head]
  {
    var h, b := Held(c.min, s.live, head), Held(c.min, s.live, block);
    assert Disjoint(h, b);
    assert h.size >= s.live[head] && b.size >= s.live[block];
  }

  /** The blocks behind a descriptor at `iob`, as alloc_iob_raw took them. */
  ghost predicate Backed(k: IobConfig, live: map<nat, nat>, iob: nat, r: IoBuffer, inline: bool) {
    && r.head <= r.data <= r.tail <= r.end
    && r.head in live
    && (if inline then iob == r.end && live[r.head] == r.end - r.head + k.size
        else
          && r.end > r.head && live[r.head] == r.end - r.head
          && iob >= HEADER && iob - HEADER in live && iob - HEADER != r.head
          && live[iob - HEADER] == k.size + HEADER)
  }

  /** `end == iobuf` holds exactly for inline descriptors. */
  lemma InlineTestExact(c: Config, k: IobConfig, s: State, iob: nat, r: IoBuffer, inline: bool)
    requires Inv(c, s) && IobConfigOk(k) && Backed(k, s.live, iob, r, inline)
    ensures r.end == iob <==> inline
  {
    if !inline {
      DetachedIsNotAtEnd(c, s, r.head, iob - HEADER);
    }
  }

  // ------------------------------------------------------------------------
  // The descriptors in use
  // ------------------------------------------------------------------------

  ghost function BlocksOf(iob: nat, r: IoBuffer, inline: bool): set<int> {
    if inline then {r.head as int} else {r.head as int, iob - HEADER}
  }

  /** A descriptor's blocks are its own to free: live, outside the caches, and
      with the size in the header if detached. */
  ghost predicate Owned(k: IobConfig, s: State, sizes: map<nat, nat>, iob: nat, r: IoBuffer, inline: bool) {
    && Backed(k, s.live, iob, r, inline)
    && r.head !in CacheKeys(s.cache)
    && (!inline ==>
          && iob - HEADER !in CacheKeys(s.cache)
          && iob - HEADER in sizes && sizes[iob - HEADER] == k.size + HEADER)
  }

  /** Every descriptor in use owns its blocks, and no two share one. */
  ghost predicate AllOwned(k: IobConfig, s: State, sizes: map<nat, nat>, iobs: map<nat, IoBuffer>, inline: map<nat, bool>) {
    && iobs.Keys == inline.Keys
    && (forall b :: b in iobs ==> Owned(k, s, sizes, b, iobs[b], inline[b]))
    && (forall b, d :: b in iobs && d in iobs && b != d ==>
          BlocksOf(b, iobs[b], inline[b]) !! BlocksOf(d, iobs[d], inline[d]))
  }

  ghost predicate SizesSurvive(s: State, sizes: map<nat, nat>, sizes': map<nat, nat>) {
    forall p :: p in sizes && p in s.live && p !in CacheKeys(s.cache) ==> p in sizes' && sizes'[p] == sizes[p]
  }

  /** Descriptors are unaffected by what others do to the heap. */
  lemma OwnedStable(k: IobConfig, s: State, sizes: map<nat, nat>, iobs: map<nat, IoBuffer>, inline: map<nat, bool>,
                    s': State, sizes': map<nat, nat>)
    requires AllOwned(k, s, sizes, iobs, inline) && Survive(s, s') && SizesSurvive(s, sizes, sizes')
    ensures AllOwned(k, s', sizes', iobs, inline)
  {
  }

  lemma SameAddressSharesBlock(c: Config, k: IobConfig, s: State, sizes: map<nat, nat>,
                               iob: nat, r: IoBuffer, i: bool, r': IoBuffer, i': bool)
    requires Inv(c, s) && IobConfigOk(k)
    requires Owned(k, s, sizes, iob, r, i) && Owned(k, s, sizes, iob, r', i')
    ensures !(BlocksOf(iob, r, i) !! BlocksOf(iob, r', i'))
  {
    hide Inv;
    var p := if i then r.head else iob - HEADER;
    var q := if i' then r'.head else iob - HEADER;
    OneOwner(c, s, p, q, iob);
    assert p as int in BlocksOf(iob, r, i) && p as int in BlocksOf(iob, r', i');
  }

  /** A descriptor backed by new blocks is at a new address and joins the others. */
  lemma OwnedAdd(c: Config, k: IobConfig, s: State, sizes: map<nat, nat>, iobs: map<nat, IoBuffer>, inline: map<nat, bool>,
                 iob: nat, r: IoBuffer, i: bool)
    requires Inv(c, s) && IobConfigOk(k) && AllOwned(k, s, sizes, iobs, inline)
    requires Owned(k, s, sizes, iob, r, i)
    requires forall b :: b in iobs ==> BlocksOf(b, iobs[b], inline[b]) !! BlocksOf(iob, r, i)
    ensures iob !in iobs
    ensures AllOwned(k, s, sizes, iobs[iob := r], inline[iob := i])
  {
    hide Inv, Owned, BlocksOf;
    if iob in iobs {
      SameAddressSharesBlock(c, k, s, sizes, iob, r, i, iobs[iob], inline[iob]);
    }
  }

  lemma OwnedRemove(k: IobConfig, s: State, sizes: map<nat, nat>, iobs: map<nat, IoBuffer>, inline: map<nat, bool>, iob: nat)
    requires AllOwned(k, s, sizes, iobs, inline)
    ensures AllOwned(k, s, sizes, iobs - {iob}, inline - {iob})
  {
    hide Owned, BlocksOf;
  }

  ghost function Bytes(mem: map<int, int>, at: int, len: nat): (r: seq<int>)
    ensures |r| == len && forall i :: 0 <= i < len ==> r[i] == ReadByte(mem, at + i)
  {
    seq(len, i requires 0 <= i => ReadByte(mem, at + i))
  }

  /** The data in a buffer. */
  ghost function Data(mem: map<int, int>, r: IoBuffer): seq<int> {
    if r.data <= r.tail then Bytes(mem, r.data, r.tail - r.data) else []
  }

  lemma RetailOwned(k: IobConfig, s: State, sizes: map<nat, nat>, iob: nat, r: IoBuffer, r': IoBuffer, i: bool)
    requires Owned(k, s, sizes, iob, r, i) && r'.head == r.head <= r'.data <= r'.tail <= r'.end == r.end
    ensures Owned(k, s, sizes, iob, r', i) && BlocksOf(iob, r', i) == BlocksOf(iob, r, i)
  {
  }

  /** Moving the data pointers within the buffer does not change what it owns. */
  lemma OwnedRetail(k: IobConfig, s: State, sizes: map<nat, nat>, iobs: map<nat, IoBuffer>, inline: map<nat, bool>,
                    iob: nat, r: IoBuffer)
    requires AllOwned(k, s, sizes, iobs, inline) && iob in iobs
    requires r.head == iobs[iob].head <= r.data <= r.tail <= r.end == iobs[iob].end
    ensures AllOwned(k, s, sizes, iobs[iob := r], inline)
  {
    hide Owned, BlocksOf;
    var iobs' := iobs[iob := r];
    RetailOwned(k, s, sizes, iob, iobs[iob], r, inline[iob]);
    forall b | b in iobs'
      ensures Owned(k, s, sizes, b, iobs'[b], inline[b]) && BlocksOf(b, iobs'[b], inline[b]) == BlocksOf(b, iobs[b], inline[b])
    {
    }
  }

  lemma Ordered(k: IobConfig, s: State, sizes: map<nat, nat>, iobs: map<nat, IoBuffer>, inline: map<nat, bool>, b: nat)
    requires AllOwned(k, s, sizes, iobs, inline) && b in iobs
    ensures iobs[b].head <= iobs[b].data <= iobs[b].tail <= iobs[b].end
  {
    assert Owned(k, s, sizes, b, iobs[b], inline[b]);
  }

  /** No byte lies in two buffers. */
  lemma BuffersApart(c: Config, k: IobConfig, s: State, sizes: map<nat, nat>, iobs: map<nat, IoBuffer>, inline: map<nat, bool>,
                     b: nat, d: nat, a: int)
    requires Inv(c, s) && AllOwned(k, s, sizes, iobs, inline) && b in iobs && d in iobs && b != d
    requires iobs[b].head <= a < iobs[b].end
    ensures !(iobs[d].head <= a < iobs[d].end)
  {
    hide Inv;
    assert Owned(k, s, sizes, b, iobs[b], inline[b]) && Owned(k, s, sizes, d, iobs[d], inline[d]);
    assert BlocksOf(b, iobs[b], inline[b]) !! BlocksOf(d, iobs[d], inline[d]);
    assert iobs[b].head as int in BlocksOf(b, iobs[b], inline[b]) && iobs[d].head as int in BlocksOf(d, iobs[d], inline[d]);
    if iobs[d].head <= a < iobs[d].end { OneOwner(c, s, iobs[b].head, iobs[d].head, a); }
  }

  /** Writing inside one buffer leaves the data of the others alone. */
  lemma OthersKept(c: Config, k: IobConfig, s: State, sizes: map<nat, nat>, iobs: map<nat, IoBuffer>, inline: map<nat, bool>,
                   iob: nat, mem: map<int, int>, mem': map<int, int>, b: nat)
    requires Inv(c, s) && AllOwned(k, s, sizes, iobs, inline) && iob in iobs && b in iobs && b != iob
    requires forall a :: !(iobs[iob].head <= a < iobs[iob].end) ==> ReadByte(mem', a) == ReadByte(mem, a)
    ensures Data(mem', iobs[b]) == Data(mem, iobs[b])
  {
    hide Inv, AllOwned, ReadByte;
    var r := iobs[b];
    Ordered(k, s, sizes, iobs, inline, b);
    forall i | 0 <= i < |Data(mem, r)| ensures Data(mem', r)[i] == Data(mem, r)[i] {
      BuffersApart(c, k, s, sizes, iobs, inline, b, iob, r.data + i);
    }
  }

  lemma Appended(mem: map<int, int>, mem': map<int, int>, r: IoBuffer, src: int, len: nat)
    requires r.data <= r.tail
    requires forall a :: r.tail <= a < r.tail + len ==> ReadByte(mem', a) == ReadByte(mem, a - r.tail + src)
    requires forall a :: !(r.tail <= a < r.tail + len) ==> ReadByte(mem', a) == ReadByte(mem, a)
    ensures Data(mem', r.(tail := r.tail + len)) == Data(mem, r) + Bytes(mem, src, len)
  {
    hide ReadByte;
    var d, d' := Data(mem, r), Data(mem', r.(tail := r.tail + len));
    forall i | 0 <= i < |d'| ensures d'[i] == (d + Bytes(mem, src, len))[i] {
      assert d'[i] == ReadByte(mem', r.data + i);
    }
  }

  lemma NoData(mem: map<int, int>, r: IoBuffer)
    ensures r.data == r.tail ==> Data(mem, r) == []
  {
  }

  /** Cutting the data in two. */
  lemma Pulled(mem: map<int, int>, was: map<int, int>, r: IoBuffer, len: nat)
    requires r.data + len <= r.tail && Data(mem, r) == Data(was, r)
    ensures Bytes(was, r.data, len) + Data(mem, r.(data := r.data + len)) == Data(was, r)
    ensures |Bytes(was, r.data, len)| == len
  {
    hide ReadByte;
    var d, d' := Data(was, r), Data(mem, r.(data := r.data + len));
    forall i | 0 <= i < |d| ensures (Bytes(was, r.data, len) + d')[i] == d[i] {
      assert Data(mem, r)[i] == d[i];
    }
  }

  /** Distinct buffers. */
  ghost predicate Listed(list: seq<nat>, iobs: map<nat, IoBuffer>) {
    && (forall i :: 0 <= i < |list| ==> list[i] in iobs)
    && (forall i, j :: 0 <= i < j < |list| ==> list[i] != list[j])
  }

  ghost function Elements(list: seq<nat>): set<nat> {
    set i | 0 <= i < |list| :: list[i]
  }

  /** The lengths of the data, added up. */
  ghost function Total(list: seq<nat>, iobs: map<nat, IoBuffer>): int
    requires forall i :: 0 <= i < |list| ==> list[i] in iobs
  {
    if list == [] then 0 else iobs[list[0]].tail - iobs[list[0]].data + Total(list[1..], iobs)
  }

  lemma TotalHead(list: seq<nat>, iobs: map<nat, IoBuffer>)
    requires forall i :: 0 <= i < |list| ==> list[i] in iobs
    ensures list == [] ==> Total(list, iobs) == 0
    ensures list != [] ==> Total(list, iobs) == iobs[list[0]].tail - iobs[list[0]].data + Total(list[1..], iobs)
  {
  }

  /** The data, one after the other. */
  ghost function Joined(list: seq<nat>, iobs: map<nat, IoBuffer>, mem: map<int, int>): seq<int>
    requires forall i :: 0 <= i < |list| ==> list[i] in iobs
  {
    if list == [] then [] else Data(mem, iobs[list[0]]) + Joined(list[1..], iobs, mem)
  }

  lemma JoinedHead(list: seq<nat>, iobs: map<nat, IoBuffer>, mem: map<int, int>)
    requires forall i :: 0 <= i < |list| ==> list[i] in iobs
    ensures list == [] ==> Joined(list, iobs, mem) == []
    ensures list != [] ==> Joined(list, iobs, mem) == Data(mem, iobs[list[0]]) + Joined(list[1..], iobs, mem)
  {
  }

  lemma {:induction false} SameLists(list: seq<nat>, iobs: map<nat, IoBuffer>, iobs': map<nat, IoBuffer>, mem: map<int, int>)
    requires forall i :: 0 <= i < |list| ==> list[i] in iobs && list[i] in iobs' && iobs'[list[i]] == iobs[list[i]]
    ensures Total(list, iobs') == Total(list, iobs) && Joined(list, iobs', mem) == Joined(list, iobs, mem)
  {
    if list != [] { SameLists(list[1..], iobs, iobs', mem); }
  }

  lemma {:induction false} TotalPositive(k: IobConfig, s: State, sizes: map<nat, nat>, iobs: map<nat, IoBuffer>, inline: map<nat, bool>,
                      was: map<nat, IoBuffer>, list: seq<nat>)
    requires AllOwned(k, s, sizes, iobs, inline)
    requires forall i :: 0 <= i < |list| ==> list[i] in was && list[i] in iobs && iobs[list[i]] == was[list[i]]
    ensures Total(list, was) >= 0
  {
    hide AllOwned;
    if list != [] {
      Ordered(k, s, sizes, iobs, inline, list[0]);
      TotalPositive(k, s, sizes, iobs, inline, was, list[1..]);
    }
  }

  /** The bytes of the listed data. */
  ghost function Occupied(list: seq<nat>, iobs: map<nat, IoBuffer>): set<int>
    requires forall i :: 0 <= i < |list| ==> list[i] in iobs
  {
    if list == [] then {} else Range(iobs[list[0]].data, iobs[list[0]].tail) + Occupied(list[1..], iobs)
  }

  lemma {:induction false} OccupiedBy(list: seq<nat>, iobs: map<nat, IoBuffer>, a: int) returns (i: nat)
    requires (forall i :: 0 <= i < |list| ==> list[i] in iobs) && a in Occupied(list, iobs)
    ensures i < |list| && iobs[list[i]].data <= a < iobs[list[i]].tail
  {
    if iobs[list[0]].data <= a < iobs[list[0]].tail {
      i := 0;
    } else {
      i := OccupiedBy(list[1..], iobs, a);
      i := i + 1;
    }
  }

  /** A byte of a buffer is in the pool. */
  lemma InPool(c: Config, k: IobConfig, s: State, sizes: map<nat, nat>, iobs: map<nat, IoBuffer>, inline: map<nat, bool>, b: nat, a: int)
    requires Inv(c, s) && AllOwned(k, s, sizes, iobs, inline) && b in iobs && iobs[b].head <= a < iobs[b].end
    ensures a in s.pool
  {
    assert Owned(k, s, sizes, b, iobs[b], inline[b]);
    var h := Held(c.min, s.live, iobs[b].head);
    assert h.size >= s.live[iobs[b].head];
    assert Covers(h, a);
  }

  /** Buffers do not overlap, so their lengths add up to no more than the pool. */
  lemma {:induction false} TotalIsBytes(c: Config, k: IobConfig, s: State, sizes: map<nat, nat>, iobs: map<nat, IoBuffer>,
                                        inline: map<nat, bool>, list: seq<nat>)
    requires Inv(c, s) && AllOwned(k, s, sizes, iobs, inline) && Listed(list, iobs)
    ensures |Occupied(list, iobs)| == Total(list, iobs) && Occupied(list, iobs) <= s.pool
  {
    hide Inv, AllOwned;
    if list != [] {
      var r, rest := iobs[list[0]], list[1..];
      Ordered(k, s, sizes, iobs, inline, list[0]);
      TotalIsBytes(c, k, s, sizes, iobs, inline, rest);
      RangeCard(r.data, r.tail);
      forall a | r.data <= a < r.tail ensures a in s.pool && a !in Occupied(rest, iobs) {
        InPool(c, k, s, sizes, iobs, inline, list[0], a);
        if a in Occupied(rest, iobs) {
          var i := OccupiedBy(rest, iobs, a);
          Ordered(k, s, sizes, iobs, inline, rest[i]);
          BuffersApart(c, k, s, sizes, iobs, inline, list[0], rest[i], a);
        }
      }
    }
  }

  lemma TotalFits(c: Config, k: IobConfig, s: State, sizes: map<nat, nat>, iobs: map<nat, IoBuffer>, inline: map<nat, bool>, list: seq<nat>)
    requires Inv(c, s) && AllOwned(k, s, sizes, iobs, inline) && Listed(list, iobs)
    ensures Total(list, iobs) < WORD
  {
    TotalIsBytes(c, k, s, sizes, iobs, inline, list);
    SubsetCard(Occupied(list, iobs), s.pool);
    PoolBound(s.pool);
  }

  lemma OneFits(c: Config, k: IobConfig, s: State, sizes: map<nat, nat>, iobs: map<nat, IoBuffer>, inline: map<nat, bool>, b: nat)
    requires Inv(c, s) && AllOwned(k, s, sizes, iobs, inline) && b in iobs
    ensures iobs[b].tail - iobs[b].data < WORD
  {
    hide Inv, AllOwned;
    TotalFits(c, k, s, sizes, iobs, inline, [b]);
    assert [b][1..] == [];
  }

  /** A descriptor is never at address zero. */
  lemma NonNull(c: Config, k: IobConfig, s: State, sizes: map<nat, nat>, iobs: map<nat, IoBuffer>, inline: map<nat, bool>, b: nat)
    requires Inv(c, s) && AllOwned(k, s, sizes, iobs, inline) && b in iobs
    ensures b != 0
  {
    hide Inv;
    NullNotLive(c, s);
    assert Owned(k, s, sizes, b, iobs[b], inline[b]);
  }

  lemma JoinedOne(list: seq<nat>, iobs: map<nat, IoBuffer>, mem: map<int, int>)
    requires |list| == 1 && list[0] in iobs
    ensures Joined(list, iobs, mem) == Data(mem, iobs[list[0]]) && Elements(list) == {list[0]}
  {
    assert Joined(list[1..], iobs, mem) == [];
  }

  /** The allocator finds no room for `size` bytes, not even without the caches. */
  ghost predicate NoRoom(c: Config, s: State, size: nat, align: nat, offset: nat, s': State) {
    && 0 < c.min < WORD && size < WORD && AllocOutcome(c, s, size, align, offset, s', 0)
  }

  /** How alloc_iob_raw() may fail: the alignment cannot be rounded up, or there is no
      room for buffer and descriptor in one block, or, if they do not go together, for
      the buffer or then for the descriptor. */
  ghost predicate RawFails(c: Config, k: IobConfig, s: State, len: nat, align: nat, offset: nat, s': State)
    requires k.align > 0
  {
    var a := EffectiveAlign(k, align);
    if a >= WORD then s' == s
    else if len + k.size + k.align - 1 <= a then NoRoom(c, s, InlineLen(k, len, offset) + k.size, a, offset, s')
    else NoRoom(c, s, len, a, offset, s') || NoDescriptor(c, k, s, len, a, offset, s')
  }

  ghost predicate NoDescriptor(c: Config, k: IobConfig, s: State, len: nat, a: nat, offset: nat, s': State) {
    && 0 < c.min < WORD && len < WORD
    && exists t: State, u: State, data: nat ::
         data != 0 && AllocOutcome(c, s, len, a, offset, t, data) && NoRoom(c, t, k.size + HEADER, 1, 0, u) && Freed(c, u, data, s')
  }

  class IobPool {
    const k: IobConfig
    const heap: Heap
    var iobs: map<nat, IoBuffer>
    /** How each descriptor was allocated; free_iob does not get to see this. */
    ghost var inline: map<nat, bool>

    ghost predicate Valid()
      reads this, heap
    {
      && IobConfigOk(k) && heap.Valid()
      && AllOwned(k, heap.St(), heap.sizes, iobs, inline)
    }

    constructor (k: IobConfig, heap: Heap)
      requires IobConfigOk(k) && heap.Valid()
      ensures Valid() && this.k == k && this.heap == heap && iobs == map[]
    {
      this.k, this.heap := k, heap;
      iobs, inline := map[], map[];
    }

    /** alloc_iob_raw. */
    method AllocIobRaw(len: nat, align: nat, offset: nat) returns (iob: nat)
      requires Valid() && len < WORD && align < WORD && offset < WORD
      modifies this, heap
      ensures Valid()
      ensures iob == 0 ==> iobs == old(iobs) && inline == old(inline) && heap.live.Keys <= old(heap.live).Keys
      ensures heap.mem == old(heap.mem)
      ensures iob != 0 ==> iob !in old(iobs) && iob in iobs && inline == old(inline)[iob := inline[iob]]
      ensures iob != 0 ==> var r := iobs[iob];
        && iobs == old(iobs)[iob := r]
        && r.data == r.head && r.tail == r.head && r.end - r.head >= len
        && (r.head + heap.c.phys) % EffectiveAlign(k, align) == offset % EffectiveAlign(k, align)
        && (inline[iob] <==> len + k.size + k.align - 1 <= EffectiveAlign(k, align))
        && (inline[iob] ==> (iob + heap.c.phys) % k.align == 0)
        && r.end - r.head == if inline[iob] then InlineLen(k, len, offset) else len
      ensures iob == 0 ==> RawFails(heap.c, k, old(heap.St()), len, align, offset, heap.St())
    {
      hide Inv, AllOwned, AllocOutcome, NextPow2, InlineLen, IsPow2, NoDescriptor;
      var padding := k.size + k.align - 1;
      var a := NextPow2(if align < padding then padding else align);
      NextPow2IsPow2(if align < padding then padding else align);
      if a >= WORD {
        return 0;
      }
      var threshold := a - padding;
      var data, n;
      if len <= threshold {
        n := InlineLen(k, len, offset);
        data := AllocBlock(n + k.size, a, offset);
        if data == 0 {
          return 0;
        }
        iob := data + n;
        InlineDescriptorAligned(k, heap.c.phys, data, len, a, offset);
        inline := inline[iob := true];
      } else {
        n := len;
        iob, data := AllocDetached(len, a, offset);
        if iob == 0 {
          return 0;
        }
        inline := inline[iob := false];
      }
      OwnedAdd(heap.c, k, heap.St(), heap.sizes, old(iobs), old(inline), iob, IoBuffer(data, data, data, data + n), inline[iob]);
      iobs := iobs[iob := IoBuffer(data, data, data, data + n)];
    }

    /** A buffer and a descriptor in blocks of their own. */
    method AllocDetached(len: nat, align: nat, offset: nat) returns (iob: nat, data: nat)
      requires Valid() && len < WORD && IsPow2(align) && align > 0
      modifies heap
      ensures Valid() && heap.mem == old(heap.mem)
      ensures iob == 0 ==>
        && heap.live.Keys <= old(heap.live).Keys
        && (NoRoom(heap.c, old(heap.St()), len, align, offset, heap.St())
            || NoDescriptor(heap.c, k, old(heap.St()), len, align, offset, heap.St()))
      ensures iob != 0 ==>
        && data != 0 && Unclaimed(data, len) && (data + heap.c.phys) % align == offset % align
        && iob > HEADER && iob - HEADER != data && Unclaimed(iob - HEADER, k.size + HEADER)
        && iob - HEADER in heap.sizes && heap.sizes[iob - HEADER] == k.size + HEADER
    {
      hide Inv, AllOwned, AllocOutcome, IsPow2, Freed, NoDescriptor;
      ghost var s := heap.St();
      iob := 0;
      data := AllocBlock(len, align, offset);
      if data != 0 {
        ghost var t := heap.St();
        iob := AllocDescriptor(data);
        if iob == 0 {
          ghost var u := heap.St();
          FreeBlock(data, len);
          DescriptorFails(heap.c, k, s, len, align, offset, t, u, data, heap.St());
        }
      }
    }

    /** alloc_iob: the buffer never crosses a multiple of its own rounded size. */
    method AllocIob(len: nat) returns (iob: nat)
      requires Valid() && len < WORD
      modifies this, heap
      ensures Valid() && heap.mem == old(heap.mem)
      ensures iob == 0 ==> iobs == old(iobs)
      ensures iob == 0 ==>
        var n := if len < IOB_ZLEN then IOB_ZLEN else len; RawFails(heap.c, k, old(heap.St()), n, n, 0, heap.St())
      ensures iob != 0 ==>
        && iob !in old(iobs) && iob in iobs && iobs == old(iobs)[iob := iobs[iob]]
        && iobs[iob].head == iobs[iob].data == iobs[iob].tail
        && var n := if len < IOB_ZLEN then IOB_ZLEN else len;
           var p := iobs[iob].head + heap.c.phys;
           && p / NextPow2(n) == (p + n - 1) / NextPow2(n)
           && iobs[iob].end - iobs[iob].head ==
                if n + k.size + k.align - 1 <= EffectiveAlign(k, n) then InlineLen(k, n, 0) else n
    {
      hide Inv, AllOwned, NextPow2, IsPow2, RawFails, InlineLen;
      var n := if len < IOB_ZLEN then IOB_ZLEN else len;
      iob := AllocIobRaw(n, n, 0);
      if iob != 0 {
        OwnSizeAligned(k, heap.c.phys, iobs[iob].head, n);
      }
    }

    /** `p` is an allocation of this size that no descriptor owns yet. */
    ghost predicate Unclaimed(p: nat, size: nat)
      reads this, heap
    {
      && p in heap.live && heap.live[p] == size && p !in CacheKeys(heap.cache)
      && iobs.Keys == inline.Keys
      && forall b :: b in iobs ==> p as int !in BlocksOf(b, iobs[b], inline[b])
    }

    /** malloc_phys_offset, as seen by the descriptors. */
    method AllocBlock(size: nat, align: nat, offset: nat) returns (p: nat)
      requires Valid() && size < WORD && IsPow2(align) && align > 0
      modifies heap
      ensures Valid()
      ensures p != 0 ==> Unclaimed(p, size) && (p + heap.c.phys) % align == offset % align
      ensures heap.live.Keys <= old(heap.live).Keys + {p} && (p == 0 ==> p !in heap.live)
      ensures heap.mem == old(heap.mem)
      ensures 0 < heap.c.min < WORD && AllocOutcome(heap.c, old(heap.St()), size, align, offset, heap.St(), p)
    {
      hide Inv, AllOwned, AllocOutcome, IsPow2;
      ghost var s := heap.St();
      p := heap.AllocMemblock(size, align, offset);
      AllocOutcomeSafe(heap.c, s, size, align, offset, heap.St(), p);
      AllocSurvive(heap.c, s, size, align, offset, heap.St(), p);
      InvConfig(heap.c, s);
      OwnedStable(k, s, heap.sizes, iobs, inline, heap.St(), heap.sizes);
      NewIsUnclaimed(k, s, heap.sizes, iobs, inline, p);
      NullNotLive(heap.c, heap.St());
    }

    /** malloc ( sizeof ( *iobuf ) ), which must not disturb the buffer at `data`. */
    method AllocDescriptor(data: nat) returns (iob: nat)
      requires Valid() && data in heap.live && Unclaimed(data, heap.live[data])
      modifies heap
      ensures Valid() && data in old(heap.live) && Unclaimed(data, old(heap.live[data]))
      ensures heap.mem == old(heap.mem)
      ensures iob == 0 ==> heap.live.Keys <= old(heap.live).Keys
      ensures iob == 0 ==> NoRoom(heap.c, old(heap.St()), k.size + HEADER, 1, 0, heap.St())
      ensures iob != 0 ==>
        && iob > HEADER && iob - HEADER != data && Unclaimed(iob - HEADER, k.size + HEADER)
        && iob - HEADER in heap.sizes && heap.sizes[iob - HEADER] == k.size + HEADER
    {
      hide Inv, AllOwned, AllocOutcome, IsPow2, BlocksOf;
      ghost var s, sizes := heap.St(), heap.sizes;
      InvConfig(heap.c, s);
      iob := heap.Malloc(k.size);
      OneIsPow2();
      ghost var p := if iob == 0 then 0 else iob - HEADER;
      AllocOutcomeSafe(heap.c, s, k.size + HEADER, 1, 0, heap.St(), p);
      AllocSurvive(heap.c, s, k.size + HEADER, 1, 0, heap.St(), p);
      OwnedStable(k, s, sizes, iobs, inline, heap.St(), heap.sizes);
      NewIsUnclaimed(k, s, sizes, iobs, inline, p);
      NullNotLive(heap.c, heap.St());
    }

    /** free_phys for a block that no descriptor owns. */
    method FreeBlock(p: nat, size: nat)
      requires Valid() && size < WORD && Unclaimed(p, size)
      modifies heap
      ensures Valid() && Freed(heap.c, old(heap.St()), p, heap.St()) && heap.live == old(heap.live) - {p}
      ensures heap.cache == old(heap.cache) && heap.sizes == old(heap.sizes) && heap.mem == old(heap.mem)
    {
      hide Inv, AllOwned, Freed;
      ghost var s := heap.St();
      heap.ReleaseUncached(p, size);
      FreeUnclaimed(k, s, heap.sizes, iobs, inline, heap.St(), p);
    }

    /** free_iob: gives back exactly the blocks that alloc_iob_raw took. */
    method FreeIob(iob: nat)
      requires Valid() && (iob == 0 || iob in iobs)
      modifies this, heap
      ensures Valid() && heap.mem == old(heap.mem)
      ensures iob == 0 ==> iobs == old(iobs) && heap.St() == old(heap.St())
      ensures iob != 0 ==>
        && iobs == old(iobs) - {iob} && inline == old(inline) - {iob}
        && heap.live == old(heap.live) -
             (if old(inline[iob]) then {old(iobs[iob].head)} else {old(iobs[iob].head), iob - HEADER})
    {
      hide Inv, AllOwned, Freed;
      if iob == 0 {
        return;
      }
      var r := iobs[iob];
      var len := r.end - r.head;
      Disown(heap.c, k, heap.St(), heap.sizes, iobs, inline, iob);
      var atEnd := r.end == iob;
      iobs, inline := iobs - {iob}, inline - {iob};
      if atEnd {
        FreeBlock(r.head, len + k.size);
      } else {
        FreeBlock(r.head, len);
        FreeDescriptor(iob);
      }
    }

    method FreeDescriptor(iob: nat)
      requires Valid() && iob >= HEADER && Unclaimed(iob - HEADER, k.size + HEADER)
      requires iob - HEADER in heap.sizes && heap.sizes[iob - HEADER] == k.size + HEADER
      modifies heap
      ensures Valid() && Freed(heap.c, old(heap.St()), iob - HEADER, heap.St())
      ensures heap.live == old(heap.live) - {iob - HEADER} && heap.mem == old(heap.mem)
    {
      hide Inv, AllOwned, Freed, BlocksOf;
      ghost var s := heap.St();
      assert heap.Autosized(iob) by { LiveReleasable(heap.c, s, iob - HEADER); }
      heap.Free(iob);
      FreedLive(heap.c, s, iob - HEADER, heap.St());
      FreeUnclaimed(k, s, heap.sizes, iobs, inline, heap.St(), iob - HEADER);
    }

    /** memcpy ( iob_put ( iobuf, len ), src, len ): the data grows by `len` bytes,
        and no other buffer is touched. */
    method AppendData(iob: nat, src: nat, len: nat)
      requires Valid() && iob in iobs && iobs[iob].tail + len <= iobs[iob].end
      modifies `iobs, heap`mem
      ensures Valid() && iobs == old(iobs)[iob := old(iobs[iob]).(tail := old(iobs[iob].tail) + len)]
      ensures Data(heap.mem, iobs[iob]) == old(Data(heap.mem, iobs[iob])) + old(Bytes(heap.mem, src, len))
      ensures forall b :: b in iobs && b != iob ==> Data(heap.mem, iobs[b]) == old(Data(heap.mem, iobs[b]))
    {
      hide Inv, AllOwned, Copy, Data, Bytes, ReadByte;
      var r := iobs[iob];
      Ordered(k, heap.St(), heap.sizes, iobs, inline, iob);
      OwnedRetail(k, heap.St(), heap.sizes, iobs, inline, iob, r.(tail := r.tail + len));
      var mem' := Copy(heap.mem, r.tail, src, len);
      Appended(heap.mem, mem', r, src, len);
      forall b | b in iobs && b != iob ensures Data(mem', iobs[b]) == Data(heap.mem, iobs[b]) {
        OthersKept(heap.c, k, heap.St(), heap.sizes, iobs, inline, iob, heap.mem, mem', b);
      }
      heap.mem := mem';
      iobs := iobs[iob := r.(tail := r.tail + len)];
    }

    /** iob_split: the first `len` bytes move to a buffer of their own; failure
        leaves everything as it was. */
    method IobSplit(iob: nat, len: nat) returns (split: nat)
      requires Valid() && iob in iobs && iobs[iob].data + len <= iobs[iob].tail
      modifies this, heap
      ensures Valid()
      ensures split == 0 ==> iobs == old(iobs) && heap.mem == old(heap.mem)
      ensures split == 0 ==>
        var n := if len < IOB_ZLEN then IOB_ZLEN else len; RawFails(heap.c, k, old(heap.St()), n, n, 0, heap.St())
      ensures split != 0 ==>
        && split !in old(iobs) && iobs.Keys == old(iobs).Keys + {split}
        && iobs[iob] == old(iobs[iob]).(data := old(iobs[iob].data) + len)
        && Data(heap.mem, iobs[split]) + Data(heap.mem, iobs[iob]) == old(Data(heap.mem, iobs[iob]))
        && |Data(heap.mem, iobs[split])| == len
        && (forall b :: b in old(iobs) && b != iob ==>
              iobs[b] == old(iobs[b]) && Data(heap.mem, iobs[b]) == old(Data(heap.mem, iobs[b])))
    {
      hide Inv, AllOwned, Data, Bytes, NextPow2, RawFails, EffectiveAlign;
      Ordered(k, heap.St(), heap.sizes, iobs, inline, iob);
      OneFits(heap.c, k, heap.St(), heap.sizes, iobs, inline, iob);
      split := AllocIob(len);
      if split == 0 { return; }
      var r := iobs[iob];
      NoData(heap.mem, iobs[split]);
      AppendData(split, r.data, len);
      Pulled(heap.mem, old(heap.mem), r, len);
      OwnedRetail(k, heap.St(), heap.sizes, iobs, inline, iob, r.(data := r.data + len));
      iobs := iobs[iob := r.(data := r.data + len)];
    }

    method TotalLen(list: seq<nat>) returns (len: nat)
      requires Valid() && Listed(list, iobs)
      ensures len == Total(list, iobs)
    {
      hide Inv, AllOwned, Total;
      len := 0;
      for i := 0 to |list|
        invariant len + Total(list[i..], iobs) == Total(list, iobs)
      {
        TotalHead(list[i..], iobs);
        assert list[i..][1..] == list[i + 1..];
        Ordered(k, heap.St(), heap.sizes, iobs, inline, list[i]);
        len := len + (iobs[list[i]].tail - iobs[list[i]].data);
      }
      assert list[|list|..] == [];
      TotalHead([], iobs);
    }

    /** iob_concatenate: the data of the listed buffers, in order, in one buffer;
        the others are freed.  Failure leaves everything as it was. */
    method IobConcatenate(list: seq<nat>) returns (c: nat, rest: seq<nat>)
      requires Valid() && Listed(list, iobs)
      modifies this, heap
      ensures Valid()
      ensures c == 0 ==> rest == list && iobs == old(iobs) && heap.mem == old(heap.mem)
      ensures c == 0 ==>
        && |list| != 1 && Total(list, old(iobs)) >= 0
        && RawFails(heap.c, k, old(heap.St()), Total(list, old(iobs)), k.align, 0, heap.St())
      ensures |list| == 1 ==> c == list[0] && iobs == old(iobs) && heap.St() == old(heap.St())
      ensures c != 0 ==>
        && rest == [] && c in iobs && iobs.Keys == old(iobs).Keys - Elements(list) + {c}
        && Data(heap.mem, iobs[c]) == old(Joined(list, iobs, heap.mem))
        && (forall b :: b in old(iobs) && b !in list ==>
              b in iobs && iobs[b] == old(iobs[b]) && Data(heap.mem, iobs[b]) == old(Data(heap.mem, iobs[b])))
    {
      hide Inv, AllOwned, Data, Bytes, NextPow2, EffectiveAlign, Total, Joined, IsPow2, RawFails, InlineLen;
      if |list| == 1 {
        c, rest := list[0], [];
        NonNull(heap.c, k, heap.St(), heap.sizes, iobs, inline, c);
        JoinedOne(list, iobs, heap.mem);
        return;
      }
      TotalFits(heap.c, k, heap.St(), heap.sizes, iobs, inline, list);
      var len := TotalLen(list);
      c := AllocIobRaw(len, k.align, 0);
      if c == 0 { return c, list; }
      NoData(heap.mem, iobs[c]);
      SameLists(list, old(iobs), iobs, heap.mem);
      MoveAll(c, list);
      rest := [];
      assert forall b :: b in list ==> b in Elements(list);
    }

    /** One buffer's data goes to the end of another's, and the buffer is freed. */
    method MoveOne(c: nat, b: nat)
      requires Valid() && c in iobs && b in iobs && b != c
      requires iobs[c].tail + (iobs[b].tail - iobs[b].data) <= iobs[c].end
      modifies this, heap
      ensures Valid()
      ensures
        var r, d := old(iobs[c]), old(iobs[b]);
        iobs == old(iobs)[c := r.(tail := r.tail + (d.tail - d.data))] - {b}
      ensures Data(heap.mem, iobs[c]) == old(Data(heap.mem, iobs[c])) + old(Data(heap.mem, iobs[b]))
      ensures forall x :: x in iobs && x != c ==> Data(heap.mem, iobs[x]) == old(Data(heap.mem, iobs[x]))
    {
      hide Inv, AllOwned, Bytes;
      Ordered(k, heap.St(), heap.sizes, iobs, inline, b);
      NonNull(heap.c, k, heap.St(), heap.sizes, iobs, inline, b);
      var d := iobs[b];
      AppendData(c, d.data, d.tail - d.data);
      FreeIob(b);
    }

    method MoveAll(c: nat, list: seq<nat>)
      requires Valid() && c in iobs && c !in list && Listed(list, iobs)
      requires iobs[c].tail + Total(list, iobs) <= iobs[c].end
      modifies this, heap
      ensures Valid() && c in iobs && iobs.Keys == old(iobs).Keys - Elements(list)
      ensures Data(heap.mem, iobs[c]) == old(Data(heap.mem, iobs[c])) + old(Joined(list, iobs, heap.mem))
      ensures forall b :: b in iobs && b != c ==>
        iobs[b] == old(iobs[b]) && Data(heap.mem, iobs[b]) == old(Data(heap.mem, iobs[b]))
    {
      hide Inv, AllOwned, Data, Total, Joined;
      ghost var was, mem := iobs, heap.mem;
      for i := 0 to |list|
        invariant Valid() && c in iobs
        invariant forall b :: b in iobs <==> b in was && b !in list[..i]
        invariant forall b :: b in iobs && b != c ==> iobs[b] == was[b] && Data(heap.mem, iobs[b]) == Data(mem, was[b])
        invariant iobs[c].tail + Total(list[i..], was) <= iobs[c].end
        invariant Data(heap.mem, iobs[c]) + Joined(list[i..], was, mem) == Data(mem, was[c]) + Joined(list, was, mem)
      {
        var b := list[i];
        assert b in iobs && b != c;
        Ordered(k, heap.St(), heap.sizes, iobs, inline, b);
        assert list[i..][0] == b && list[i..][1..] == list[i + 1..];
        TotalHead(list[i..], was);
        TotalPositive(k, heap.St(), heap.sizes, iobs, inline, was, list[i + 1..]);
        JoinedHead(list[i..], was, mem);
        MoveOne(c, b);
        assert list[..i + 1] == list[..i] + [b];
      }
      assert list[|list|..] == [] && list[..|list|] == list;
      JoinedHead([], was, mem);
    }
  }

  lemma NewIsUnclaimed(k: IobConfig, s: State, sizes: map<nat, nat>, iobs: map<nat, IoBuffer>, inline: map<nat, bool>, p: nat)
    requires AllOwned(k, s, sizes, iobs, inline)
    requires p in s.live ==> p in CacheKeys(s.cache)
    ensures forall b :: b in iobs ==> p as int !in BlocksOf(b, iobs[b], inline[b])
    ensures iobs.Keys == inline.Keys
  {
    forall b | b in iobs ensures p as int !in BlocksOf(b, iobs[b], inline[b]) {
      assert Owned(k, s, sizes, b, iobs[b], inline[b]);
    }
  }

  lemma FreeUnclaimed(k: IobConfig, s: State, sizes: map<nat, nat>, iobs: map<nat, IoBuffer>, inline: map<nat, bool>,
                      s': State, p: nat)
    requires AllOwned(k, s, sizes, iobs, inline) && s'.live == s.live - {p} && s'.cache == s.cache
    requires forall b :: b in iobs ==> p as int !in BlocksOf(b, iobs[b], inline[b])
    ensures AllOwned(k, s', sizes, iobs, inline)
  {
    forall b | b in iobs ensures Owned(k, s', sizes, b, iobs[b], inline[b]) {
      assert Owned(k, s, sizes, b, iobs[b], inline[b]);
    }
  }

  lemma NullNotLive(c: Config, s: State)
    requires Inv(c, s)
    ensures 0 !in s.live
  {
    if 0 in s.live { LiveReleasable(c, s, 0); }
  }

  lemma LiveSize(c: Config, s: State, p: nat)
    requires Inv(c, s) && p in s.live
    ensures s.live[p] < WORD
  {
  }

  /** Taking a descriptor out of use leaves its blocks unclaimed, and the test
      `end == iobuf` says correctly which they are. */
  lemma Disown(c: Config, k: IobConfig, s: State, sizes: map<nat, nat>, iobs: map<nat, IoBuffer>, inline: map<nat, bool>, iob: nat)
    requires Inv(c, s) && IobConfigOk(k) && AllOwned(k, s, sizes, iobs, inline) && iob in iobs
    ensures iobs.Keys == inline.Keys && Owned(k, s, sizes, iob, iobs[iob], inline[iob])
    ensures s.live[iobs[iob].head] < WORD
    ensures iobs[iob].end == iob <==> inline[iob]
    ensures AllOwned(k, s, sizes, iobs - {iob}, inline - {iob})
    ensures forall b :: b in iobs - {iob} ==>
      BlocksOf(b, iobs[b], inline[b]) !! BlocksOf(iob, iobs[iob], inline[iob])
  {
    LiveSize(c, s, iobs[iob].head);
    hide Inv;
    InlineTestExact(c, k, s, iob, iobs[iob], inline[iob]);
    OwnedRemove(k, s, sizes, iobs, inline, iob);
  }

  lemma DescriptorFails(c: Config, k: IobConfig, s: State, len: nat, a: nat, offset: nat, t: State, u: State, data: nat, s': State)
    requires 0 < c.min < WORD && len < WORD && data != 0 && AllocOutcome(c, s, len, a, offset, t, data)
    requires NoRoom(c, t, k.size + HEADER, 1, 0, u) && Freed(c, u, data, s')
    ensures NoDescriptor(c, k, s, len, a, offset, s')
  {
    hide AllocOutcome, Freed, NoRoom;
  }

  /** No room means no congruent run of that many free bytes, with all cached data
      given up. */
  lemma NoRoomMeans(c: Config, s: State, size: nat, align: nat, offset: nat, s': State, a: nat)
    requires Inv(c, s) && NoRoom(c, s, size, align, offset, s') && (align == 0 || IsPow2(align)) && RoundUp(c.min, size) > 0
    ensures Inv(c, s') && s'.cache == []
    ensures !Candidate(c.min, c.phys, s'.free, RoundUp(c.min, size), align, offset, a)
  {
    hide Inv, AllocOutcome, Candidate, IsPow2;
    AllocOutcomeSafe(c, s, size, align, offset, s', 0);
    InvCanonical(c, s');
    FirstFitLowest(c.min, c.phys, s'.free, RoundUp(c.min, size), align, offset, a);
  }

  lemma InvCanonical(c: Config, s: State)
    requires Inv(c, s)
    ensures ConfigOk(c) && Canonical(c.min, s.free)
  {
  }
}
