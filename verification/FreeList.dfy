/** The heap's free list as a value: an address-ordered, fully coalesced sequence
    of blocks.  Everything the allocator promises about the list is stated over
    the set of free bytes, and the canonical shape makes that set determine the
    list (see CanonicalUnique). */
module FreeList {

  /** A run of bytes [start, start + size). */
  datatype Block = Block(start: nat, size: nat) {
    function End(): nat {
      start + size
    }
  }

  ghost predicate Covers(b: Block, a: int) {
    b.start <= a < b.End()
  }

  predicate Disjoint(b: Block, c: Block) {
    b.End() <= c.start || c.End() <= b.start
  }

  /** Byte `a` belongs to some block of the list. */
  ghost predicate IsFree(free: seq<Block>, a: int) {
    exists i :: 0 <= i < |free| && Covers(free[i], a)
  }

  /** Every block has at least the minimum size, and any two blocks are in
      ascending order with a gap between them. */
  ghost predicate Canonical(min: nat, free: seq<Block>) {
    && (forall i :: 0 <= i < |free| ==> free[i].size >= min)
    && (forall i, j :: 0 <= i < j < |free| ==> free[i].End() < free[j].start)
  }

  ghost predicate DisjointFrom(free: seq<Block>, b: Block) {
    forall i :: 0 <= i < |free| ==> Disjoint(free[i], b)
  }

  function Sum(free: seq<Block>): nat {
    if free == [] then 0 else free[0].size + Sum(free[1..])
  }

  lemma {:induction false} SumConcat(f: seq<Block>, g: seq<Block>)
    ensures Sum(f + g) == Sum(f) + Sum(g)
  {
    if f == [] {
      assert f + g == g;
    } else {
      assert (f + g)[1..] == f[1..] + g;
      SumConcat(f[1..], g);
    }
  }

  lemma SumReplace(free: seq<Block>, k: nat, mid: seq<Block>)
    requires k < |free|
    ensures Sum(free[..k] + mid + free[k+1..]) == Sum(free) - free[k].size + Sum(mid)
  {
    SumConcat(free[..k] + mid, free[k+1..]);
    SumConcat(free[..k], mid);
    assert free == free[..k] + ([free[k]] + free[k+1..]);
    SumConcat(free[..k], [free[k]] + free[k+1..]);
    SumConcat([free[k]], free[k+1..]);
    assert Sum([free[k]]) == free[k].size;
  }

  lemma IsFreeConcat(f: seq<Block>, g: seq<Block>, a: int)
    ensures IsFree(f + g, a) <==> IsFree(f, a) || IsFree(g, a)
  {
    if IsFree(f, a) {
      var i :| 0 <= i < |f| && Covers(f[i], a);
      assert Covers((f + g)[i], a);
    }
    if IsFree(g, a) {
      var i :| 0 <= i < |g| && Covers(g[i], a);
      assert Covers((f + g)[|f| + i], a);
    }
  }

  lemma IsFreeReplace(free: seq<Block>, k: nat, mid: seq<Block>, a: int)
    requires k < |free|
    ensures IsFree(free[..k] + mid + free[k+1..], a)
       <==> IsFree(free[..k], a) || IsFree(mid, a) || IsFree(free[k+1..], a)
    ensures IsFree(free, a)
       <==> IsFree(free[..k], a) || Covers(free[k], a) || IsFree(free[k+1..], a)
  {
    IsFreeConcat(free[..k] + mid, free[k+1..], a);
    IsFreeConcat(free[..k], mid, a);
    assert free == free[..k] + ([free[k]] + free[k+1..]);
    IsFreeConcat(free[..k], [free[k]] + free[k+1..], a);
    IsFreeConcat([free[k]], free[k+1..], a);
    assert Covers([free[k]][0], a) <==> Covers(free[k], a);
  }

  /** A canonical list begins with the lowest free byte and its first block runs
      up to the first byte that is not free. */
  lemma FirstBlock(min: nat, free: seq<Block>)
    requires min > 0 && Canonical(min, free) && free != []
    ensures forall a :: Covers(free[0], a) ==> IsFree(free, a)
    ensures forall a :: IsFree(free, a) ==> free[0].start <= a
    ensures !IsFree(free, free[0].End())
  {
  }

  lemma TailBytes(min: nat, free: seq<Block>, a: int)
    requires min > 0 && Canonical(min, free) && free != []
    ensures IsFree(free[1..], a) <==> IsFree(free, a) && !Covers(free[0], a)
  {
    assert free == [free[0]] + free[1..];
    IsFreeConcat([free[0]], free[1..], a);
    assert Covers([free[0]][0], a) <==> Covers(free[0], a);
    if IsFree(free[1..], a) {
      var i :| 0 <= i < |free[1..]| && Covers(free[1..][i], a);
      assert free[0].End() < free[i+1].start;
    }
  }

  lemma SameFirst(min: nat, f: seq<Block>, g: seq<Block>)
    requires min > 0 && Canonical(min, f) && Canonical(min, g)
    requires forall a :: IsFree(f, a) <==> IsFree(g, a)
    requires f != [] && g != []
    ensures f[0] == g[0]
  {
    FirstBlock(min, f);
    FirstBlock(min, g);
    assert Covers(f[0], f[0].start) && Covers(g[0], g[0].start);
    assert Covers(g[0], f[0].End()) || g[0].End() <= f[0].End();
    assert Covers(f[0], g[0].End()) || f[0].End() <= g[0].End();
  }

  lemma EmptyWithoutBytes(min: nat, f: seq<Block>)
    requires min > 0 && Canonical(min, f)
    ensures f == [] <==> forall a :: !IsFree(f, a)
  {
    if f != [] {
      assert Covers(f[0], f[0].start);
      assert IsFree(f, f[0].start);
    }
  }

  /** The canonical form is unique: two canonical lists with the same free bytes
      are the same list. */
  lemma {:induction false} CanonicalUnique(min: nat, f: seq<Block>, g: seq<Block>)
    requires min > 0 && Canonical(min, f) && Canonical(min, g)
    requires forall a :: IsFree(f, a) <==> IsFree(g, a)
    ensures f == g
  {
    hide Canonical, IsFree, Covers;
    EmptyWithoutBytes(min, f);
    EmptyWithoutBytes(min, g);
    if f != [] {
      SameFirst(min, f, g);
      CanonicalSlices(min, f, 1);
      CanonicalSlices(min, g, 1);
      forall a ensures IsFree(f[1..], a) <==> IsFree(g[1..], a) {
        TailBytes(min, f, a);
        TailBytes(min, g, a);
      }
      CanonicalUnique(min, f[1..], g[1..]);
      assert f == [f[0]] + f[1..] && g == [g[0]] + g[1..];
    }
  }

  /** What releasing block `b` must do to the list. */
  ghost predicate Released(min: nat, free: seq<Block>, b: Block, free': seq<Block>) {
    && Canonical(min, free')
    && (forall a :: IsFree(free', a) <==> IsFree(free, a) || Covers(b, a))
  }

  /** Canonical lists concatenate when the first lies entirely below the second. */
  lemma CanonicalConcat(min: nat, f: seq<Block>, g: seq<Block>)
    requires Canonical(min, f) && Canonical(min, g)
    requires forall i, j :: 0 <= i < |f| && 0 <= j < |g| ==> f[i].End() < g[j].start
    ensures Canonical(min, f + g)
  {
    var h := f + g;
    forall i, j | 0 <= i < j < |h| ensures h[i].End() < h[j].start {
      if i < |f| {
        assert h[i] == f[i];
        assert h[j] == if j < |f| then f[j] else g[j - |f|];
      } else {
        assert h[i] == g[i - |f|] && h[j] == g[j - |f|];
      }
    }
  }

  lemma CanonicalSlices(min: nat, free: seq<Block>, i: nat)
    requires Canonical(min, free) && i <= |free|
    ensures Canonical(min, free[..i]) && Canonical(min, free[i..])
  {
    var g := free[i..];
    forall m, n | 0 <= m < n < |g| ensures g[m].End() < g[n].start {
      assert g[m] == free[i + m] && g[n] == free[i + n];
    }
  }

  /** Inserting a block at its place, with a gap on each side, keeps the form. */
  lemma InsertCanonical(min: nat, f: seq<Block>, b: Block, g: seq<Block>)
    requires Canonical(min, f) && Canonical(min, g) && b.size >= min
    requires forall j :: 0 <= j < |f| ==> f[j].End() < b.start
    requires forall j :: 0 <= j < |g| ==> b.End() < g[j].start
    ensures Canonical(min, f + [b] + g)
  {
    CanonicalConcat(min, f, [b]);
    CanonicalConcat(min, f + [b], g);
  }

  lemma InsertBytes(f: seq<Block>, b: Block, g: seq<Block>, a: int)
    ensures IsFree(f + [b] + g, a) <==> IsFree(f + g, a) || Covers(b, a)
  {
    IsFreeConcat(f, g, a);
    IsFreeConcat(f + [b], g, a);
    IsFreeConcat(f, [b], a);
    assert Covers([b][0], a) <==> Covers(b, a);
  }

  lemma InsertSum(f: seq<Block>, b: Block, g: seq<Block>)
    ensures Sum(f + [b] + g) == Sum(f + g) + b.size
  {
    SumConcat(f, g);
    SumConcat(f + [b], g);
    SumConcat(f, [b]);
  }

  lemma InsertReleases(min: nat, free: seq<Block>, i: nat, b: Block)
    requires Canonical(min, free) && i <= |free| && b.size >= min
    requires forall j :: 0 <= j < i ==> free[j].End() < b.start
    requires forall j :: i <= j < |free| ==> b.End() < free[j].start
    ensures Released(min, free, b, free[..i] + [b] + free[i..])
    ensures Sum(free[..i] + [b] + free[i..]) == Sum(free) + b.size
  {
    assert free == free[..i] + free[i..];
    CanonicalSlices(min, free, i);
    InsertCanonical(min, free[..i], b, free[i..]);
    InsertSum(free[..i], b, free[i..]);
    forall a { InsertBytes(free[..i], b, free[i..], a); }
  }

  lemma AboveBlock(min: nat, free: seq<Block>, i: nat, g: seq<Block>)
    requires Canonical(min, free) && i < |free| && g == free[i+1..]
    ensures forall j :: 0 <= j < |g| ==> free[i].End() < g[j].start
  {
  }

  /** So does growing downwards the block that follows it immediately. */
  lemma MergeReleases(min: nat, free: seq<Block>, i: nat, b: Block)
    requires Canonical(min, free) && i < |free| && b.size >= min
    requires forall j :: 0 <= j < i ==> free[j].End() < b.start
    requires b.End() == free[i].start
    ensures var m := Block(b.start, b.size + free[i].size);
      && Released(min, free, b, free[..i] + [m] + free[i+1..])
      && Sum(free[..i] + [m] + free[i+1..]) == Sum(free) + b.size
  {
    hide Canonical, IsFree;
    var m := Block(b.start, b.size + free[i].size);
    var f, g := free[..i], free[i+1..];
    assert free == f + [free[i]] + g;
    CanonicalSlices(min, free, i);
    CanonicalSlices(min, free, i + 1);
    AboveBlock(min, free, i, g);
    InsertCanonical(min, f, m, g);
    InsertSum(f, m, g);
    InsertSum(f, free[i], g);
    forall a ensures IsFree(f + [m] + g, a) <==> IsFree(free, a) || Covers(b, a) {
      InsertBytes(f, m, g, a);
      InsertBytes(f, free[i], g, a);
    }
  }

  /** Taking a block off the list. */
  lemma RemoveBlock(min: nat, free: seq<Block>, i: nat)
    requires Canonical(min, free) && i < |free|
    ensures Canonical(min, free[..i] + free[i+1..])
    ensures Sum(free[..i] + free[i+1..]) == Sum(free) - free[i].size
    ensures forall a :: IsFree(free, a) <==> IsFree(free[..i] + free[i+1..], a) || Covers(free[i], a)
  {
    var f, g := free[..i], free[i+1..];
    assert free == f + [free[i]] + g;
    CanonicalSlices(min, free, i);
    CanonicalSlices(min, free, i + 1);
    CanonicalConcat(min, f, g);
    InsertSum(f, free[i], g);
    forall a { InsertBytes(f, free[i], g, a); }
  }

  // ------------------------------------------------------------------------
  // Freeing
  // ------------------------------------------------------------------------

  /** The list after free_memblock() has put `b` in its place: behind every block
      below it, taken together with a block that it touches on either side. */
  function FreeInto(free: seq<Block>, b: Block): seq<Block>
    decreases |free|
  {
    if free == [] then [b]
    else if free[0].End() == b.start then FreeInto(free[1..], Block(free[0].start, free[0].size + b.size))
    else if free[0].start == b.End() then [Block(b.start, b.size + free[0].size)] + free[1..]
    else if free[0].start > b.End() then [b] + free
    else [free[0]] + FreeInto(free[1..], b)
  }

  lemma DisjointTail(min: nat, free: seq<Block>, b: Block)
    requires min > 0 && Canonical(min, free) && free != [] && DisjointFrom(free, b)
    ensures Canonical(min, free[1..]) && DisjointFrom(free[1..], b)
    ensures free[0].End() == b.start ==> DisjointFrom(free[1..], Block(free[0].start, free[0].size + b.size))
  {
    CanonicalSlices(min, free, 1);
    forall j | 0 <= j < |free[1..]| ensures Disjoint(free[1..][j], b) {
      assert free[1..][j] == free[j+1];
    }
  }

  /** Absorbing the first block, which ends where `b` starts. */
  lemma AbsorbFirst(min: nat, free: seq<Block>, b: Block, r: seq<Block>)
    requires min > 0 && Canonical(min, free) && free != [] && free[0].End() == b.start
    requires Released(min, free[1..], Block(free[0].start, free[0].size + b.size), r)
    ensures Released(min, free, b, r)
  {
    hide Canonical, IsFree;
    var m := Block(free[0].start, free[0].size + b.size);
    forall a ensures IsFree(r, a) <==> IsFree(free, a) || Covers(b, a) {
      assert Covers(m, a) <==> Covers(free[0], a) || Covers(b, a);
      FirstOrTail(free, a);
    }
  }

  lemma FirstOrTail(free: seq<Block>, a: int)
    requires free != []
    ensures IsFree(free, a) <==> Covers(free[0], a) || IsFree(free[1..], a)
  {
    assert free == [free[0]] + free[1..];
    IsFreeConcat([free[0]], free[1..], a);
    assert Covers([free[0]][0], a) <==> Covers(free[0], a);
  }

  /** Passing over the first block, which ends below `b`. */
  lemma PassFirst(min: nat, free: seq<Block>, b: Block, r: seq<Block>)
    requires min > 0 && Canonical(min, free) && free != [] && free[0].End() < b.start
    requires Released(min, free[1..], b, r)
    ensures Released(min, free, b, [free[0]] + r)
  {
    forall j | 0 <= j < |r| ensures free[0].End() < r[j].start {
      assert Covers(r[j], r[j].start);
      assert IsFree(r, r[j].start);
    }
    CanonicalConcat(min, [free[0]], r);
    hide Canonical, IsFree;
    forall a ensures IsFree([free[0]] + r, a) <==> IsFree(free, a) || Covers(b, a) {
      FirstOrTail(free, a);
      FirstOrTail([free[0]] + r, a);
    }
  }

  /** Freeing a block that is not free releases it: the list stays canonical and
      gains exactly the bytes of the block. */
  lemma {:induction false} FreeIntoReleases(min: nat, free: seq<Block>, b: Block)
    requires min > 0 && Canonical(min, free) && b.size >= min && DisjointFrom(free, b)
    ensures Released(min, free, b, FreeInto(free, b))
    decreases |free|
  {
    hide Released, IsFree;
    if free == [] {
      InsertReleases(min, free, 0, b);
      assert free[..0] + [b] + free[0..] == [b];
    } else {
      DisjointTail(min, free, b);
      if free[0].End() == b.start {
        var m := Block(free[0].start, free[0].size + b.size);
        FreeIntoReleases(min, free[1..], m);
        AbsorbFirst(min, free, b, FreeInto(free[1..], m));
      } else if free[0].start == b.End() {
        MergeReleases(min, free, 0, b);
        assert free[..0] + [Block(b.start, b.size + free[0].size)] + free[1..] == FreeInto(free, b);
      } else if free[0].start > b.End() {
        InsertReleases(min, free, 0, b);
        assert free[..0] + [b] + free[0..] == FreeInto(free, b);
      } else {
        assert Disjoint(free[0], b);
        FreeIntoReleases(min, free[1..], b);
        PassFirst(min, free, b, FreeInto(free[1..], b));
      }
    }
  }

  ghost predicate EndsAt(free: seq<Block>, p: nat) {
    exists j :: 0 <= j < |free| && free[j].End() == p
  }

  lemma EndsAtTail(free: seq<Block>, p: nat)
    requires free != []
    ensures EndsAt(free, p) <==> free[0].End() == p || EndsAt(free[1..], p)
  {
    if EndsAt(free[1..], p) {
      var j :| 0 <= j < |free[1..]| && free[1..][j].End() == p;
      assert free[j+1].End() == p;
    }
    if EndsAt(free, p) {
      var j :| 0 <= j < |free| && free[j].End() == p;
      if j > 0 { assert free[1..][j-1].End() == p; }
    }
  }

  /** Freeing nothing at `p` leaves the list alone if a free block ends there, and
      otherwise links an empty block into it, which the form does not allow. */
  lemma {:induction false} FreeNothing(min: nat, free: seq<Block>, p: nat)
    requires min > 0 && Canonical(min, free) && !IsFree(free, p)
    ensures EndsAt(free, p) ==> FreeInto(free, Block(p, 0)) == free
    ensures !EndsAt(free, p) ==> Block(p, 0) in FreeInto(free, Block(p, 0))
    ensures Canonical(min, FreeInto(free, Block(p, 0))) <==> EndsAt(free, p)
    decreases |free|
  {
    var r := FreeInto(free, Block(p, 0));
    if free != [] {
      CanonicalSlices(min, free, 1);
      EndsAtTail(free, p);
      FirstOrTail(free, p);
      assert free == [free[0]] + free[1..];
      if free[0].End() == p {
        assert |free| > 1 ==> free[1..][0].start > free[0].End();
        assert FreeInto(free[1..], free[0]) == [free[0]] + free[1..];
      } else if free[0].start > p {
        assert forall j :: 0 <= j < |free| ==> free[j].End() > p;
      } else {
        FreeNothing(min, free[1..], p);
      }
    }
    if !EndsAt(free, p) {
      assert Block(p, 0) in r;
    }
  }

  /** The pieces of a block left after cutting [start+pre, start+pre+actual) out
      of it; a piece below the minimum size is leaked, not kept. */
  function Pieces(min: nat, b: Block, pre: nat, actual: nat): seq<Block>
    requires pre + actual <= b.size
  {
    var post := b.size - pre - actual;
    (if pre >= min then [Block(b.start, pre)] else []) +
    (if post >= min then [Block(b.start + pre + actual, post)] else [])
  }

  /** The list after cutting [start+pre, start+pre+actual) out of block `k`. */
  function Split(min: nat, free: seq<Block>, k: nat, pre: nat, actual: nat): seq<Block>
    requires k < |free| && pre + actual <= free[k].size
  {
    free[..k] + Pieces(min, free[k], pre, actual) + free[k+1..]
  }

  lemma PiecesBytes(min: nat, b: Block, pre: nat, actual: nat, a: int)
    requires min > 0 && pre + actual <= b.size
    ensures var post := b.size - pre - actual;
      IsFree(Pieces(min, b, pre, actual), a) <==>
        || (pre >= min && Covers(Block(b.start, pre), a))
        || (post >= min && Covers(Block(b.start + pre + actual, post), a))
  {
    var post := b.size - pre - actual;
    var p1 := if pre >= min then [Block(b.start, pre)] else [];
    var p2 := if post >= min then [Block(b.start + pre + actual, post)] else [];
    IsFreeConcat(p1, p2, a);
    assert pre >= min ==> p1[0] == Block(b.start, pre);
    assert post >= min ==> p2[0] == Block(b.start + pre + actual, post);
  }

  /** Cutting a block keeps the list canonical. */
  lemma SplitCanonical(min: nat, free: seq<Block>, k: nat, pre: nat, actual: nat)
    requires min > 0 && Canonical(min, free) && k < |free|
    requires actual > 0 && pre + actual <= free[k].size
    ensures Canonical(min, Split(min, free, k, pre, actual))
  {
    var mid := Pieces(min, free[k], pre, actual);
    var g := Split(min, free, k, pre, actual);
    assert forall m :: 0 <= m < |mid| ==> free[k].start <= mid[m].start && mid[m].End() <= free[k].End();
    forall i, j | 0 <= i < j < |g| ensures g[i].End() < g[j].start {
      if j < k {
        assert g[i] == free[i] && g[j] == free[j];
      } else if j < k + |mid| {
        assert g[j] == mid[j - k];
        if i < k { assert g[i] == free[i]; } else { assert g[i] == mid[i - k]; }
      } else {
        var j' := j - |mid| + 1;
        assert g[j] == free[j'];
        if i < k { assert g[i] == free[i]; }
        else if i < k + |mid| { assert g[i] == mid[i - k]; }
        else { assert g[i] == free[i - |mid| + 1]; }
      }
    }
  }

  /** Cutting removes the allocated bytes and the leaked pieces, nothing else. */
  lemma SplitBytes(min: nat, free: seq<Block>, k: nat, pre: nat, actual: nat, a: int)
    requires min > 0 && Canonical(min, free) && k < |free|
    requires actual > 0 && pre + actual <= free[k].size
    ensures var post := free[k].size - pre - actual;
      var cut := Block(free[k].start + (if pre < min then 0 else pre),
                       actual + (if pre < min then pre else 0) + (if post < min then post else 0));
      IsFree(Split(min, free, k, pre, actual), a) <==> IsFree(free, a) && !Covers(cut, a)
  {
    IsFreeReplace(free, k, Pieces(min, free[k], pre, actual), a);
    PiecesBytes(min, free[k], pre, actual, a);
    if IsFree(free[..k], a) {
      var i :| 0 <= i < |free[..k]| && Covers(free[..k][i], a);
      assert free[i].End() < free[k].start;
    }
    if IsFree(free[k+1..], a) {
      var i :| 0 <= i < |free[k+1..]| && Covers(free[k+1..][i], a);
      assert free[k].End() < free[k+1+i].start;
    }
  }

  /** Allocating then releasing the same block gives back the identical list
      exactly when the cut leaked nothing. */
  lemma AllocThenFreeRestores(min: nat, free: seq<Block>, k: nat, pre: nat, actual: nat, free': seq<Block>)
    requires min > 0 && Canonical(min, free) && k < |free|
    requires actual > 0 && pre + actual <= free[k].size
    requires Released(min, Split(min, free, k, pre, actual), Block(free[k].start + pre, actual), free')
    ensures free' == free <==>
            var post := free[k].size - pre - actual;
            (pre == 0 || pre >= min) && (post == 0 || post >= min)
  {
    var post := free[k].size - pre - actual;
    var g := Split(min, free, k, pre, actual);
    var b := Block(free[k].start + pre, actual);
    forall a ensures IsFree(g, a) ==> IsFree(free, a) {
      SplitBytes(min, free, k, pre, actual, a);
    }
    if (pre == 0 || pre >= min) && (post == 0 || post >= min) {
      forall a ensures IsFree(free', a) <==> IsFree(free, a) {
        SplitBytes(min, free, k, pre, actual, a);
        if Covers(b, a) { assert Covers(free[k], a); }
      }
      CanonicalUnique(min, free', free);
    } else {
      var a := if 0 < pre < min then free[k].start else free[k].End() - 1;
      assert Covers(free[k], a);
      SplitBytes(min, free, k, pre, actual, a);
      assert !IsFree(free', a) && IsFree(free, a);
    }
  }

  /** Releases commute: the order in which two blocks are freed does not show. */
  lemma ReleaseOrderIrrelevant(min: nat, free: seq<Block>, b: Block, c: Block,
                               fb: seq<Block>, fbc: seq<Block>, fc: seq<Block>, fcb: seq<Block>)
    requires min > 0
    requires Released(min, free, b, fb) && Released(min, fb, c, fbc)
    requires Released(min, free, c, fc) && Released(min, fc, b, fcb)
    ensures fbc == fcb
  {
    assert forall a :: IsFree(fbc, a) <==> IsFree(free, a) || Covers(b, a) || Covers(c, a);
    assert forall a :: IsFree(fcb, a) <==> IsFree(free, a) || Covers(b, a) || Covers(c, a);
    CanonicalUnique(min, fbc, fcb);
  }
}
