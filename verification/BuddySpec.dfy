/** The buddy heap as two sets of blocks, free and live, and what every run of it keeps. */
module BuddySpec {
  import opened Bits
  import opened BuddyTree

  const MAX_ORDER: nat := 18

  datatype Heap = Heap(free: set<Block>, live: set<Block>)

  /** The arena is the range of cells `[lo, hi)`. */
  ghost predicate Covered(s: set<Block>, c: nat) { exists b :: b in s && Under(Cell(c), b) }

  ghost predicate Disjoint(s: set<Block>) {
    forall a, b :: a in s && b in s && Overlap(a, b) ==> a == b
  }

  ghost predicate NoFreeSiblings(f: set<Block>) {
    forall b :: b in f && b.order < MAX_ORDER ==> Buddy(b) !in f
  }

  /** Free and live blocks tile the arena, and no two free siblings are left unmerged. */
  ghost predicate Inv(h: Heap, lo: nat, hi: nat) {
    && h.free !! h.live
    && (forall b :: b in h.free + h.live ==> b.order <= MAX_ORDER)
    && Disjoint(h.free + h.live)
    && (forall c: nat :: Covered(h.free + h.live, c) <==> lo <= c < hi)
    && NoFreeSiblings(h.free)
  }

  // ---------------------------------------------------------------- single moves

  lemma InvSwap(h: Heap, h': Heap, lo: nat, hi: nat)
    requires Inv(h, lo, hi) && h'.free !! h'.live && h'.free + h'.live == h.free + h.live
    requires NoFreeSiblings(h'.free)
    ensures Inv(h', lo, hi)
  {
  }

  /** Taking a block off the free lists. */
  lemma Take(h: Heap, f: Block, lo: nat, hi: nat)
    requires Inv(h, lo, hi) && f in h.free
    ensures Inv(Heap(h.free - {f}, h.live + {f}), lo, hi)
  {
    InvSwap(h, Heap(h.free - {f}, h.live + {f}), lo, hi);
  }

  /** Putting back a block whose buddy is not free. */
  lemma Put(h: Heap, b: Block, lo: nat, hi: nat)
    requires Inv(h, lo, hi) && b in h.live
    requires b.order == MAX_ORDER || Buddy(b) !in h.free
    ensures Inv(Heap(h.free + {b}, h.live - {b}), lo, hi)
  {
    BuddyFacts(b);
    forall x | x in h.free + {b} && x.order < MAX_ORDER
      ensures Buddy(x) !in h.free + {b}
    {
      BuddyFacts(x);
    }
    InvSwap(h, Heap(h.free + {b}, h.live - {b}), lo, hi);
  }

  /** Replacing a block by its two halves changes no cell. */
  lemma SameCells(s: set<Block>, p: Block, c: nat)
    requires p.order > 0
    ensures Covered(s + {p}, c) <==> Covered(s + {Left(p), Right(p)}, c)
  {
    UnderHalves(Cell(c), p);
    if Covered(s + {p}, c) {
      var b :| b in s + {p} && Under(Cell(c), b);
      if b == p {
        assert Left(p) in s + {Left(p), Right(p)} && Right(p) in s + {Left(p), Right(p)};
      } else {
        assert b in s + {Left(p), Right(p)};
      }
    }
    if Covered(s + {Left(p), Right(p)}, c) {
      var b :| b in s + {Left(p), Right(p)} && Under(Cell(c), b);
      if b == Left(p) || b == Right(p) {
        assert p in s + {p};
      } else {
        assert b in s + {p};
      }
    }
  }

  lemma DisjointSplit(s: set<Block>, p: Block)
    requires p.order > 0 && Disjoint(s + {p}) && p !in s
    ensures Disjoint(s + {Left(p), Right(p)}) && Left(p) !in s && Right(p) !in s
  {
    BuddyFacts(Left(p));
    assert Parent(Left(p)) == p && Buddy(Left(p)) == Right(p);
    forall x | x in s
      ensures !Overlap(x, Left(p)) && !Overlap(x, Right(p))
    {
      if Overlap(x, Left(p)) { HalfOverlap(x, p, Left(p)); }
      if Overlap(x, Right(p)) { HalfOverlap(x, p, Right(p)); }
    }
  }

  lemma HalfOverlap(x: Block, p: Block, half: Block)
    requires p.order > 0 && (half == Left(p) || half == Right(p))
    requires Overlap(x, half)
    ensures Overlap(x, p)
  {
    assert Parent(half) == p && Under(half, p);
    if Under(x, half) {
      UnderTrans(x, half, p);
    } else {
      if x.order < p.order { UnderOrder(half, x); } else { UnderChain(half, p, x); }
    }
  }

  lemma DisjointJoin(s: set<Block>, b: Block)
    requires Disjoint(s + {b, Buddy(b)}) && b !in s && Buddy(b) !in s
    ensures Disjoint(s + {Parent(b)}) && Parent(b) !in s
  {
    forall x | x in s
      ensures !Overlap(x, Parent(b))
    {
      if Overlap(x, Parent(b)) { OverlapParent(x, b); }
    }
  }

  /** One turn of the splitting loop: the block in hand is halved, the right half goes free. */
  lemma SplitOne(h: Heap, p: Block, lo: nat, hi: nat)
    requires Inv(h, lo, hi) && p in h.live && p.order > 0
    ensures Inv(Heap(h.free + {Right(p)}, h.live - {p} + {Left(p)}), lo, hi)
  {
    var s := h.free + h.live - {p};
    var h' := Heap(h.free + {Right(p)}, h.live - {p} + {Left(p)});
    assert h.free + h.live == s + {p};
    DisjointSplit(s, p);
    assert h'.free + h'.live == s + {Left(p), Right(p)};
    forall c: nat
      ensures Covered(h'.free + h'.live, c) <==> lo <= c < hi
    {
      SameCells(s, p, c);
    }
    forall x | x in h'.free && x.order < MAX_ORDER
      ensures Buddy(x) !in h'.free
    {
      BuddyFacts(x);
      assert Buddy(Right(p)) == Left(p);
    }
  }

  /** One turn of the merging loop: the block in hand swallows its free buddy. */
  lemma JoinOne(h: Heap, b: Block, lo: nat, hi: nat)
    requires Inv(h, lo, hi) && b in h.live && b.order < MAX_ORDER && Buddy(b) in h.free
    ensures Inv(Heap(h.free - {Buddy(b)}, h.live - {b} + {Parent(b)}), lo, hi)
  {
    BuddyFacts(b);
    var s := h.free + h.live - {b, Buddy(b)};
    var h' := Heap(h.free - {Buddy(b)}, h.live - {b} + {Parent(b)});
    assert h.free + h.live == s + {b, Buddy(b)};
    DisjointJoin(s, b);
    assert h'.free + h'.live == s + {Parent(b)};
    forall c: nat
      ensures Covered(h'.free + h'.live, c) <==> lo <= c < hi
    {
      SameCells(s, Parent(b), c);
    }
  }

  // ---------------------------------------------------------------- operations

  /** The block of order `k` at the low end of `f`, and the right halves split off above it. */
  function Descend(f: Block, k: nat): Block
    decreases f.order
  {
    if f.order <= k then f else Descend(Left(f), k)
  }

  function SplitOff(f: Block, k: nat): set<Block>
    decreases f.order
  {
    if f.order <= k then {} else {Right(f)} + SplitOff(Left(f), k)
  }

  /** Allocation takes a free block of the smallest order that is large enough. */
  ghost predicate AllocStep(h: Heap, k: nat, r: Block, h': Heap) {
    exists f ::
      && f in h.free && k <= f.order
      && (forall g :: g in h.free && k <= g.order ==> f.order <= g.order)
      && r == Descend(f, k)
      && h' == Heap(h.free - {f} + SplitOff(f, k), h.live + {r})
  }

  /** Merging a block into the free set for as long as its buddy is free. */
  function Merge(free: set<Block>, b: Block): set<Block>
    decreases MAX_ORDER - b.order
  {
    if b.order < MAX_ORDER && Buddy(b) in free
    then Merge(free - {Buddy(b)}, Parent(b))
    else free + {b}
  }

  function FreeStep(h: Heap, b: Block): Heap {
    Heap(Merge(h.free, b), h.live - {b})
  }

  lemma {:induction false} SplitKeepsInv(h: Heap, f: Block, k: nat, lo: nat, hi: nat)
    requires Inv(h, lo, hi) && f in h.live && k <= f.order
    ensures Inv(Heap(h.free + SplitOff(f, k), h.live - {f} + {Descend(f, k)}), lo, hi)
    ensures Descend(f, k).order == k && Lo(Descend(f, k)) == Lo(f)
    decreases f.order
  {
    if f.order == k {
      assert Heap(h.free + SplitOff(f, k), h.live - {f} + {f}) == h;
    } else {
      SplitOne(h, f, lo, hi);
      Halves(f);
      var h' := Heap(h.free + {Right(f)}, h.live - {f} + {Left(f)});
      SplitKeepsInv(h', Left(f), k, lo, hi);
      if Left(f) in h.live {
        assert Under(Left(f), f) by { assert Parent(Left(f)) == f; }
        assert Overlap(Left(f), f);
        assert false;
      }
      assert h'.free + SplitOff(Left(f), k) == h.free + SplitOff(f, k);
      assert h'.live - {Left(f)} + {Descend(f, k)} == h.live - {f} + {Descend(f, k)};
    }
  }

  lemma AllocKeepsInv(h: Heap, k: nat, r: Block, h': Heap, lo: nat, hi: nat)
    requires Inv(h, lo, hi) && AllocStep(h, k, r, h')
    ensures Inv(h', lo, hi) && r.order == k && r !in h.live
  {
    var f :| && f in h.free && k <= f.order
             && r == Descend(f, k)
             && h' == Heap(h.free - {f} + SplitOff(f, k), h.live + {r});
    var h1 := Heap(h.free - {f}, h.live + {f});
    Take(h, f, lo, hi);
    SplitKeepsInv(h1, f, k, lo, hi);
    assert h1.live - {f} + {r} == h.live + {r};
    FirstCell(f);
    FirstCell(r);
    SharedCell(Lo(f), f, r);
    assert r in h.live ==> r == f;
  }

  lemma {:induction false} MergeKeepsInv(h: Heap, b: Block, lo: nat, hi: nat)
    requires Inv(h, lo, hi) && b in h.live
    ensures Inv(Heap(Merge(h.free, b), h.live - {b}), lo, hi)
    decreases MAX_ORDER - b.order
  {
    if b.order < MAX_ORDER && Buddy(b) in h.free {
      JoinOne(h, b, lo, hi);
      var h' := Heap(h.free - {Buddy(b)}, h.live - {b} + {Parent(b)});
      MergeKeepsInv(h', Parent(b), lo, hi);
      if Parent(b) in h.live {
        assert Under(b, Parent(b));
        assert Overlap(b, Parent(b));
        assert false;
      }
      assert h'.live - {Parent(b)} == h.live - {b};
    } else {
      Put(h, b, lo, hi);
    }
  }

  // ---------------------------------------------------------------- canonical free set

  /** Every cell of `b` lies in the arena and outside every live block. */
  ghost predicate WhollyFree(b: Block, live: set<Block>, lo: nat, hi: nat) {
    forall c: nat :: Under(Cell(c), b) ==> lo <= c < hi && !Covered(live, c)
  }

  /** Somewhere in the arena an aligned block of order `k` is wholly free. */
  ghost predicate RoomFor(k: nat, live: set<Block>, lo: nat, hi: nat) {
    exists b: Block :: b.order == k && WhollyFree(b, live, lo, hi)
  }

  /** A wholly free block of any order lies inside a block on the free lists. */
  lemma {:induction false} FreeBlockAround(h: Heap, b: Block, lo: nat, hi: nat) returns (f: Block)
    requires Inv(h, lo, hi) && b.order <= MAX_ORDER && WhollyFree(b, h.live, lo, hi)
    ensures f in h.free && Under(b, f)
    decreases b.order
  {
    if b.order == 0 {
      assert Under(Cell(b.index), b);
      assert Covered(h.free + h.live, b.index);
      f :| f in h.free + h.live && Under(Cell(b.index), f);
      assert f !in h.live;
    } else {
      HalvesWhollyFree(b, h.live, lo, hi);
      var l := FreeBlockAround(h, Left(b), lo, hi);
      var r := FreeBlockAround(h, Right(b), lo, hi);
      assert Parent(Left(b)) == b && Parent(Right(b)) == b;
      if l != Left(b) {
        f := l;
      } else if r != Right(b) {
        f := r;
      } else {
        f := l;
        assert false;
      }
    }
  }

  lemma HalvesWhollyFree(b: Block, live: set<Block>, lo: nat, hi: nat)
    requires b.order > 0 && WhollyFree(b, live, lo, hi)
    ensures WhollyFree(Left(b), live, lo, hi) && WhollyFree(Right(b), live, lo, hi)
  {
    forall c: nat | Under(Cell(c), Left(b)) || Under(Cell(c), Right(b))
      ensures lo <= c < hi && !Covered(live, c)
    {
      UnderHalves(Cell(c), b);
    }
  }

  lemma FreeIsWhollyFree(h: Heap, b: Block, f: Block, lo: nat, hi: nat)
    requires Inv(h, lo, hi) && f in h.free && Under(b, f)
    ensures WhollyFree(b, h.live, lo, hi)
  {
    forall c: nat | Under(Cell(c), b)
      ensures lo <= c < hi && !Covered(h.live, c)
    {
      UnderTrans(Cell(c), b, f);
      assert f in h.free + h.live;
      assert Covered(h.free + h.live, c);
      forall x | x in h.live && Under(Cell(c), x)
        ensures false
      {
        SharedCell(c, x, f);
      }
    }
  }

  /** COMPLETENESS: some free block is large enough for order `k` exactly when a wholly free,
      size-aligned block of order `k` exists anywhere in the arena. */
  lemma AllocationComplete(h: Heap, k: nat, lo: nat, hi: nat)
    requires Inv(h, lo, hi) && k <= MAX_ORDER
    ensures (exists f :: f in h.free && k <= f.order) <==> RoomFor(k, h.live, lo, hi)
  {
    if f :| f in h.free && k <= f.order {
      DescendUnder(f, k);
      FreeIsWhollyFree(h, Descend(f, k), f, lo, hi);
    }
    if b: Block :| b.order == k && WhollyFree(b, h.live, lo, hi) {
      var f := FreeBlockAround(h, b, lo, hi);
      UnderOrder(b, f);
    }
  }

  lemma {:induction false} DescendUnder(f: Block, k: nat)
    requires k <= f.order
    ensures Under(Descend(f, k), f) && Descend(f, k).order == k
    decreases f.order
  {
    if f.order > k {
      DescendUnder(Left(f), k);
      assert Parent(Left(f)) == f;
      UnderTrans(Descend(f, k), Left(f), f);
    }
  }

  /** The free lists hold exactly the maximal wholly free blocks. */
  lemma FreeIsMaximal(h: Heap, b: Block, lo: nat, hi: nat)
    requires Inv(h, lo, hi) && b.order <= MAX_ORDER
    ensures b in h.free <==>
            && WhollyFree(b, h.live, lo, hi)
            && (b.order == MAX_ORDER || !WhollyFree(Parent(b), h.live, lo, hi))
  {
    if b in h.free {
      FreeIsWhollyFree(h, b, b, lo, hi);
      if b.order < MAX_ORDER && WhollyFree(Parent(b), h.live, lo, hi) {
        var f := FreeBlockAround(h, Parent(b), lo, hi);
        UnderOrder(Parent(b), f);
        UnderTrans(b, Parent(b), f);
        assert Overlap(b, f);
        assert false;
      }
    } else if WhollyFree(b, h.live, lo, hi) {
      var f := FreeBlockAround(h, b, lo, hi);
      UnderOrder(b, f);
      assert Under(Parent(b), f);
      FreeIsWhollyFree(h, Parent(b), f, lo, hi);
      assert f.order <= MAX_ORDER;
    }
  }

  /** The free set is a function of the arena and the live blocks. */
  lemma FreeSetDetermined(h1: Heap, h2: Heap, lo: nat, hi: nat)
    requires Inv(h1, lo, hi) && Inv(h2, lo, hi) && h1.live == h2.live
    ensures h1 == h2
  {
    forall b
      ensures b in h1.free <==> b in h2.free
    {
      if b.order <= MAX_ORDER {
        FreeIsMaximal(h1, b, lo, hi);
        FreeIsMaximal(h2, b, lo, hi);
      } else {
        assert b !in h1.free + h1.live && b !in h2.free + h2.live;
      }
    }
  }

  // ---------------------------------------------------------------- initial tiling

  /** `k` is the order the initialisation loop picks at cell `c`. */
  ghost predicate GreedyOrder(c: nat, hi: nat, k: nat) {
    && k <= MAX_ORDER && LowZero(c, k) && c + Pow2(k) <= hi
    && forall j: nat :: k < j <= MAX_ORDER ==> !(LowZero(c, j) && c + Pow2(j) <= hi)
  }

  /** Loop invariant of initialisation: `[lo, c)` is tiled and no left half could have been larger. */
  ghost predicate Tiled(free: set<Block>, lo: nat, c: nat, hi: nat) {
    && lo <= c
    && Within(free, lo, c)
    && Disjoint(free)
    && (forall x: nat :: Covered(free, x) <==> lo <= x < c)
    && LeftHalvesMaximal(free, hi)
  }

  ghost predicate Within(free: set<Block>, lo: nat, c: nat) {
    forall b :: b in free ==> b.order <= MAX_ORDER && lo <= Lo(b) && Hi(b) <= c
  }

  ghost predicate LeftHalvesMaximal(free: set<Block>, hi: nat) {
    forall b :: b in free && b.order < MAX_ORDER && b.index % 2 == 0 ==> Hi(Parent(b)) > hi
  }

  lemma CoveredPlus(s: set<Block>, b: Block, x: nat)
    ensures Covered(s + {b}, x) <==> Covered(s, x) || Lo(b) <= x < Hi(b)
  {
    CellsOf(x, b);
    if Covered(s + {b}, x) && !Covered(s, x) {
      var y :| y in s + {b} && Under(Cell(x), y);
      assert y == b;
    }
    if y :| y in s && Under(Cell(x), y) { assert y in s + {b}; }
    if Lo(b) <= x < Hi(b) { assert b in s + {b} && Under(Cell(x), b); }
  }

  lemma TileApart(free: set<Block>, lo: nat, c: nat, hi: nat, b: Block)
    requires Tiled(free, lo, c, hi) && Lo(b) == c
    ensures b !in free && Disjoint(free + {b})
  {
    assert Overlap(b, b);
    forall x | x in free
      ensures !Overlap(x, b)
    {
      if Overlap(x, b) {
        var y := OverlapCell(x, b);
        CellsOf(y, b);
        CellsOf(y, x);
      }
    }
  }

  lemma GreedyParent(c: nat, hi: nat, b: Block)
    requires GreedyOrder(c, hi, b.order) && Lo(b) == c && b.order < MAX_ORDER && b.index % 2 == 0
    ensures Hi(Parent(b)) > hi
  {
    assert Left(Parent(b)) == b;
    LoAligned(Parent(b));
    assert !(LowZero(c, b.order + 1) && c + Pow2(b.order + 1) <= hi);
  }

  /** One turn of the initialisation loop. */
  lemma TileOne(free: set<Block>, lo: nat, c: nat, hi: nat, b: Block)
    requires Tiled(free, lo, c, hi) && GreedyOrder(c, hi, b.order) && Lo(b) == c
    ensures b !in free && Tiled(free + {b}, lo, Hi(b), hi)
  {
    TileApart(free, lo, c, hi, b);
    assert Within(free + {b}, lo, Hi(b));
    forall x: nat
      ensures Covered(free + {b}, x) <==> lo <= x < Hi(b)
    {
      CoveredPlus(free, b, x);
    }
    assert LeftHalvesMaximal(free + {b}, hi) by {
      if b.order < MAX_ORDER && b.index % 2 == 0 { GreedyParent(c, hi, b); }
    }
  }

  lemma TilingInv(free: set<Block>, lo: nat, hi: nat)
    requires Tiled(free, lo, hi, hi)
    ensures Inv(Heap(free, {}), lo, hi)
  {
    assert free + {} == free;
    forall b | b in free && b.order < MAX_ORDER
      ensures Buddy(b) !in free
    {
      BuddyFacts(b);
      var l := Left(Parent(b));
      Halves(Parent(b));
      assert l.index % 2 == 0 && Parent(l) == Parent(b);
      assert l in free ==> Hi(Parent(b)) > hi;
      assert Right(Parent(b)) in free ==> Hi(Parent(b)) <= hi;
    }
  }

  // ---------------------------------------------------------------- whole runs

  datatype Op = Alloc(order: nat, result: Block) | Free(block: Block)

  ghost predicate Step(h: Heap, op: Op, h': Heap) {
    match op
    case Alloc(k, r) => AllocStep(h, k, r, h')
    case Free(b) => b in h.live && h' == FreeStep(h, b)
  }

  /** `run[i + 1]` is reached from `run[i]` by `ops[i]`. */
  ghost predicate Run(ops: seq<Op>, run: seq<Heap>) {
    |run| == |ops| + 1 && forall i :: 0 <= i < |ops| ==> Step(run[i], ops[i], run[i + 1])
  }

  lemma {:induction false} RunKeepsInv(ops: seq<Op>, run: seq<Heap>, lo: nat, hi: nat)
    requires Run(ops, run) && Inv(run[0], lo, hi)
    ensures Inv(run[|ops|], lo, hi)
  {
    if |ops| > 0 {
      var n := |ops| - 1;
      RunKeepsInv(ops[..n], run[..n + 1], lo, hi);
      assert Step(run[n], ops[n], run[n + 1]);
      match ops[n]
      case Alloc(k, r) => AllocKeepsInv(run[n], k, r, run[n + 1], lo, hi);
      case Free(b) => MergeKeepsInv(run[n], b, lo, hi);
    }
  }

  /** HISTORY INDEPENDENCE: runs over the same arena that end with the same live blocks end with
      the same free blocks at every order; with nothing live, the initial tiling is back. */
  lemma HistoryIndependence(ops1: seq<Op>, run1: seq<Heap>, ops2: seq<Op>, run2: seq<Heap>, lo: nat, hi: nat)
    requires Run(ops1, run1) && run1[0].live == {} && Tiled(run1[0].free, lo, hi, hi)
    requires Run(ops2, run2) && run2[0].live == {} && Tiled(run2[0].free, lo, hi, hi)
    requires run1[|ops1|].live == run2[|ops2|].live
    ensures run1[|ops1|].free == run2[|ops2|].free
    ensures run1[|ops1|].live == {} ==> run1[|ops1|] == run1[0]
  {
    TilingInv(run1[0].free, lo, hi);
    TilingInv(run2[0].free, lo, hi);
    RunKeepsInv(ops1, run1, lo, hi);
    RunKeepsInv(ops2, run2, lo, hi);
    FreeSetDetermined(run1[|ops1|], run2[|ops2|], lo, hi);
    if run1[|ops1|].live == {} { FreeSetDetermined(run1[|ops1|], run1[0], lo, hi); }
  }
}
