/** The allocator itself: list heads, next pointers stored inside free blocks, and the loops that
    split and merge. Every method is tied to the block sets of `BuddySpec`. */
module BuddyAllocator {
  import opened Bits
  import opened BuddySpec
  import opened BuddyTree
  import opened Common

  /** A request; the alignment `2^alignBits` is a power of two as in any Rust layout. */
  datatype Layout = Layout(size: nat, alignBits: nat)

  function Request(l: Layout): nat { Max(Max(l.size, Pow2(l.alignBits)), MIN_BLOCK_SIZE) }

  /** First order from `k` up whose blocks hold `size` bytes, or the largest order. */
  function OrderFrom(k: nat, size: nat): nat
    decreases MAX_ORDER - k
  {
    if k < MAX_ORDER && Size(k) < size then OrderFrom(k + 1, size) else k
  }

  function OrderOf(l: Layout): nat { OrderFrom(0, Request(l)) }

  lemma {:induction false} OrderFits(k: nat, size: nat)
    requires k <= MAX_ORDER
    ensures k <= OrderFrom(k, size) <= MAX_ORDER
    ensures Size(OrderFrom(k, size)) >= size || OrderFrom(k, size) == MAX_ORDER
    ensures k < OrderFrom(k, size) ==> Size(OrderFrom(k, size) - 1) < size
    decreases MAX_ORDER - k
  {
    if k < MAX_ORDER && Size(k) < size { OrderFits(k + 1, size); }
  }

  /** Blocks of order `k` are large enough for the request and for its alignment. */
  predicate Fits(l: Layout, k: nat) { l.size <= Size(k) && Pow2(l.alignBits) <= Size(k) }

  /** `k` is the least order whose blocks fit. */
  predicate LeastFit(l: Layout, k: nat) {
    k <= MAX_ORDER && Fits(l, k) && forall j :: 0 <= j < k ==> !Fits(l, j)
  }

  lemma {:induction false} SizeMono(j: nat, k: nat)
    requires j <= k
    ensures MIN_BLOCK_SIZE <= Size(j) <= Size(k)
    decreases k
  {
    if j < k { SizeMono(j, k - 1); } else if k > 0 { SizeMono(k - 1, k - 1); }
  }

  /** The order computed from the request is the least that fits, if any does. */
  lemma OrderLeast(l: Layout)
    ensures Request(l) <= Size(MAX_ORDER) <==> Fits(l, MAX_ORDER)
    ensures Fits(l, MAX_ORDER) ==> LeastFit(l, OrderOf(l)) && Request(l) <= Size(OrderOf(l))
    ensures !Fits(l, MAX_ORDER) ==> OrderOf(l) == MAX_ORDER && Size(MAX_ORDER) < Request(l)
  {
    var k := OrderOf(l);
    OrderFits(0, Request(l));
    SizeMono(0, MAX_ORDER);
    SizeMono(0, k);
    SizeMono(k, MAX_ORDER);
    forall j | 0 <= j < k
      ensures Size(j) < Request(l) && MIN_BLOCK_SIZE <= Size(j) && (Fits(l, j) <==> Request(l) <= Size(j))
    {
      SizeMono(j, k - 1);
    }
  }

  /** Somewhere in the arena a block that fits the request is wholly free. */
  ghost predicate RoomForLayout(l: Layout, live: set<Block>, lo: nat, hi: nat) {
    exists k: nat :: k <= MAX_ORDER && Fits(l, k) && RoomFor(k, live, lo, hi)
  }

  /** A larger wholly free block is room for the least order as well. */
  lemma RoomForLeast(h: Heap, l: Layout, lo: nat, hi: nat)
    requires Inv(h, lo, hi)
    ensures RoomForLayout(l, h.live, lo, hi) <==> Fits(l, MAX_ORDER) && RoomFor(OrderOf(l), h.live, lo, hi)
  {
    OrderLeast(l);
    if k: nat :| k <= MAX_ORDER && Fits(l, k) && RoomFor(k, h.live, lo, hi) {
      SizeMono(k, MAX_ORDER);
      AllocationComplete(h, k, lo, hi);
      AllocationComplete(h, OrderOf(l), lo, hi);
    }
  }

  // ---------------------------------------------------------------- addresses

  lemma SizePow(k: nat)
    ensures Size(k) == Pow2(k + 5)
  {
    assert Pow2(k + 5) == 2 * Pow2(k + 4) == 4 * Pow2(k + 3) == 8 * Pow2(k + 2) == 16 * Pow2(k + 1);
  }

  lemma DoubleBits(c: nat, k: nat)
    ensures LowZero(2 * c, k + 1) == LowZero(c, k) && Bit(2 * c, k + 1) == Bit(c, k)
  {
    assert (2 * c) / 2 == c;
  }

  lemma CellBits(c: nat, k: nat)
    ensures LowZero(32 * c, k + 5) == LowZero(c, k) && Bit(32 * c, k + 5) == Bit(c, k)
  {
    DoubleBits(16 * c, k + 4);
    DoubleBits(8 * c, k + 3);
    DoubleBits(4 * c, k + 2);
    DoubleBits(2 * c, k + 1);
    DoubleBits(c, k);
  }

  lemma AddrInjective(a: Block, b: Block)
    requires a.order == b.order && Addr(a) == Addr(b)
    ensures a == b
  {
    SameAddr(a, b);
    UnderFromSameOrder(a, b);
  }

  /** Flipping the size bit of an address gives the buddy; the smaller of the two is the parent. */
  lemma BuddyByXor(b: Block)
    ensures Xor(Addr(b), Size(b.order)) == Addr(Buddy(b))
    ensures Addr(Parent(b)) == if Addr(b) < Addr(Buddy(b)) then Addr(b) else Addr(Buddy(b))
  {
    SizePow(b.order);
    XorBit(Addr(b), b.order + 5);
    CellBits(Lo(b), b.order);
    LoAligned(b);
    var l, r := Left(Parent(b)), Right(Parent(b));
    assert if b.index % 2 == 0 then l == b && r == Buddy(b) else l == Buddy(b) && r == b;
    Halves(Parent(b));
  }

  /** The mask test of the initialisation loop, in cells. */
  lemma MaskTest(c: nat, k: nat)
    ensures And(MIN_BLOCK_SIZE * c, Size(k) - 1) == 0 <==> LowZero(c, k)
  {
    SizePow(k);
    AndMask(32 * c, k + 5);
    CellBits(c, k);
  }

  /** A block at least as large as a power-of-two alignment is aligned to it. */
  lemma BlockAligned(b: Block, j: nat)
    requires Pow2(j) <= Size(b.order)
    ensures Addr(b) % Pow2(j) == 0
  {
    SizePow(b.order);
    if b.order + 5 < j { Pow2Grows(b.order + 5, j); }
    LoAligned(b);
    CellBits(Lo(b), b.order);
    LowZeroFewer(Addr(b), b.order + 5, j);
    LowZeroMultiple(Addr(b), j);
  }

  // ---------------------------------------------------------------- intrusive lists

  /** The link to element `i` of a chain of addresses; null is zero. */
  function Ptr(l: seq<nat>, i: nat): nat { if i < |l| then l[i] else 0 }

  /** Element `i` is not null and stores the link to its successor. */
  ghost predicate LinkAt(l: seq<nat>, i: nat, memory: map<nat, nat>)
    requires i < |l|
  {
    l[i] != 0 && l[i] in memory && memory[l[i]] == Ptr(l, i + 1)
  }

  ghost predicate Links(l: seq<nat>, memory: map<nat, nat>) {
    forall i: nat :: i < |l| ==> LinkAt(l, i, memory)
  }

  /** A list is a chain of non-null, pairwise distinct addresses that ends in null. */
  ghost predicate ListOk(head: nat, l: seq<nat>, memory: map<nat, nat>) {
    head == Ptr(l, 0) && Links(l, memory) && Distinct(l)
  }

  lemma ListFrame(head: nat, l: seq<nat>, memory: map<nat, nat>, a: nat, v: nat)
    requires ListOk(head, l, memory) && a !in l
    ensures ListOk(head, l, memory[a := v])
  {
    var m := memory[a := v];
    forall i: nat | i < |l|
      ensures LinkAt(l, i, m)
    {
      assert LinkAt(l, i, memory);
    }
  }

  lemma ListPush(head: nat, l: seq<nat>, memory: map<nat, nat>, a: nat)
    requires ListOk(head, l, memory) && a != 0 && a !in l
    ensures ListOk(a, [a] + l, memory[a := head])
  {
    var l', m := [a] + l, memory[a := head];
    forall i: nat | i < |l'|
      ensures LinkAt(l', i, m)
    {
      if i > 0 { assert LinkAt(l, i - 1, memory); }
    }
  }

  function Without(l: seq<nat>, j: nat): seq<nat>
    requires j < |l|
  {
    l[..j] + l[j + 1..]
  }

  lemma WithoutMembers(l: seq<nat>, j: nat)
    requires j < |l| && Distinct(l)
    ensures forall a :: a in Without(l, j) <==> a in l && a != l[j]
    ensures Distinct(Without(l, j))
  {
    var w := Without(l, j);
    assert forall i :: 0 <= i < |w| ==> w[i] == l[if i < j then i else i + 1];
    forall a | a in l && a != l[j]
      ensures a in w
    {
      var i :| 0 <= i < |l| && l[i] == a;
      assert w[if i < j then i else i - 1] == a;
    }
  }

  /** Unlinking the first element moves the head on. */
  lemma ListPop(head: nat, l: seq<nat>, memory: map<nat, nat>)
    requires ListOk(head, l, memory) && l != []
    ensures head == l[0] && head in memory && ListOk(memory[head], l[1..], memory)
    ensures forall a :: a in l[1..] <==> a in l && a != l[0]
  {
    assert LinkAt(l, 0, memory);
    forall i: nat | i < |l[1..]|
      ensures LinkAt(l[1..], i, memory)
    {
      assert LinkAt(l, i + 1, memory);
    }
  }

  /** Unlinking a later element: its successor replaces it in the node before it. */
  lemma ListUnlink(head: nat, l: seq<nat>, memory: map<nat, nat>, j: nat)
    requires ListOk(head, l, memory) && 0 < j < |l|
    ensures l[j] in memory && ListOk(head, Without(l, j), memory[l[j - 1] := memory[l[j]]])
  {
    assert LinkAt(l, j, memory);
    var w := Without(l, j);
    var m := memory[l[j - 1] := memory[l[j]]];
    WithoutMembers(l, j);
    forall i: nat | i < |w|
      ensures LinkAt(w, i, m)
    {
      assert LinkAt(l, if i < j then i else i + 1, memory);
    }
  }

  // ---------------------------------------------------------------- memory of live blocks

  /** No word inside a block of `keep` differs. */
  ghost predicate Untouched(m: map<nat, nat>, m': map<nat, nat>, keep: set<Block>) {
    forall a: nat :: Covered(keep, a / MIN_BLOCK_SIZE) ==> SameAt(m, m', a)
  }

  ghost predicate SameAt(m: map<nat, nat>, m': map<nat, nat>, a: nat) {
    (a in m <==> a in m') && (a in m ==> m[a] == m'[a])
  }

  lemma UntouchedTrans(m: map<nat, nat>, m': map<nat, nat>, m'': map<nat, nat>, keep: set<Block>, more: set<Block>)
    requires Untouched(m, m', keep) && Untouched(m', m'', more) && keep <= more
    ensures Untouched(m, m'', keep)
  {
    forall a: nat | Covered(keep, a / MIN_BLOCK_SIZE)
      ensures SameAt(m, m'', a)
    {
      assert Covered(more, a / MIN_BLOCK_SIZE);
      assert SameAt(m, m', a) && SameAt(m', m'', a);
    }
  }

  lemma WriteOutside(m: map<nat, nat>, x: Block, v: nat, keep: set<Block>)
    requires forall y :: y in keep ==> !Overlap(x, y)
    ensures Untouched(m, m[Addr(x) := v], keep)
  {
    FirstCell(x);
    if Covered(keep, Lo(x)) {
      var y :| y in keep && Under(Cell(Lo(x)), y);
      SharedCell(Lo(x), x, y);
    }
  }

  // ---------------------------------------------------------------- the allocator

  /** The tile that initialisation adds at byte address `curr`. */
  lemma NextTile(free: set<Block>, lo: nat, curr: nat, hi: nat, ord: nat) returns (b: Block)
    requires curr % MIN_BLOCK_SIZE == 0
    requires Tiled(free, lo, curr / MIN_BLOCK_SIZE, hi) && GreedyOrder(curr / MIN_BLOCK_SIZE, hi, ord)
    ensures b.order == ord && Addr(b) == curr
    ensures forall x :: x in free ==> !Overlap(b, x)
    ensures (curr + Size(ord)) / MIN_BLOCK_SIZE <= hi
    ensures Tiled(free + {b}, lo, (curr + Size(ord)) / MIN_BLOCK_SIZE, hi)
  {
    var c := curr / MIN_BLOCK_SIZE;
    b := BlockFrom(c, hi, ord);
    TileOne(free, lo, c, hi, b);
    assert (curr + Size(ord)) / MIN_BLOCK_SIZE == Hi(b);
    assert b in free + {b} && forall x :: x in free ==> x in free + {b};
  }

  lemma BlockFrom(c: nat, hi: nat, k: nat) returns (b: Block)
    requires GreedyOrder(c, hi, k)
    ensures b.order == k && Lo(b) == c && Hi(b) <= hi
  {
    BlockAt(c, k);
    b := Block(k, ShiftRight(c, k));
  }

  lemma FreeAtPlus(free: set<Block>, b: Block)
    ensures forall k: nat, a :: FreeAt(free + {b}, k, a) <==> FreeAt(free, k, a) || (k == b.order && a == Addr(b))
  {
    forall k: nat, a
      ensures FreeAt(free + {b}, k, a) <==> FreeAt(free, k, a) || (k == b.order && a == Addr(b))
    {
      if x :| x in free && x.order == k && Addr(x) == a { assert x in free + {b}; }
      if k == b.order && a == Addr(b) { assert b in free + {b}; }
    }
  }

  lemma FreeAtMinus(free: set<Block>, b: Block)
    requires b in free
    ensures forall k: nat, a :: FreeAt(free - {b}, k, a) <==> FreeAt(free, k, a) && !(k == b.order && a == Addr(b))
  {
    forall k: nat, a
      ensures FreeAt(free - {b}, k, a) <==> FreeAt(free, k, a) && !(k == b.order && a == Addr(b))
    {
      if x :| x in free - {b} && x.order == k && Addr(x) == a && k == b.order && a == Addr(b) {
        AddrInjective(x, b);
      }
      if x :| x in free && x.order == k && Addr(x) == a && !(k == b.order && a == Addr(b)) {
        assert x in free - {b};
      }
    }
  }

  ghost predicate FreeAt(free: set<Block>, k: nat, a: nat) {
    exists b :: b in free && b.order == k && Addr(b) == a
  }

  class BuddyAllocator {
    var freeLists: seq<nat>
    var heapStart: nat
    var heapSize: nat
    /** Raw memory: the link word stored at an address. */
    var memory: map<nat, nat>
    ghost var chains: seq<seq<nat>>
    ghost var heap: Heap

    ghost function FirstArenaCell(): nat
      reads this
    {
      heapStart / MIN_BLOCK_SIZE
    }

    ghost function EndArenaCell(): nat
      reads this
    {
      (heapStart + heapSize) / MIN_BLOCK_SIZE
    }

    /** The chains spell out exactly the free blocks, order by order. */
    ghost predicate ListsOk()
      reads this
    {
      && |freeLists| == |chains| == MAX_ORDER + 1
      && (forall k :: 0 <= k <= MAX_ORDER ==> ListOk(freeLists[k], chains[k], memory))
      && (forall b :: b in heap.free ==> b.order <= MAX_ORDER)
      && (forall k: nat, a :: k <= MAX_ORDER ==> (a in chains[k] <==> FreeAt(heap.free, k, a)))
    }

    ghost predicate Valid()
      reads this
    {
      && heapStart > 0 && heapStart % MIN_BLOCK_SIZE == 0
      && ListsOk()
      && Inv(heap, FirstArenaCell(), EndArenaCell())
    }

    /** The arena is every cell of 32 bytes that lies wholly inside the heap. */
    lemma ArenaIs(c: nat)
      requires Valid()
      ensures FirstArenaCell() <= c < EndArenaCell() <==> heapStart <= 32 * c && 32 * c + 32 <= heapStart + heapSize
    {
    }

    /** The lists themselves are canonical: two allocators of one arena with the same live blocks
        hold the same addresses at every order, in whatever order they came to. */
    lemma ListsCanonical(other: BuddyAllocator, k: nat)
      requires Valid() && other.Valid() && heapStart == other.heapStart && heapSize == other.heapSize
      requires heap.live == other.heap.live && k <= MAX_ORDER
      ensures forall a: nat :: a in chains[k] <==> a in other.chains[k]
    {
      FreeSetDetermined(heap, other.heap, FirstArenaCell(), EndArenaCell());
    }

    /** A byte of a live block is no list node. */
    lemma LiveIsNoNode(a: nat, b: Block, k: nat)
      requires Valid() && b in heap.live && Addr(b) <= a < Addr(b) + Size(b.order) && k <= MAX_ORDER
      ensures a !in chains[k]
    {
      if a in chains[k] {
        assert FreeAt(heap.free, k, a);
        var x :| x in heap.free && x.order == k && Addr(x) == a;
        BytesOf(a, b);
        FirstCell(x);
        SharedCell(Lo(x), x, b);
      }
    }

    /** The owner of a live block writes a word into it: the heap does not notice. */
    method OwnerStores(a: nat, v: nat, ghost b: Block)
      requires Valid() && b in heap.live && Addr(b) <= a < Addr(b) + Size(b.order)
      modifies this`memory
      ensures Valid() && memory == old(memory)[a := v]
    {
      forall k | 0 <= k <= MAX_ORDER
        ensures ListOk(freeLists[k], chains[k], memory[a := v])
      {
        LiveIsNoNode(a, b, k);
        ListFrame(freeLists[k], chains[k], memory, a, v);
      }
      memory := memory[a := v];
    }

    /** Every block of a valid heap has a non-null address. */
    lemma NonNull(b: Block)
      requires heapStart > 0 && heapStart % MIN_BLOCK_SIZE == 0
      requires Inv(heap, FirstArenaCell(), EndArenaCell()) && b in heap.free + heap.live
      ensures Addr(b) != 0
    {
      FirstCell(b);
      assert Covered(heap.free + heap.live, Lo(b));
    }

    constructor ()
      ensures freeLists == seq(MAX_ORDER + 1, _ => 0) && heapStart == heapSize == 0 && memory == map[]
    {
      freeLists := seq(MAX_ORDER + 1, _ => 0);
      heapStart, heapSize := 0, 0;
      memory := map[];
      chains := seq(MAX_ORDER + 1, _ => []);
      heap := Heap({}, {});
    }

    method AddToFreeList(ptr: nat, order: nat, ghost b: Block)
      requires ListsOk() && order <= MAX_ORDER
      requires b.order == order && Addr(b) == ptr != 0
      requires forall x :: x in heap.free ==> !Overlap(b, x)
      modifies this`freeLists, this`memory, this`chains, this`heap
      ensures ListsOk()
      ensures heap == Heap(old(heap.free) + {b}, old(heap.live))
      ensures memory == old(memory)[ptr := old(freeLists[order])]
    {
      ghost var m0 := memory;
      forall x | x in heap.free
        ensures Addr(x) != ptr
      {
        if Addr(x) == ptr { SameAddr(b, x); }
      }
      forall k: nat | k <= MAX_ORDER
        ensures ListOk(freeLists[k], chains[k], m0[ptr := freeLists[order]])
      {
        ListFrame(freeLists[k], chains[k], m0, ptr, freeLists[order]);
      }
      ListPush(freeLists[order], chains[order], m0, ptr);
      FreeAtPlus(heap.free, b);
      memory := memory[ptr := freeLists[order]];
      freeLists := freeLists[order := ptr];
      chains := chains[order := [ptr] + chains[order]];
      heap := Heap(heap.free + {b}, heap.live);
    }

    /** The order the initialisation loop picks at `curr`. */
    method PickOrder(curr: nat, end: nat) returns (ord: nat)
      requires curr % MIN_BLOCK_SIZE == 0
      ensures ord <= MAX_ORDER
      ensures curr + Size(ord) <= end ==> GreedyOrder(curr / MIN_BLOCK_SIZE, end / MIN_BLOCK_SIZE, ord)
      ensures curr + Size(ord) > end ==> ord == 0
    {
      ord := MAX_ORDER;
      ghost var c, hi := curr / MIN_BLOCK_SIZE, end / MIN_BLOCK_SIZE;
      while ord > 0
        invariant 0 <= ord <= MAX_ORDER
        invariant forall j: nat :: ord < j <= MAX_ORDER ==> !(LowZero(c, j) && c + Pow2(j) <= hi)
      {
        var size := Size(ord);
        MaskTest(c, ord);
        if curr + size <= end && And(curr, size - 1) == 0 { break; }
        ord := ord - 1;
      }
    }

    /** One turn of the initialisation loop. */
    method AddTile(curr: nat, ord: nat)
      requires curr % MIN_BLOCK_SIZE == 0 && curr > 0
      requires ListsOk() && heap.live == {}
      requires Tiled(heap.free, FirstArenaCell(), curr / MIN_BLOCK_SIZE, EndArenaCell())
      requires GreedyOrder(curr / MIN_BLOCK_SIZE, EndArenaCell(), ord)
      modifies this`freeLists, this`memory, this`chains, this`heap
      ensures ListsOk() && heap.live == {}
      ensures (curr + Size(ord)) / MIN_BLOCK_SIZE <= EndArenaCell()
      ensures Tiled(heap.free, FirstArenaCell(), (curr + Size(ord)) / MIN_BLOCK_SIZE, EndArenaCell())
    {
      ghost var b := NextTile(heap.free, FirstArenaCell(), curr, EndArenaCell(), ord);
      AddToFreeList(curr, ord, b);
    }

    method Reset(start: nat, size: nat)
      requires start > 0 && start % MIN_BLOCK_SIZE == 0
      requires freeLists == seq(MAX_ORDER + 1, _ => 0)
      modifies this`heapStart, this`heapSize, this`chains, this`heap
      ensures heapStart == start && heapSize == size && heap.live == {}
      ensures ListsOk() && Tiled(heap.free, FirstArenaCell(), FirstArenaCell(), EndArenaCell())
    {
      heapStart, heapSize := start, size;
      chains := seq(MAX_ORDER + 1, _ => []);
      heap := Heap({}, {});
    }

    /** The initialisation loop: at each address the largest aligned block that still fits. */
    method TileArena()
      requires heapStart > 0 && heapStart % MIN_BLOCK_SIZE == 0 && heap.live == {}
      requires ListsOk() && Tiled(heap.free, FirstArenaCell(), FirstArenaCell(), EndArenaCell())
      modifies this`freeLists, this`memory, this`chains, this`heap
      ensures ListsOk() && heap.live == {}
      ensures Tiled(heap.free, FirstArenaCell(), EndArenaCell(), EndArenaCell())
    {
      var curr := heapStart;
      var end := heapStart + heapSize;
      while curr < end
        invariant curr % MIN_BLOCK_SIZE == 0 && heapStart <= curr
        invariant ListsOk() && heap.live == {}
        invariant curr / MIN_BLOCK_SIZE <= EndArenaCell()
        invariant Tiled(heap.free, FirstArenaCell(), curr / MIN_BLOCK_SIZE, EndArenaCell())
      {
        var ord := PickOrder(curr, end);
        var blockSize := Size(ord);
        if curr + blockSize > end { break; }
        AddTile(curr, ord);
        curr := curr + blockSize;
      }
    }

    method Init(start: nat, size: nat)
      requires start > 0 && start % MIN_BLOCK_SIZE == 0
      requires freeLists == seq(MAX_ORDER + 1, _ => 0)
      modifies this
      ensures Valid() && heapStart == start && heapSize == size
      ensures heap.live == {} && Tiled(heap.free, FirstArenaCell(), EndArenaCell(), EndArenaCell())
    {
      Reset(start, size);
      TileArena();
      TilingInv(heap.free, FirstArenaCell(), EndArenaCell());
      assert heap == Heap(heap.free, {});
    }

    method OrderFor(layout: Layout) returns (ord: nat)
      ensures ord == OrderOf(layout)
      ensures if Fits(layout, MAX_ORDER) then LeastFit(layout, ord) else ord == MAX_ORDER
    {
      OrderLeast(layout);
      var size := Request(layout);
      ord := 0;
      while ord < MAX_ORDER && Size(ord) < size
        invariant 0 <= ord <= MAX_ORDER && OrderFrom(ord, size) == OrderOf(layout)
      {
        ord := ord + 1;
      }
    }

    /** Pops the first block of a non-empty list. */
    method PopFront(order: nat) returns (ptr: nat, ghost b: Block)
      requires Valid() && order <= MAX_ORDER && freeLists[order] != 0
      modifies this`freeLists, this`chains, this`heap
      ensures Valid()
      ensures ptr == old(freeLists[order]) && b in old(heap.free) && b.order == order && Addr(b) == ptr
      ensures heap == Heap(old(heap.free) - {b}, old(heap.live) + {b})
    {
      ptr := freeLists[order];
      ListPop(ptr, chains[order], memory);
      assert FreeAt(heap.free, order, ptr);
      b :| b in heap.free && b.order == order && Addr(b) == ptr;
      Take(heap, b, FirstArenaCell(), EndArenaCell());
      FreeAtMinus(heap.free, b);
      freeLists := freeLists[order := memory[ptr]];
      chains := chains[order := chains[order][1..]];
      heap := Heap(heap.free - {b}, heap.live + {b});
    }

    lemma EmptyList(k: nat)
      requires Valid() && k <= MAX_ORDER
      ensures freeLists[k] == 0 <==> forall b :: b in heap.free ==> b.order != k
    {
      assert chains[k] != [] ==> LinkAt(chains[k], 0, memory);
      if freeLists[k] == 0 {
        forall b | b in heap.free
          ensures b.order != k
        {
          assert b.order == k ==> FreeAt(heap.free, k, Addr(b));
        }
      } else {
        assert chains[k][0] in chains[k];
        assert FreeAt(heap.free, k, chains[k][0]);
      }
    }

    /** The smallest order from `ord` up that has a free block, or `MAX_ORDER + 1`. */
    method FirstNonEmpty(ord: nat) returns (foundOrd: nat)
      requires Valid() && ord <= MAX_ORDER
      ensures ord <= foundOrd <= MAX_ORDER + 1
      ensures forall f :: f in heap.free && ord <= f.order ==> foundOrd <= f.order
      ensures foundOrd <= MAX_ORDER ==> freeLists[foundOrd] != 0
    {
      foundOrd := ord;
      while foundOrd <= MAX_ORDER && freeLists[foundOrd] == 0
        invariant ord <= foundOrd <= MAX_ORDER + 1
        invariant forall f :: f in heap.free && ord <= f.order ==> foundOrd <= f.order
        decreases MAX_ORDER + 1 - foundOrd
      {
        EmptyList(foundOrd);
        foundOrd := foundOrd + 1;
      }
    }

    /** First-fit over the orders, then split down to the requested order. */
    method AllocOrder(ord: nat) returns (ptr: nat, ghost b: Block)
      requires Valid() && ord <= MAX_ORDER
      modifies this`freeLists, this`memory, this`chains, this`heap
      ensures Valid()
      ensures Untouched(old(memory), memory, old(heap.live))
      ensures ptr == 0 ==> heap == old(heap) && forall f :: f in heap.free ==> f.order < ord
      ensures ptr != 0 ==> Addr(b) == ptr && AllocStep(old(heap), ord, b, heap)
    {
      var foundOrd := FirstNonEmpty(ord);
      if foundOrd > MAX_ORDER { return 0, Cell(0); }
      ghost var f;
      ptr, f := PopFront(foundOrd);
      SplitDown(ptr, foundOrd, ord, f, old(heap.live));
      b := Descend(f, ord);
      assert AllocStep(old(heap), ord, b, heap);
      NonNull(b);
    }

    method AllocInner(layout: Layout) returns (ptr: nat)
      requires Valid()
      modifies this`freeLists, this`memory, this`chains, this`heap
      ensures Valid()
      ensures Untouched(old(memory), memory, old(heap.live))
      // null exactly when no block of any order that fits is wholly free
      ensures ptr != 0 <==> RoomForLayout(layout, old(heap.live), FirstArenaCell(), EndArenaCell())
      ensures ptr == 0 ==> heap == old(heap)
      // otherwise an aligned block of the least order that fits
      ensures ptr != 0 ==>
              && ptr % Pow2(layout.alignBits) == 0 && LeastFit(layout, OrderOf(layout))
              && exists b :: Addr(b) == ptr && AllocStep(old(heap), OrderOf(layout), b, heap)
    {
      var ord := OrderFor(layout);
      OrderLeast(layout);
      RoomForLeast(heap, layout, FirstArenaCell(), EndArenaCell());
      if Size(ord) < Request(layout) { return 0; }
      AllocationComplete(heap, ord, FirstArenaCell(), EndArenaCell());
      ghost var b;
      ptr, b := AllocOrder(ord);
      if ptr != 0 {
        AllocKeepsInv(old(heap), ord, b, heap, FirstArenaCell(), EndArenaCell());
        BlockAligned(b, layout.alignBits);
      }
    }

    /** One turn of the splitting loop: the right half of the block in hand goes on its list. */
    method SplitHalf(ptr: nat, ord: nat, ghost p: Block, ghost keep: set<Block>)
      requires Valid() && p.order == ord + 1 && Addr(p) == ptr
      requires p !in keep && heap.live == keep + {p}
      modifies this`freeLists, this`memory, this`chains, this`heap
      ensures Valid() && Untouched(old(memory), memory, keep)
      ensures heap == Heap(old(heap.free) + {Right(p)}, keep + {Left(p)})
      ensures Addr(Left(p)) == ptr && Left(p) !in keep
    {
      var buddy := ptr + Size(ord);
      ghost var h := heap;
      Halves(p);
      SplitOne(h, p, FirstArenaCell(), EndArenaCell());
      SplitApart(h, p, FirstArenaCell(), EndArenaCell());
      assert Overlap(Left(p), Left(p));
      WriteOutside(memory, Right(p), freeLists[ord], keep);
      assert h.live - {p} + {Left(p)} == keep + {Left(p)};
      heap := Heap(heap.free, keep + {Left(p)});
      AddToFreeList(buddy, ord, Right(p));
    }

    /** The splitting loop: `f`, already off its list, is halved until order `ord` is left. */
    method SplitDown(ptr: nat, found: nat, ord: nat, ghost f: Block, ghost keep: set<Block>)
      requires Valid() && ord <= f.order == found && Addr(f) == ptr
      requires f !in keep && heap.live == keep + {f}
      modifies this`freeLists, this`memory, this`chains, this`heap
      ensures Valid()
      ensures heap == Heap(old(heap.free) + SplitOff(f, ord), keep + {Descend(f, ord)})
      ensures Addr(Descend(f, ord)) == ptr
      ensures Untouched(old(memory), memory, keep)
    {
      var foundOrd := found;
      ghost var p := f;
      while foundOrd > ord
        invariant ord <= foundOrd == p.order && Addr(p) == ptr
        invariant Valid() && p !in keep && heap.live == keep + {p}
        invariant heap.free + SplitOff(p, ord) == old(heap.free) + SplitOff(f, ord)
        invariant Descend(p, ord) == Descend(f, ord)
        invariant Untouched(old(memory), memory, keep)
      {
        foundOrd := foundOrd - 1;
        ghost var m := memory;
        SplitHalf(ptr, foundOrd, p, keep);
        UntouchedTrans(old(memory), m, memory, keep, keep);
        p := Left(p);
      }
    }

    lemma SplitApart(h: Heap, p: Block, lo: nat, hi: nat)
      requires Inv(h, lo, hi) && p in h.live && p.order > 0
      ensures forall x :: x in h.free + h.live && x != p ==> !Overlap(Right(p), x) && !Overlap(Left(p), x)
    {
      forall x | x in h.free + h.live && x != p
        ensures !Overlap(Right(p), x) && !Overlap(Left(p), x)
      {
        if Overlap(x, Right(p)) { HalfOverlap(x, p, Right(p)); }
        if Overlap(x, Left(p)) { HalfOverlap(x, p, Left(p)); }
      }
    }

    /** Walks a list until the buddy's address or null; `prev` is the node before. */
    method Walk(head: nat, buddy: nat, ghost l: seq<nat>) returns (prev: nat, node: nat, ghost j: nat)
      requires ListOk(head, l, memory)
      ensures j <= |l| && node == Ptr(l, j)
      ensures if j == 0 then prev == 0 else prev == l[j - 1]
      ensures node != 0 ==> node == buddy
      ensures node == 0 ==> buddy !in l
    {
      prev, node, j := 0, head, 0;
      while node != 0 && node != buddy
        invariant 0 <= j <= |l| && node == Ptr(l, j)
        invariant if j == 0 then prev == 0 else prev == l[j - 1]
        invariant forall i :: 0 <= i < j ==> l[i] != buddy
        decreases |l| - j
      {
        assert LinkAt(l, j, memory);
        prev := node;
        node := memory[node];
        j := j + 1;
      }
      assert j < |l| ==> LinkAt(l, j, memory);
    }

    /** When the buddy is on the list of `order`, takes it off. */
    method UnlinkIfFree(order: nat, buddy: nat, ghost b: Block) returns (isFree: bool)
      requires Valid() && order < MAX_ORDER && b.order == order && Addr(b) == buddy
      modifies this`freeLists, this`memory, this`chains, this`heap
      ensures ListsOk()
      ensures isFree <==> b in old(heap.free)
      ensures heap == Heap(old(heap.free) - {b}, old(heap.live))
      ensures Untouched(old(memory), memory, heap.live)
    {
      ghost var j;
      var prev, node;
      prev, node, j := Walk(freeLists[order], buddy, chains[order]);
      isFree := node != 0;
      if isFree {
        assert FreeAt(heap.free, order, buddy);
        ghost var b' :| b' in heap.free && b'.order == order && Addr(b') == buddy;
        AddrInjective(b, b');
        UnlinkAt(order, prev, node, b, j);
      } else {
        assert b in heap.free ==> FreeAt(heap.free, order, buddy);
        assert heap.free - {b} == heap.free;
      }
    }

    /** The pointer update of the walk: `prev` is the node before, or zero for the list head. */
    method UnlinkAt(order: nat, prev: nat, node: nat, ghost b: Block, ghost j: nat)
      requires Valid() && order < MAX_ORDER && b in heap.free && b.order == order && Addr(b) == node
      requires j < |chains[order]| && chains[order][j] == node
      requires if j == 0 then prev == 0 else prev == chains[order][j - 1]
      modifies this`freeLists, this`memory, this`chains, this`heap
      ensures ListsOk()
      ensures heap == Heap(old(heap.free) - {b}, old(heap.live))
      ensures Untouched(old(memory), memory, heap.live)
    {
      ghost var l := chains[order];
      assert LinkAt(l, j, memory);
      var next := memory[node];
      WithoutMembers(l, j);
      FreeAtMinus(heap.free, b);
      if j == 0 {
        ListPop(freeLists[order], l, memory);
        assert Without(l, 0) == l[1..];
      } else {
        assert LinkAt(l, j - 1, memory);
        ListUnlink(freeLists[order], l, memory, j);
        OtherLists(order, prev, next);
      }
      if prev == 0 {
        freeLists := freeLists[order := next];
      } else {
        memory := memory[prev := next];
      }
      chains := chains[order := Without(l, j)];
      heap := Heap(heap.free - {b}, heap.live);
    }

    /** Writing a node of one list changes neither the other lists nor any live block. */
    lemma OtherLists(order: nat, a: nat, v: nat)
      requires Valid() && order < MAX_ORDER && a in chains[order]
      ensures forall k: nat :: k <= MAX_ORDER && k != order ==> ListOk(freeLists[k], chains[k], memory[a := v])
      ensures Untouched(memory, memory[a := v], heap.live)
    {
      assert FreeAt(heap.free, order, a);
      var x :| x in heap.free && x.order == order && Addr(x) == a;
      WriteOutside(memory, x, v, heap.live);
      forall k: nat | k <= MAX_ORDER && k != order
        ensures ListOk(freeLists[k], chains[k], memory[a := v])
      {
        if a in chains[k] {
          assert FreeAt(heap.free, k, a);
          var y :| y in heap.free && y.order == k && Addr(y) == a;
          SameAddr(x, y);
          assert false;
        }
        ListFrame(freeLists[k], chains[k], memory, a, v);
      }
    }

    /** One turn of the merging loop: `p`, in hand at `current`, swallows its buddy if that is free. */
    method MergeOne(current: nat, ord: nat, ghost p: Block, ghost keep: set<Block>) returns (isFree: bool, next: nat)
      requires Valid() && ord == p.order < MAX_ORDER && Addr(p) == current
      requires p !in keep && heap.live == keep + {p}
      modifies this`freeLists, this`memory, this`chains, this`heap
      ensures Valid() && Untouched(old(memory), memory, keep)
      ensures isFree <==> Buddy(p) in old(heap.free)
      ensures isFree ==> heap == Heap(old(heap.free) - {Buddy(p)}, keep + {Parent(p)}) && Parent(p) !in keep
      ensures isFree ==> next == Addr(Parent(p))
      ensures !isFree ==> heap == old(heap)
    {
      var buddy := Xor(current, Size(ord));
      BuddyByXor(p);
      ghost var h := heap;
      isFree := UnlinkIfFree(ord, buddy, Buddy(p));
      UntouchedTrans(old(memory), old(memory), memory, keep, heap.live);
      next := if current < buddy then current else buddy;
      if isFree {
        JoinOne(h, p, FirstArenaCell(), EndArenaCell());
        ParentFresh(h, p, FirstArenaCell(), EndArenaCell());
        assert h.live - {p} + {Parent(p)} == keep + {Parent(p)};
        heap := Heap(heap.free, keep + {Parent(p)});
      }
    }

    /** The end of the merging loop: the block in hand goes on its list. */
    method FinishFree(current: nat, ord: nat, ghost p: Block, ghost keep: set<Block>)
      requires Valid() && ord == p.order <= MAX_ORDER && Addr(p) == current
      requires p !in keep && heap.live == keep + {p}
      requires ord == MAX_ORDER || Buddy(p) !in heap.free
      modifies this`freeLists, this`memory, this`chains, this`heap
      ensures Valid() && Untouched(old(memory), memory, keep)
      ensures heap == Heap(old(heap.free) + {p}, keep)
    {
      ghost var h := heap;
      Put(h, p, FirstArenaCell(), EndArenaCell());
      NonNull(p);
      WriteOutside(memory, p, freeLists[ord], keep);
      AddToFreeList(current, ord, p);
      assert h.live - {p} == keep;
      heap := Heap(heap.free, keep);
    }

    /** Frees a live block: merges with the buddy for as long as the buddy is free. */
    method DeallocInner(ptr: nat, layout: Layout, ghost b: Block)
      requires Valid() && b in heap.live && b.order == OrderOf(layout) && Addr(b) == ptr
      modifies this`freeLists, this`memory, this`chains, this`heap
      ensures Valid()
      ensures heap == FreeStep(old(heap), b)
      ensures Untouched(old(memory), memory, heap.live)
    {
      var ord := OrderFor(layout);
      OrderFits(0, Request(layout));
      var current := ptr;
      ghost var p, keep := b, heap.live - {b};
      while ord < MAX_ORDER
        invariant ord == p.order <= MAX_ORDER && Addr(p) == current
        invariant Valid() && p !in keep && heap.live == keep + {p}
        invariant Merge(heap.free, p) == Merge(old(heap.free), b)
        invariant Untouched(old(memory), memory, keep)
      {
        ghost var m := memory;
        var isFree, next := MergeOne(current, ord, p, keep);
        UntouchedTrans(old(memory), m, memory, keep, keep);
        if !isFree { break; }
        current, ord, p := next, ord + 1, Parent(p);
      }
      ghost var m := memory;
      FinishFree(current, ord, p, keep);
      UntouchedTrans(old(memory), m, memory, keep, keep);
    }

    lemma ParentFresh(h: Heap, p: Block, lo: nat, hi: nat)
      requires Inv(h, lo, hi) && p in h.live
      ensures Parent(p) !in h.live
    {
      assert Under(p, Parent(p));
      assert Overlap(p, Parent(p));
    }
  }
}
