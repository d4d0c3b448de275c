/** Power-of-two blocks as nodes of the binary tree of aligned address ranges.

    The arena is counted in cells of 32 bytes. `Block(k, i)` is the aligned range of `2^k` cells
    that starts at cell `i * 2^k`, so the buddy of a block is its sibling in the tree.
  */
module BuddyTree {
  import opened Bits

  const MIN_BLOCK_SIZE: nat := 32

  datatype Block = Block(order: nat, index: nat)

  function Parent(b: Block): Block { Block(b.order + 1, b.index / 2) }

  function Buddy(b: Block): Block {
    Block(b.order, if b.index % 2 == 0 then b.index + 1 else b.index - 1)
  }

  function Left(b: Block): Block
    requires b.order > 0
  {
    Block(b.order - 1, 2 * b.index)
  }

  function Right(b: Block): Block
    requires b.order > 0
  {
    Block(b.order - 1, 2 * b.index + 1)
  }

  function Cell(c: nat): Block { Block(0, c) }

  /** `b` lies inside `a`. */
  ghost predicate Under(b: Block, a: Block)
    decreases a.order - b.order
  {
    b == a || (b.order < a.order && Under(Parent(b), a))
  }

  ghost predicate Overlap(a: Block, b: Block) { Under(a, b) || Under(b, a) }

  /** First cell and one past the last cell of a block. */
  function Lo(b: Block): nat
    decreases b.order
  {
    if b.order == 0 then b.index else Lo(Left(b))
  }

  function Hi(b: Block): nat { Lo(b) + Pow2(b.order) }

  /** Byte size and byte address. */
  function Size(order: nat): nat { MIN_BLOCK_SIZE * Pow2(order) }

  function Addr(b: Block): nat { MIN_BLOCK_SIZE * Lo(b) }

  lemma {:induction false} UnderTrans(c: Block, b: Block, a: Block)
    requires Under(c, b) && Under(b, a)
    ensures Under(c, a)
    decreases b.order - c.order
  {
    UnderOrder(b, a);
    UnderOrder(c, b);
    if c != b { UnderTrans(Parent(c), b, a); }
  }

  lemma {:induction false} UnderOrder(b: Block, a: Block)
    requires Under(b, a)
    ensures b.order <= a.order && (b.order == a.order ==> a == b)
    decreases a.order - b.order
  {
    if b != a { UnderOrder(Parent(b), a); }
  }

  /** The blocks around one block form a chain. */
  lemma {:induction false} UnderChain(c: Block, a: Block, b: Block)
    requires Under(c, a) && Under(c, b) && a.order <= b.order
    ensures Under(a, b)
    decreases a.order - c.order
  {
    UnderOrder(c, a);
    UnderOrder(c, b);
    if c != a { UnderChain(Parent(c), a, b); }
  }

  lemma {:induction false} UnderChild(c: Block, b: Block)
    requires Under(c, b) && c != b
    ensures b.order > 0 && (Under(c, Left(b)) || Under(c, Right(b)))
    decreases b.order - c.order
  {
    UnderOrder(c, b);
    if Parent(c) == b {
      assert c == Left(b) || c == Right(b);
    } else {
      UnderChild(Parent(c), b);
    }
  }

  /** A block holds exactly the cells of its interval. */
  lemma {:induction false} CellsOf(c: nat, b: Block)
    ensures Under(Cell(c), b) <==> Lo(b) <= c < Hi(b)
    decreases b.order
  {
    if b.order == 0 {
    } else {
      CellsOf(c, Left(b));
      CellsOf(c, Right(b));
      Halves(b);
      UnderHalves(Cell(c), b);
    }
  }

  /** The same in bytes: byte `x` belongs to block `b` exactly when it lies in its address range. */
  lemma BytesOf(x: nat, b: Block)
    ensures Under(Cell(x / MIN_BLOCK_SIZE), b) <==> Addr(b) <= x < Addr(b) + Size(b.order)
  {
    CellsOf(x / MIN_BLOCK_SIZE, b);
  }

  lemma UnderHalves(c: Block, b: Block)
    requires c.order < b.order
    ensures Under(c, b) <==> Under(c, Left(b)) || Under(c, Right(b))
  {
    assert Parent(Left(b)) == b && Parent(Right(b)) == b;
    assert Under(Left(b), b) && Under(Right(b), b);
    if Under(c, b) {
      UnderChild(c, b);
    } else if Under(c, Left(b)) {
      UnderTrans(c, Left(b), b);
    } else if Under(c, Right(b)) {
      UnderTrans(c, Right(b), b);
    }
  }

  lemma {:induction false} LoDouble(k: nat, i: nat)
    ensures Lo(Block(k + 1, i)) == 2 * Lo(Block(k, i))
  {
    assert Left(Block(k + 1, i)) == Block(k, 2 * i);
    if k > 0 {
      LoDouble(k - 1, 2 * i);
      assert Left(Block(k, i)) == Block(k - 1, 2 * i);
    }
  }

  /** A block starts at a multiple of its size, and every such cell starts a block. */
  lemma {:induction false} LoAligned(b: Block)
    ensures LowZero(Lo(b), b.order) && Bit(Lo(b), b.order) == (b.index % 2 == 1)
    decreases b.order
  {
    if b.order > 0 {
      var c := Block(b.order - 1, b.index);
      LoDouble(b.order - 1, b.index);
      LoAligned(c);
      assert Lo(b) / 2 == Lo(c);
    }
  }

  lemma {:induction false} BlockAt(c: nat, k: nat)
    requires LowZero(c, k)
    ensures Lo(Block(k, ShiftRight(c, k))) == c
  {
    if k > 0 {
      BlockAt(c / 2, k - 1);
      LoDouble(k - 1, ShiftRight(c / 2, k - 1));
    }
  }

  lemma {:induction false} LoNext(b: Block)
    ensures Lo(Block(b.order, b.index + 1)) == Lo(b) + Pow2(b.order)
    decreases b.order
  {
    if b.order > 0 {
      LoNext(Left(b));
      LoNext(Right(b));
      assert Left(Block(b.order, b.index + 1)) == Block(b.order - 1, 2 * b.index + 2);
    }
  }

  lemma Halves(b: Block)
    requires b.order > 0
    ensures Lo(Left(b)) == Lo(b) && Hi(Left(b)) == Lo(Right(b)) && Hi(Right(b)) == Hi(b)
    ensures Lo(Right(b)) == Lo(b) + Pow2(b.order - 1)
  {
    LoNext(Left(b));
  }

  lemma SharedCell(c: nat, a: Block, b: Block)
    requires Under(Cell(c), a) && Under(Cell(c), b)
    ensures Overlap(a, b)
  {
    if a.order <= b.order { UnderChain(Cell(c), a, b); } else { UnderChain(Cell(c), b, a); }
  }

  lemma FirstCell(b: Block)
    ensures Under(Cell(Lo(b)), b)
  {
    CellsOf(Lo(b), b);
  }

  lemma OverlapCell(a: Block, b: Block) returns (c: nat)
    requires Overlap(a, b)
    ensures Under(Cell(c), a) && Under(Cell(c), b)
  {
    if Under(a, b) {
      c := Lo(a); FirstCell(a); UnderTrans(Cell(c), a, b);
    } else {
      c := Lo(b); FirstCell(b); UnderTrans(Cell(c), b, a);
    }
  }

  /** Two blocks that start at the same byte overlap. */
  lemma SameAddr(a: Block, b: Block)
    requires Addr(a) == Addr(b)
    ensures Overlap(a, b)
  {
    FirstCell(a);
    FirstCell(b);
    assert Lo(a) == Lo(b);
    SharedCell(Lo(a), a, b);
  }

  lemma BuddyFacts(b: Block)
    ensures Buddy(Buddy(b)) == b && Buddy(b) != b && Parent(Buddy(b)) == Parent(b)
    ensures Left(Parent(b)) == b || Left(Parent(b)) == Buddy(b)
    ensures {Left(Parent(b)), Right(Parent(b))} == {b, Buddy(b)}
    ensures !Overlap(b, Buddy(b))
  {
    if Overlap(b, Buddy(b)) { UnderFromSameOrder(b, Buddy(b)); }
  }

  lemma UnderFromSameOrder(a: Block, b: Block)
    requires Overlap(a, b) && a.order == b.order
    ensures a == b
  {
    if Under(a, b) { UnderOrder(a, b); } else { UnderOrder(b, a); }
  }

  /** Whatever meets the parent meets one of the two halves. */
  lemma OverlapParent(x: Block, b: Block)
    requires Overlap(x, Parent(b))
    ensures Overlap(x, b) || Overlap(x, Buddy(b))
  {
    BuddyFacts(b);
    if Under(Parent(b), x) {
      UnderOrder(Parent(b), x);
      assert Under(b, Parent(b));
      UnderTrans(b, Parent(b), x);
    } else {
      UnderChild(x, Parent(b));
    }
  }
}
