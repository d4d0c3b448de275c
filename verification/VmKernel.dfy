/** The kernel objects behind paging: page mapper, frame pool, per-process memory manager. Each
    method is tied to the value functions of `Paging`. */
module VmKernel {
  import opened Common
  import opened Paging
  import SP = SwapPartition

  class PageMapper {
    var table: map<nat, Pte>

    constructor ()
      ensures table == map[]
    {
      table := map[];
    }

    method MapPage(page: nat, frame: nat, flags: Flags)
      requires page !in table
      modifies this
      ensures table == old(table)[page := Pte(frame, flags)]
    {
      table := table[page := Pte(frame, flags)];
    }

    method UnmapPage(page: nat) returns (frame: nat)
      requires page in table
      modifies this
      ensures frame == old(table)[page].frame && table == old(table) - {page}
    {
      frame := table[page].frame;
      table := table - {page};
    }

    method RemapFlags(page: nat, flags: Flags)
      requires page in table
      modifies this
      ensures table == old(table)[page := Pte(old(table)[page].frame, flags)]
    {
      table := table[page := Pte(table[page].frame, flags)];
    }
  }

  /** Physical frames and the free list over them. */
  class FramePool {
    var mem: map<nat, Page>
    var free: seq<nat>

    constructor (free: seq<nat>)
      ensures this.free == free && mem == map[]
    {
      this.free := free;
      mem := map[];
    }

    method Allocate() returns (frame: Option<nat>)
      modifies this`free
      ensures frame == if old(free) == [] then None else Some(old(free)[0])
      ensures free == if old(free) == [] then [] else old(free)[1..]
    {
      if free == [] { return None; }
      frame := Some(free[0]);
      free := free[1..];
    }

    method Deallocate(frame: nat)
      modifies this
      ensures free == [frame] + old(free)
      ensures mem == old(mem)[frame := WithLink(FrameAt(old(mem), frame), LinkBytes(old(free)))]
    {
      mem := mem[frame := WithLink(FrameAt(mem, frame), LinkBytes(free))];
      free := [frame] + free;
    }
  }

  ghost function PhysOf(pool: FramePool, swap: SP.SwapPartition): Phys
    requires swap.Valid()
    reads pool, swap, swap.disk
  {
    Phys(pool.mem, pool.free, swap.Contents())
  }

  ghost function SpaceOf(vmm: Vmm, mapper: PageMapper): Space
    reads vmm, mapper
  {
    Space(vmm.areas, mapper.table, vmm.swapped)
  }

  class Vmm {
    var areas: seq<Area>
    var swapped: map<nat, Record>

    constructor ()
      ensures areas == [] && swapped == map[]
    {
      areas := [];
      swapped := map[];
    }

    method AddArea(area: Area)
      modifies this`areas
      ensures areas == old(areas) + [area]
    {
      areas := areas + [area];
    }

    method RecordSwapped(page: nat, slot: nat, flags: Flags)
      modifies this`swapped
      ensures swapped == old(swapped)[page := Record(slot, flags)]
    {
      swapped := swapped[page := Record(slot, flags)];
    }

    /** The records name slots of the partition, and no page is both mapped and swapped. */
    ghost predicate Consistent(mapper: PageMapper, swap: SP.SwapPartition)
      reads this, mapper, swap
    {
      forall p :: p in swapped ==> p !in mapper.table && swapped[p].slot < |swap.free|
    }

    method FindArea(addr: nat) returns (r: Option<Area>)
      ensures r == Paging.FindArea(areas, addr)
    {
      var i := 0;
      assert areas[0..] == areas;
      while i < |areas|
        invariant 0 <= i <= |areas|
        invariant Paging.FindArea(areas[i..], addr) == Paging.FindArea(areas, addr)
      {
        if areas[i].start <= addr < areas[i].end { return Some(areas[i]); }
        assert areas[i..][1..] == areas[i + 1..];
        i := i + 1;
      }
      return None;
    }

    method HandleFault(addr: nat, mapper: PageMapper, pool: FramePool, swap: SP.SwapPartition, isWrite: bool)
      returns (ok: bool)
      requires swap.Valid() && Consistent(mapper, swap)
      modifies this`swapped, mapper, pool, swap`free, swap.sector
      ensures swap.Valid()
      ensures (PhysOf(pool, swap), SpaceOf(this, mapper), ok)
           == Paging.HandleFault(old(PhysOf(pool, swap)), old(SpaceOf(this, mapper)), addr, isWrite)
    {
      var page := addr / PAGE;
      if page in swapped {
        ok := FaultFromSwap(addr, mapper, pool, swap, isWrite);
        return;
      }
      var area := FindArea(addr);
      if area.None? { return false; }
      if page in mapper.table {
        if !isWrite || !area.value.writable { return false; }
        var frame := pool.Allocate();
        if frame.None? { return false; }
        pool.mem := pool.mem[frame.value := Window(pool.mem, mapper.table[page].frame, addr % PAGE)];
        var _ := mapper.UnmapPage(page);
        mapper.MapPage(page, frame.value, AreaFlags(area.value));
        assert mapper.table == old(mapper.table)[page := Pte(frame.value, AreaFlags(area.value))];
      } else {
        var frame := pool.Allocate();
        if frame.None? { return false; }
        pool.mem := pool.mem[frame.value := Zeros()];
        mapper.MapPage(page, frame.value, AreaFlags(area.value));
      }
      return true;
    }

    /** Shares every resident area page read-only between parent and child. */
    method ForkCow(childMapper: PageMapper, parentMapper: PageMapper) returns (child: Vmm)
      requires WellLaid(areas) && childMapper != parentMapper && childMapper.table == map[]
      modifies childMapper, parentMapper
      ensures fresh(child)
      ensures SpaceOf(this, parentMapper) == ForkParent(old(SpaceOf(this, parentMapper)))
      ensures SpaceOf(child, childMapper) == ForkChild(old(SpaceOf(this, parentMapper)))
    {
      child := new Vmm();
      ghost var before := parentMapper.table;
      var i := 0;
      while i < |areas|
        invariant 0 <= i <= |areas| && child.swapped == map[] && child.areas == areas[..i]
        invariant Forking(before, areas, i, 0, parentMapper.table, childMapper.table)
      {
        child.AddArea(areas[i]);
        ForkArea(i, childMapper, parentMapper, before);
        i := i + 1;
      }
      assert areas[..i] == areas;
      ForkDone(Space(areas, before, swapped), parentMapper.table, childMapper.table);
    }

    /** The inner loop: the pages of one area. */
    method ForkArea(i: nat, childMapper: PageMapper, parentMapper: PageMapper, ghost before: map<nat, Pte>)
      requires WellLaid(areas) && childMapper != parentMapper && i < |areas|
      requires Forking(before, areas, i, 0, parentMapper.table, childMapper.table)
      modifies childMapper, parentMapper
      ensures Forking(before, areas, i + 1, 0, parentMapper.table, childMapper.table)
    {
      var addr := areas[i].start;
      ForkEnter(before, areas, i, parentMapper.table, childMapper.table);
      while addr < areas[i].end
        invariant addr % PAGE == 0 && areas[i].start <= addr
        invariant Forking(before, areas, i, addr, parentMapper.table, childMapper.table)
        decreases areas[i].end - addr
      {
        var page := addr / PAGE;
        forall p: nat
          ensures Visited(areas, i, addr + PAGE, p) <==> Visited(areas, i, addr, p) || p == page
        {
          VisitOne(areas, i, addr, p);
        }
        VisitOne(areas, i, addr, page);
        if page in parentMapper.table {
          var frame := parentMapper.table[page].frame;
          parentMapper.RemapFlags(page, Flags(false, false, false));
          childMapper.MapPage(page, frame, Flags(false, false, false));
        }
        addr := addr + PAGE;
      }
      forall p: nat
        ensures Visited(areas, i + 1, 0, p) <==> Visited(areas, i, addr, p)
      {
        VisitArea(areas, i, addr, 0, p);
      }
    }

    /** The swap-in branch: the record is dropped before a frame is asked for. */
    method FaultFromSwap(addr: nat, mapper: PageMapper, pool: FramePool, swap: SP.SwapPartition, isWrite: bool)
      returns (ok: bool)
      requires swap.Valid() && Consistent(mapper, swap) && addr / PAGE in swapped
      modifies this`swapped, mapper, pool, swap`free, swap.sector
      ensures swap.Valid()
      ensures (PhysOf(pool, swap), SpaceOf(this, mapper), ok)
           == Paging.HandleFault(old(PhysOf(pool, swap)), old(SpaceOf(this, mapper)), addr, isWrite)
    {
      var page := addr / PAGE;
      var rec := swapped[page];
      swapped := swapped - {page};
      var frame := pool.Allocate();
      if frame.None? { return false; }
      var contents := swap.SwapIn(rec.slot);
      pool.mem := pool.mem[frame.value := contents];
      mapper.MapPage(page, frame.value, rec.flags);
      return true;
    }
  }

  // ---------------------------------------------------------------- copy-on-write fork

  /** The areas are page-aligned and do not overlap. */
  ghost predicate WellLaid(areas: seq<Area>) {
    && (forall i :: 0 <= i < |areas| ==> areas[i].start % PAGE == 0 && areas[i].end % PAGE == 0)
    && forall i, j :: 0 <= i < j < |areas| ==> areas[i].end <= areas[j].start || areas[j].end <= areas[i].start
  }

  ghost predicate Holds(area: Area, page: nat) { area.start <= page * PAGE < area.end }

  /** Page visited: in one of the first `i` areas, or in area `i` below `addr`. */
  ghost predicate Visited(areas: seq<Area>, i: nat, addr: nat, page: nat)
    requires i <= |areas|
  {
    || (exists j :: 0 <= j < i && Holds(areas[j], page))
    || (i < |areas| && Holds(areas[i], page) && page * PAGE < addr)
  }

  lemma {:induction false} VisitedAll(areas: seq<Area>, addr: nat, page: nat)
    ensures Visited(areas, |areas|, addr, page) <==> InAreas(areas, page)
  {
    if areas != [] {
      VisitedAll(areas[1..], addr, page);
      if j :| 0 <= j < |areas[1..]| && Holds(areas[1..][j], page) { assert Holds(areas[j + 1], page); }
      if j :| 0 <= j < |areas| && Holds(areas[j], page) && !Holds(areas[0], page) {
        assert Holds(areas[1..][j - 1], page);
      }
      if Holds(areas[0], page) { assert 0 < |areas|; }
    }
  }

  /** How far the fork has got. */
  ghost predicate Forking(before: map<nat, Pte>, areas: seq<Area>, i: nat, addr: nat,
                          parent: map<nat, Pte>, child: map<nat, Pte>)
    requires i <= |areas|
  {
    && parent.Keys == before.Keys
    && (forall p :: p in before ==> parent[p] == if Visited(areas, i, addr, p) then ReadOnly(before[p]) else before[p])
    && (forall p: nat :: p in child <==> p in before && Visited(areas, i, addr, p))
    && (forall p :: p in child ==> p in before && child[p] == ReadOnly(before[p]))
  }

  lemma ForkEnter(before: map<nat, Pte>, areas: seq<Area>, i: nat, parent: map<nat, Pte>, child: map<nat, Pte>)
    requires i < |areas| && Forking(before, areas, i, 0, parent, child)
    ensures Forking(before, areas, i, areas[i].start, parent, child)
  {
    assert forall p: nat :: Visited(areas, i, 0, p) <==> Visited(areas, i, areas[i].start, p);
  }

  lemma ForkDone(sp: Space, parent: map<nat, Pte>, child: map<nat, Pte>)
    requires Forking(sp.table, sp.areas, |sp.areas|, 0, parent, child)
    ensures parent == ForkParent(sp).table && child == ForkChild(sp).table
  {
    forall p: nat
      ensures Visited(sp.areas, |sp.areas|, 0, p) <==> InAreas(sp.areas, p)
    {
      VisitedAll(sp.areas, 0, p);
    }
  }

  /** Visiting the page at `addr` of area `i`. */
  lemma VisitOne(areas: seq<Area>, i: nat, addr: nat, p: nat)
    requires WellLaid(areas) && i < |areas| && areas[i].start <= addr < areas[i].end && addr % PAGE == 0
    ensures Visited(areas, i, addr + PAGE, p) <==> Visited(areas, i, addr, p) || p == addr / PAGE
    ensures !Visited(areas, i, addr, addr / PAGE)
  {
  }

  lemma VisitArea(areas: seq<Area>, i: nat, addr: nat, next: nat, p: nat)
    requires i < |areas| && areas[i].end <= addr
    requires i + 1 < |areas| ==> next <= areas[i + 1].start
    ensures Visited(areas, i + 1, next, p) <==> Visited(areas, i, addr, p)
  {
    if Holds(areas[i], p) { assert i < i + 1; }
  }

  /** Writes a resident page out, records its slot, unmaps it and frees the frame. */
  method EvictAddr(vmm: Vmm, mapper: PageMapper, pool: FramePool, swap: SP.SwapPartition, addr: nat) returns (ok: bool)
    requires swap.Valid()
    modifies vmm`swapped, mapper, pool, swap`free, swap`cursor, swap.disk
    ensures swap.Valid()
    ensures (PhysOf(pool, swap), SpaceOf(vmm, mapper), ok)
         == Paging.EvictAddr(old(PhysOf(pool, swap)), old(SpaceOf(vmm, mapper)), addr)
  {
    var page := addr / PAGE;
    if page !in mapper.table { return false; }
    var pte := mapper.table[page];
    var slot := swap.SwapOut(FrameAt(pool.mem, pte.frame));
    if slot.None? { return false; }
    vmm.RecordSwapped(page, slot.value, Flags(pte.flags.writable, false, false));
    var freed := mapper.UnmapPage(page);
    pool.Deallocate(freed);
    return true;
  }
}
