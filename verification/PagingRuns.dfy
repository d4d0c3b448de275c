/** Whole runs of the paging machine: ownership of frames and slots, and the theorem that faults,
    evictions and copy-on-write are invisible to the processes. */
module PagingRuns {
  import opened Bits
  import opened Common
  import opened Paging

  /** `Walker` is the page-table walker taking a free frame for an intermediate table. */
  datatype Step =
    | Fork(parent: nat, child: nat)
    | Fault(pid: nat, addr: nat, isWrite: bool)
    | Store(pid: nat, addr: nat, value: byte)
    | Load(pid: nat, addr: nat)
    | Evict(pid: nat, addr: nat)
    | Walker

  function PteOf(m: Machine, a: nat, p: nat): Option<Pte> {
    if a in m.spaces && p in m.spaces[a].table then Some(m.spaces[a].table[p]) else None
  }

  function RecOf(m: Machine, a: nat, p: nat): Option<Record> {
    if a in m.spaces && p in m.spaces[a].swapped then Some(m.spaces[a].swapped[p]) else None
  }

  function SlotAt(s: Swap, slot: nat): Page { if slot < |s.slots| then s.slots[slot] else Zeros() }

  /** What process `a` sees in page `p`. */
  function View(m: Machine, a: nat, p: nat): Page {
    match PteOf(m, a, p)
    case Some(pte) => FrameAt(m.phys.mem, pte.frame)
    case None =>
      match RecOf(m, a, p)
      case Some(rec) => SlotAt(m.phys.swap, rec.slot)
      case None => Zeros()
  }

  // ---------------------------------------------------------------- the machine

  function WithSpace(m: Machine, a: nat, ph: Phys, sp: Space): Machine {
    m.(phys := ph, spaces := m.spaces[a := sp])
  }

  function Touched(sp: Space, p: nat, written: bool): Space
    requires p in sp.table
  {
    var pte := sp.table[p];
    sp.(table := sp.table[p := pte.(flags := pte.flags.(accessed := true, dirty := pte.flags.dirty || written))])
  }

  /** What each step may assume: processes exist, loads and stores go through mappings that allow
      them, a swapped page finds a frame to come back to, and an evicted frame has no other mapping. */
  ghost predicate Enabled(m: Machine, s: Step) {
    match s
    case Fork(parent, child) => parent in m.spaces && child !in m.spaces
    case Fault(a, addr, _) => a in m.spaces && (addr / PAGE in m.spaces[a].swapped ==> m.phys.free != [])
    case Store(a, addr, _) =>
      PteOf(m, a, addr / PAGE).Some? && PteOf(m, a, addr / PAGE).value.flags.writable
    case Load(a, addr) => PteOf(m, a, addr / PAGE).Some?
    case Evict(a, addr) => a in m.spaces && (SwapFull(m) || Unshared(m, a, addr / PAGE))
    case Walker => m.phys.free != []
  }

  ghost predicate SwapFull(m: Machine) { NextFree(m.phys.swap.free, m.phys.swap.cursor, 0).None? }

  /** The fault is a write to a mapped page of a writable area, and a frame is there to copy to. */
  predicate Copies(m: Machine, a: nat, addr: nat, w: bool) {
    && a in m.spaces && addr / PAGE in m.spaces[a].table && addr / PAGE !in m.spaces[a].swapped
    && w && FindArea(m.spaces[a].areas, addr).Some? && FindArea(m.spaces[a].areas, addr).value.writable
    && m.phys.free != []
  }

  ghost predicate SameFrame(m: Machine, a: nat, p: nat, b: nat, q: nat) {
    PteOf(m, a, p).Some? && PteOf(m, b, q).Some? && PteOf(m, a, p).value.frame == PteOf(m, b, q).value.frame
  }

  ghost predicate Unshared(m: Machine, a: nat, p: nat) {
    forall b: nat, q: nat :: SameFrame(m, a, p, b, q) ==> b == a && q == p
  }

  function Apply(m: Machine, s: Step): Machine
    requires Enabled(m, s)
  {
    match s
    case Fork(parent, child) =>
      var sp := m.spaces[parent];
      m.(spaces := m.spaces[parent := ForkParent(sp)][child := ForkChild(sp)])
    case Fault(a, addr, w) =>
      var (ph, sp, _) := HandleFault(m.phys, m.spaces[a], addr, w);
      WithSpace(m, a, ph, sp)
    case Store(a, addr, v) =>
      var f := m.spaces[a].table[addr / PAGE].frame;
      var mem := m.phys.mem[f := FrameAt(m.phys.mem, f)[addr % PAGE := v]];
      WithSpace(m, a, m.phys.(mem := mem), Touched(m.spaces[a], addr / PAGE, true))
    case Load(a, addr) =>
      WithSpace(m, a, m.phys, Touched(m.spaces[a], addr / PAGE, false))
    case Evict(a, addr) =>
      var (ph, sp, _) := EvictAddr(m.phys, m.spaces[a], addr);
      WithSpace(m, a, ph, sp)
    case Walker =>
      m.(phys := m.phys.(free := m.phys.free[1..]), tables := m.tables + {m.phys.free[0]})
  }

  // ---------------------------------------------------------------- invariant

  /** Free, mapped and table frames do not meet. */
  ghost predicate FramesOk(m: Machine) {
    && Distinct(m.phys.free)
    && (forall a: nat, p: nat :: PteOf(m, a, p).Some? ==>
          PteOf(m, a, p).value.frame !in m.phys.free && PteOf(m, a, p).value.frame !in m.tables)
    && (forall f :: f in m.tables ==> f !in m.phys.free)
  }

  /** A frame with a writable mapping has exactly one mapping. */
  ghost predicate WritableSole(m: Machine) {
    forall a: nat, p: nat, b: nat, q: nat ::
      SameFrame(m, a, p, b, q) && PteOf(m, a, p).value.flags.writable ==> a == b && p == q
  }

  ghost predicate Names(m: Machine, a: nat, p: nat, slot: nat) {
    RecOf(m, a, p).Some? && RecOf(m, a, p).value.slot == slot
  }

  /** Used slots and swap records match one to one, and no page is both mapped and swapped. */
  ghost predicate SlotsOk(m: Machine) {
    && SwapOk(m.phys.swap)
    && (forall a: nat, p: nat :: RecOf(m, a, p).Some? ==>
          PteOf(m, a, p).None? && RecOf(m, a, p).value.slot < |m.phys.swap.free|
          && !m.phys.swap.free[RecOf(m, a, p).value.slot])
    && (forall a: nat, p: nat, b: nat, q: nat, s: nat :: Names(m, a, p, s) && Names(m, b, q, s) ==> a == b && p == q)
    && (forall s: nat :: 0 <= s < |m.phys.swap.free| && !m.phys.swap.free[s] ==>
          exists a: nat, p: nat :: Names(m, a, p, s))
  }

  ghost predicate Inv(m: Machine) { FramesOk(m) && WritableSole(m) && SlotsOk(m) }

  // ---------------------------------------------------------------- single moves

  /** `m'` differs from `m` at page `p0` of process `a0` only. */
  ghost predicate OnlyAt(m: Machine, m': Machine, a0: nat, p0: nat) {
    forall a: nat, p: nat :: (a, p) != (a0, p0) ==>
      PteOf(m', a, p) == PteOf(m, a, p) && RecOf(m', a, p) == RecOf(m, a, p)
  }

  /** Mapping the first free frame keeps frame ownership. */
  lemma MapKeepsFrames(m: Machine, m': Machine, a0: nat, p0: nat, flags: Flags)
    requires FramesOk(m) && WritableSole(m) && m.phys.free != [] && OnlyAt(m, m', a0, p0)
    requires PteOf(m', a0, p0) == Some(Pte(m.phys.free[0], flags))
    requires m'.phys.free == m.phys.free[1..] && m'.tables == m.tables
    ensures FramesOk(m') && WritableSole(m')
  {
    var f := m.phys.free[0];
    assert f in m.phys.free;
    forall a: nat, p: nat | PteOf(m', a, p).Some?
      ensures PteOf(m', a, p).value.frame !in m'.phys.free && PteOf(m', a, p).value.frame !in m'.tables
    {
      if (a, p) != (a0, p0) { assert PteOf(m, a, p).Some?; }
    }
    forall a: nat, p: nat, b: nat, q: nat | SameFrame(m', a, p, b, q) && PteOf(m', a, p).value.flags.writable
      ensures a == b && p == q
    {
      assert (a, p) != (a0, p0) && (b, q) != (a0, p0) ==> SameFrame(m, a, p, b, q);
    }
  }

  /** A mapping of another page is not the first free frame, so filling that frame is not seen. */
  lemma FreshUnseen(m: Machine, m': Machine, a0: nat, p0: nat, contents: Page, a: nat, p: nat)
    requires FramesOk(m) && m.phys.free != [] && OnlyAt(m, m', a0, p0) && (a, p) != (a0, p0)
    requires m'.phys.mem == m.phys.mem[m.phys.free[0] := contents]
    requires m'.phys.swap.slots == m.phys.swap.slots
    ensures View(m', a, p) == View(m, a, p)
  {
    assert m.phys.free[0] in m.phys.free;
  }

  lemma SameSlots(m: Machine, m': Machine)
    requires SlotsOk(m) && m'.phys.swap == m.phys.swap
    requires forall a: nat, p: nat :: RecOf(m', a, p) == RecOf(m, a, p)
    requires forall a: nat, p: nat :: RecOf(m, a, p).Some? ==> PteOf(m', a, p).None?
    ensures SlotsOk(m')
  {
    forall s: nat | 0 <= s < |m'.phys.swap.free| && !m'.phys.swap.free[s]
      ensures exists a: nat, p: nat :: Names(m', a, p, s)
    {
      var a, p :| Names(m, a, p, s);
      assert Names(m', a, p, s);
    }
    forall a: nat, p: nat, b: nat, q: nat, s: nat | Names(m', a, p, s) && Names(m', b, q, s)
      ensures a == b && p == q
    {
      assert Names(m, a, p, s) && Names(m, b, q, s);
    }
  }

  /** Reading a page back drops its record and frees its slot. */
  lemma DropRecord(m: Machine, m': Machine, a0: nat, p0: nat)
    requires SlotsOk(m) && RecOf(m, a0, p0).Some? && OnlyAt(m, m', a0, p0) && RecOf(m', a0, p0).None?
    requires m'.phys.swap == FreeSlot(m.phys.swap, RecOf(m, a0, p0).value.slot)
    ensures SlotsOk(m')
  {
    var s0 := RecOf(m, a0, p0).value.slot;
    assert Names(m, a0, p0, s0);
    forall a: nat, p: nat | RecOf(m', a, p).Some?
      ensures RecOf(m', a, p).value.slot < |m'.phys.swap.free| && !m'.phys.swap.free[RecOf(m', a, p).value.slot]
    {
      assert RecOf(m, a, p).Some?;
      assert Names(m, a, p, RecOf(m, a, p).value.slot);
    }
    forall s: nat | 0 <= s < |m'.phys.swap.free| && !m'.phys.swap.free[s]
      ensures exists a: nat, p: nat :: Names(m', a, p, s)
    {
      var a, p :| Names(m, a, p, s);
      assert Names(m', a, p, s);
    }
    forall a: nat, p: nat, b: nat, q: nat, s: nat | Names(m', a, p, s) && Names(m', b, q, s)
      ensures a == b && p == q
    {
      assert Names(m, a, p, s) && Names(m, b, q, s);
    }
  }

  /** Writing a page out takes a free slot for its record. */
  lemma AddRecord(m: Machine, m': Machine, a0: nat, p0: nat, slot: nat, page: Page)
    requires SlotsOk(m) && PteOf(m, a0, p0).Some? && OnlyAt(m, m', a0, p0)
    requires NextFree(m.phys.swap.free, m.phys.swap.cursor, 0) == Some(slot)
    requires m'.phys.swap == SwapOut(m.phys.swap, page).0
    requires PteOf(m', a0, p0).None? && RecOf(m', a0, p0).Some? && RecOf(m', a0, p0).value.slot == slot
    ensures SlotsOk(m')
  {
    FoundIsFree(m.phys.swap.free, m.phys.swap.cursor, 0);
    assert Names(m', a0, p0, slot);
    forall a: nat, p: nat | RecOf(m', a, p).Some? && (a, p) != (a0, p0)
      ensures PteOf(m', a, p).None? && RecOf(m', a, p).value.slot != slot
    {
      assert RecOf(m, a, p).Some?;
    }
    forall s: nat | 0 <= s < |m'.phys.swap.free| && !m'.phys.swap.free[s]
      ensures exists a: nat, p: nat :: Names(m', a, p, s)
    {
      if s != slot {
        var a, p :| Names(m, a, p, s);
        assert Names(m', a, p, s);
      }
    }
    forall a: nat, p: nat, b: nat, q: nat, s: nat | Names(m', a, p, s) && Names(m', b, q, s)
      ensures a == b && p == q
    {
      if (a, p) != (a0, p0) && (b, q) != (a0, p0) { assert Names(m, a, p, s) && Names(m, b, q, s); }
    }
  }

  // ---------------------------------------------------------------- steps

  /** What a step means to a process with private memory: only stores and forks do anything. */
  function Meaning(m: Machine, s: Step, a: nat, p: nat): Page {
    match s
    case Store(b, addr, v) =>
      if a == b && p == addr / PAGE then View(m, a, p)[addr % PAGE := v] else View(m, a, p)
    case Fork(parent, child) =>
      if a == child then
        if parent in m.spaces && InAreas(m.spaces[parent].areas, p) then View(m, parent, p) else Zeros()
      else View(m, a, p)
    case _ => View(m, a, p)
  }

  /** The pages whose own contents a step may spoil: a page copied from the middle, and in a new
      child the pages its parent had swapped out. */
  predicate Blurs(m: Machine, s: Step, a: nat, p: nat) {
    match s
    case Fault(b, addr, w) => a == b && p == addr / PAGE && addr % PAGE != 0 && Copies(m, b, addr, w)
    case Fork(parent, child) => a == child && RecOf(m, parent, p).Some? && InAreas(m.spaces[parent].areas, p)
    case _ => false
  }

  ghost predicate StepGood(m: Machine, s: Step)
    requires Enabled(m, s)
  {
    && Inv(Apply(m, s))
    && forall a: nat, p: nat :: !Blurs(m, s, a, p) ==> View(Apply(m, s), a, p) == Meaning(m, s, a, p)
  }

  lemma SwapInGood(m: Machine, a0: nat, addr: nat, w: bool)
    requires Inv(m) && Enabled(m, Fault(a0, addr, w)) && addr / PAGE in m.spaces[a0].swapped
    ensures StepGood(m, Fault(a0, addr, w))
  {
    var p0 := addr / PAGE;
    var m' := Apply(m, Fault(a0, addr, w));
    assert RecOf(m, a0, p0).Some?;
    var rec := RecOf(m, a0, p0).value;
    assert OnlyAt(m, m', a0, p0);
    MapKeepsFrames(m, m', a0, p0, rec.flags);
    DropRecord(m, m', a0, p0);
    forall a: nat, p: nat
      ensures View(m', a, p) == View(m, a, p)
    {
      if (a, p) != (a0, p0) { FreshUnseen(m, m', a0, p0, SlotAt(m.phys.swap, rec.slot), a, p); }
    }
  }

  /** A fault in an area, aligned or not: no other page is seen to change; a page that was mapped
      before now holds the copied window. */
  lemma AreaFaultIsolated(m: Machine, a0: nat, addr: nat, w: bool)
    requires Inv(m) && a0 in m.spaces && HandleFault(m.phys, m.spaces[a0], addr, w).2
    requires addr / PAGE !in m.spaces[a0].swapped
    ensures var (ph, sp, _) := HandleFault(m.phys, m.spaces[a0], addr, w);
            var m' := WithSpace(m, a0, ph, sp);
            && Inv(m')
            && (forall a: nat, p: nat :: (a, p) != (a0, addr / PAGE) ==> View(m', a, p) == View(m, a, p))
            && View(m', a0, addr / PAGE) ==
               match PteOf(m, a0, addr / PAGE)
               case Some(pte) => Window(m.phys.mem, pte.frame, addr % PAGE)
               case None => Zeros()
  {
    var p0 := addr / PAGE;
    var (ph, sp, _) := HandleFault(m.phys, m.spaces[a0], addr, w);
    var m' := WithSpace(m, a0, ph, sp);
    var area := FindArea(m.spaces[a0].areas, addr).value;
    var contents := FrameAt(m'.phys.mem, m.phys.free[0]);
    assert OnlyAt(m, m', a0, p0);
    MapKeepsFrames(m, m', a0, p0, AreaFlags(area));
    SameSlots(m, m');
    forall a: nat, p: nat | (a, p) != (a0, p0)
      ensures View(m', a, p) == View(m, a, p)
    {
      FreshUnseen(m, m', a0, p0, contents, a, p);
    }
  }

  lemma WindowAligned(mem: map<nat, Page>, f: nat)
    ensures Window(mem, f, 0) == FrameAt(mem, f)
  {
  }

  /** Every fault, handled or refused, aligned or not. */
  lemma FaultGood(m: Machine, a0: nat, addr: nat, w: bool)
    requires Inv(m) && Enabled(m, Fault(a0, addr, w))
    ensures StepGood(m, Fault(a0, addr, w))
  {
    var p0 := addr / PAGE;
    if p0 in m.spaces[a0].swapped {
      SwapInGood(m, a0, addr, w);
    } else if HandleFault(m.phys, m.spaces[a0], addr, w).2 {
      AreaFaultIsolated(m, a0, addr, w);
      if p0 in m.spaces[a0].table { WindowAligned(m.phys.mem, m.spaces[a0].table[p0].frame); }
    } else {
      assert m.spaces[a0 := m.spaces[a0]] == m.spaces;
      assert Apply(m, Fault(a0, addr, w)) == m;
    }
  }

  /** Only flags other than `writable` change. */
  lemma TouchKeeps(m: Machine, m': Machine, a0: nat, p0: nat)
    requires Inv(m) && OnlyAt(m, m', a0, p0)
    requires PteOf(m, a0, p0).Some? && PteOf(m', a0, p0).Some? && RecOf(m', a0, p0) == RecOf(m, a0, p0)
    requires PteOf(m', a0, p0).value.frame == PteOf(m, a0, p0).value.frame
    requires PteOf(m', a0, p0).value.flags.writable == PteOf(m, a0, p0).value.flags.writable
    requires m'.phys.free == m.phys.free && m'.phys.swap == m.phys.swap && m'.tables == m.tables
    ensures Inv(m')
  {
    forall a: nat, p: nat
      ensures PteOf(m', a, p).Some? <==> PteOf(m, a, p).Some?
      ensures PteOf(m', a, p).Some? ==> PteOf(m', a, p).value.frame == PteOf(m, a, p).value.frame
    {
    }
    forall a: nat, p: nat, b: nat, q: nat | SameFrame(m', a, p, b, q) && PteOf(m', a, p).value.flags.writable
      ensures a == b && p == q
    {
      assert SameFrame(m, a, p, b, q);
    }
    SameSlots(m, m');
  }

  lemma StoreGood(m: Machine, a0: nat, addr: nat, v: byte)
    requires Inv(m) && Enabled(m, Store(a0, addr, v))
    ensures StepGood(m, Store(a0, addr, v))
  {
    var p0 := addr / PAGE;
    var m' := Apply(m, Store(a0, addr, v));
    assert OnlyAt(m, m', a0, p0);
    TouchKeeps(m, m', a0, p0);
    forall a: nat, p: nat
      ensures View(m', a, p) == Meaning(m, Store(a0, addr, v), a, p)
    {
      if PteOf(m, a, p).Some? && (a, p) != (a0, p0) { assert !SameFrame(m, a0, p0, a, p); }
    }
  }

  lemma LoadGood(m: Machine, a0: nat, addr: nat)
    requires Inv(m) && Enabled(m, Load(a0, addr))
    ensures StepGood(m, Load(a0, addr))
  {
    var p0 := addr / PAGE;
    var m' := Apply(m, Load(a0, addr));
    assert OnlyAt(m, m', a0, p0);
    TouchKeeps(m, m', a0, p0);
  }

  lemma WalkerGood(m: Machine)
    requires Inv(m) && Enabled(m, Walker)
    ensures StepGood(m, Walker)
  {
    var m' := Apply(m, Walker);
    var f := m.phys.free[0];
    assert f in m.phys.free;
    forall a: nat, p: nat
      ensures PteOf(m', a, p) == PteOf(m, a, p) && RecOf(m', a, p) == RecOf(m, a, p)
    {
    }
    forall a: nat, p: nat, b: nat, q: nat | SameFrame(m', a, p, b, q) && PteOf(m', a, p).value.flags.writable
      ensures a == b && p == q
    {
      assert SameFrame(m, a, p, b, q);
    }
    SameSlots(m, m');
  }

  /** Unmapping an unshared page and freeing its frame keeps frame ownership. */
  lemma UnmapKeepsFrames(m: Machine, m': Machine, a0: nat, p0: nat)
    requires FramesOk(m) && WritableSole(m) && OnlyAt(m, m', a0, p0)
    requires PteOf(m, a0, p0).Some? && PteOf(m', a0, p0).None? && Unshared(m, a0, p0)
    requires m'.phys.free == [PteOf(m, a0, p0).value.frame] + m.phys.free && m'.tables == m.tables
    ensures FramesOk(m') && WritableSole(m')
  {
    var f := PteOf(m, a0, p0).value.frame;
    forall a: nat, p: nat | PteOf(m', a, p).Some?
      ensures PteOf(m', a, p).value.frame !in m'.phys.free
    {
      assert PteOf(m, a, p).Some?;
      assert !SameFrame(m, a0, p0, a, p);
    }
    forall a: nat, p: nat, b: nat, q: nat | SameFrame(m', a, p, b, q) && PteOf(m', a, p).value.flags.writable
      ensures a == b && p == q
    {
      assert SameFrame(m, a, p, b, q);
    }
  }

  lemma EvictGood(m: Machine, a0: nat, addr: nat)
    requires Inv(m) && Enabled(m, Evict(a0, addr))
    ensures StepGood(m, Evict(a0, addr))
  {
    var p0 := addr / PAGE;
    var m' := Apply(m, Evict(a0, addr));
    if !EvictAddr(m.phys, m.spaces[a0], addr).2 {
      assert m.spaces[a0 := m.spaces[a0]] == m.spaces;
      assert m' == m;
    } else {
      var pte := m.spaces[a0].table[p0];
      var page := FrameAt(m.phys.mem, pte.frame);
      var slot := NextFree(m.phys.swap.free, m.phys.swap.cursor, 0).value;
      FoundIsFree(m.phys.swap.free, m.phys.swap.cursor, 0);
      assert OnlyAt(m, m', a0, p0);
      UnmapKeepsFrames(m, m', a0, p0);
      AddRecord(m, m', a0, p0, slot, page);
      forall a: nat, p: nat
        ensures View(m', a, p) == View(m, a, p)
      {
        if (a, p) != (a0, p0) {
          if PteOf(m, a, p).Some? { assert !SameFrame(m, a0, p0, a, p); }
          if RecOf(m, a, p).Some? { assert !m.phys.swap.free[RecOf(m, a, p).value.slot]; }
        }
      }
    }
  }

  /** Parent and child share every area page read-only. */
  lemma ForkTables(m: Machine, parent: nat, child: nat, a: nat, p: nat)
    requires Enabled(m, Fork(parent, child))
    ensures var m' := Apply(m, Fork(parent, child));
            var shared := PteOf(m, parent, p).Some? && InAreas(m.spaces[parent].areas, p);
            && PteOf(m', a, p) ==
               (if (a == parent || a == child) && shared
                then Some(Pte(PteOf(m, parent, p).value.frame, Flags(false, false, false)))
                else if a == child then None else PteOf(m, a, p))
            && RecOf(m', a, p) == RecOf(m, a, p)
  {
  }

  lemma ForkGood(m: Machine, parent: nat, child: nat)
    requires Inv(m) && Enabled(m, Fork(parent, child))
    ensures StepGood(m, Fork(parent, child))
  {
    var m' := Apply(m, Fork(parent, child));
    forall a: nat, p: nat
      ensures RecOf(m', a, p) == RecOf(m, a, p)
      ensures RecOf(m, a, p).Some? ==> PteOf(m', a, p).None?
      ensures PteOf(m', a, p).Some? ==>
                PteOf(m', a, p).value.frame !in m.phys.free && PteOf(m', a, p).value.frame !in m.tables
      ensures !Blurs(m, Fork(parent, child), a, p) ==> View(m', a, p) == Meaning(m, Fork(parent, child), a, p)
    {
      ForkTables(m, parent, child, a, p);
    }
    SameSlots(m, m');
    forall a: nat, p: nat, b: nat, q: nat | SameFrame(m', a, p, b, q) && PteOf(m', a, p).value.flags.writable
      ensures a == b && p == q
    {
      ForkTables(m, parent, child, a, p);
      ForkTables(m, parent, child, b, q);
      assert SameFrame(m, a, p, if b == child then parent else b, q);
    }
  }

  lemma EveryStepGood(m: Machine, s: Step)
    requires Inv(m) && Enabled(m, s)
    ensures StepGood(m, s)
  {
    match s
    case Fork(parent, child) => ForkGood(m, parent, child);
    case Fault(a, addr, w) => FaultGood(m, a, addr, w);
    case Store(a, addr, v) => StoreGood(m, a, addr, v);
    case Load(a, addr) => LoadGood(m, a, addr);
    case Evict(a, addr) => EvictGood(m, a, addr);
    case Walker => WalkerGood(m);
  }
}
