/** The main theorems about paging, over every run of the machine. */
module PagingTheorems {
  import opened Bits
  import opened Common
  import opened Paging
  import opened PagingRuns

  // ---------------------------------------------------------------- runs

  ghost predicate RunOk(m: Machine, steps: seq<Step>)
    decreases |steps|
  {
    steps == [] || (Enabled(m, steps[0]) && RunOk(Apply(m, steps[0]), steps[1..]))
  }

  ghost function Final(m: Machine, steps: seq<Step>): Machine
    requires RunOk(m, steps)
    decreases |steps|
  {
    if steps == [] then m else Final(Apply(m, steps[0]), steps[1..])
  }

  /** Reference machine: every process owns a private memory and there is no paging at all. */
  datatype Private = Private(pages: (nat, nat) -> seq<byte>, areas: map<nat, seq<Area>>)

  function Poke(page: seq<byte>, off: nat, x: byte): seq<byte> { if off < |page| then page[off := x] else page }

  ghost function PrivateStep(v: Private, s: Step): Private {
    match s
    case Store(b, addr, x) =>
      v.(pages := (a: nat, p: nat) =>
        if a == b && p == addr / PAGE then Poke(v.pages(a, p), addr % PAGE, x) else v.pages(a, p))
    case Fork(parent, child) =>
      if parent !in v.areas then v
      else Private((a: nat, p: nat) =>
                     if a != child then v.pages(a, p)
                     else if InAreas(v.areas[parent], p) then v.pages(parent, p) else Zeros(),
                   v.areas[child := v.areas[parent]])
    case _ => v
  }

  ghost function PrivateRun(v: Private, steps: seq<Step>): Private
    decreases |steps|
  {
    if steps == [] then v else PrivateRun(PrivateStep(v, steps[0]), steps[1..])
  }

  /** `v` describes what the processes of `m` see, but for the pages of `blur`. */
  ghost predicate DescribesBut(v: Private, blur: (nat, nat) -> bool, m: Machine) {
    && v.areas.Keys == m.spaces.Keys
    && (forall a :: a in m.spaces ==> v.areas[a] == m.spaces[a].areas)
    && (forall a: nat, p: nat :: !blur(a, p) ==> v.pages(a, p) == View(m, a, p))
  }

  ghost predicate Describes(v: Private, m: Machine) { DescribesBut(v, (a: nat, p: nat) => false, m) }

  /** A spoilt page stays so, and a child takes it over from its parent. */
  ghost function BlurStep(blur: (nat, nat) -> bool, m: Machine, s: Step): (nat, nat) -> bool {
    (a: nat, p: nat) => Blurs(m, s, a, p) || blur(if s.Fork? && a == s.child then s.parent else a, p)
  }

  ghost function BlurRun(blur: (nat, nat) -> bool, m: Machine, steps: seq<Step>): (nat, nat) -> bool
    requires RunOk(m, steps)
    decreases |steps|
  {
    if steps == [] then blur else BlurRun(BlurStep(blur, m, steps[0]), Apply(m, steps[0]), steps[1..])
  }

  lemma AreasFollow(v: Private, blur: (nat, nat) -> bool, m: Machine, s: Step)
    requires Enabled(m, s) && DescribesBut(v, blur, m)
    ensures PrivateStep(v, s).areas.Keys == Apply(m, s).spaces.Keys
    ensures forall a :: a in Apply(m, s).spaces ==> PrivateStep(v, s).areas[a] == Apply(m, s).spaces[a].areas
  {
  }

  lemma StepRefines(v: Private, blur: (nat, nat) -> bool, m: Machine, s: Step)
    requires Inv(m) && Enabled(m, s) && DescribesBut(v, blur, m)
    ensures Inv(Apply(m, s)) && DescribesBut(PrivateStep(v, s), BlurStep(blur, m, s), Apply(m, s))
  {
    EveryStepGood(m, s);
    AreasFollow(v, blur, m, s);
    var v', blur', m' := PrivateStep(v, s), BlurStep(blur, m, s), Apply(m, s);
    forall a: nat, p: nat | !blur'(a, p)
      ensures v'.pages(a, p) == View(m', a, p)
    {
      assert View(m', a, p) == Meaning(m, s, a, p);
    }
  }

  /** Over every run of forks, faults, stores, loads, evictions and table allocations, each process sees
      exactly its private memory, but for pages copied from the middle or swapped out at a fork. */
  lemma {:induction false} RunRefines(v: Private, blur: (nat, nat) -> bool, m: Machine, steps: seq<Step>)
    requires Inv(m) && RunOk(m, steps) && DescribesBut(v, blur, m)
    ensures Inv(Final(m, steps))
    ensures DescribesBut(PrivateRun(v, steps), BlurRun(blur, m, steps), Final(m, steps))
    decreases |steps|
  {
    if steps != [] {
      StepRefines(v, blur, m, steps[0]);
      RunRefines(PrivateStep(v, steps[0]), BlurStep(blur, m, steps[0]), Apply(m, steps[0]), steps[1..]);
    }
  }

  /** No step of the run spoils a page: copying faults are page-aligned and forks find no area page swapped out. */
  ghost predicate SharpRun(m: Machine, steps: seq<Step>)
    requires RunOk(m, steps)
    decreases |steps|
  {
    steps == [] || ((forall a: nat, p: nat :: !Blurs(m, steps[0], a, p)) && SharpRun(Apply(m, steps[0]), steps[1..]))
  }

  lemma {:induction false} SharpStays(blur: (nat, nat) -> bool, m: Machine, steps: seq<Step>)
    requires RunOk(m, steps) && SharpRun(m, steps) && forall a: nat, p: nat :: !blur(a, p)
    ensures forall a: nat, p: nat :: !BlurRun(blur, m, steps)(a, p)
    decreases |steps|
  {
    if steps != [] {
      SharpStays(BlurStep(blur, m, steps[0]), Apply(m, steps[0]), steps[1..]);
    }
  }

  /** PAGING IS TRANSPARENT: over every run that spoils no page, each process sees exactly its private
      memory, and the ownership invariant of frames and slots holds at the end. */
  lemma PagingRefinesPrivateMemory(v: Private, m: Machine, steps: seq<Step>)
    requires Inv(m) && RunOk(m, steps) && SharpRun(m, steps) && Describes(v, m)
    ensures Inv(Final(m, steps)) && Describes(PrivateRun(v, steps), Final(m, steps))
  {
    var none := (a: nat, p: nat) => false;
    RunRefines(v, none, m, steps);
    SharpStays(none, m, steps);
  }

  /** No step of the run stores to page `p` of process `b`, spoils it or creates `b`. */
  ghost predicate LeavesAlone(m: Machine, steps: seq<Step>, b: nat, p: nat)
    requires RunOk(m, steps)
    decreases |steps|
  {
    steps == [] || (&& !(steps[0].Store? && steps[0].pid == b && steps[0].addr / PAGE == p)
                    && !(steps[0].Fork? && steps[0].child == b) && !Blurs(m, steps[0], b, p)
                    && LeavesAlone(Apply(m, steps[0]), steps[1..], b, p))
  }

  lemma {:induction false} RunKeepsInv(m: Machine, steps: seq<Step>)
    requires Inv(m) && RunOk(m, steps)
    ensures Inv(Final(m, steps))
    decreases |steps|
  {
    if steps != [] {
      EveryStepGood(m, steps[0]);
      RunKeepsInv(Apply(m, steps[0]), steps[1..]);
    }
  }

  lemma {:induction false} PageKept(m: Machine, steps: seq<Step>, b: nat, p: nat)
    requires Inv(m) && RunOk(m, steps) && LeavesAlone(m, steps, b, p)
    ensures View(Final(m, steps), b, p) == View(m, b, p)
    decreases |steps|
  {
    if steps != [] {
      EveryStepGood(m, steps[0]);
      PageKept(Apply(m, steps[0]), steps[1..], b, p);
    }
  }

  /** Process `b` makes no store and no copying fault inside a page, and is not created in the run. */
  ghost predicate Passive(m: Machine, steps: seq<Step>, b: nat)
    requires RunOk(m, steps)
    decreases |steps|
  {
    steps == [] || (&& !(steps[0].Store? && steps[0].pid == b) && !(steps[0].Fork? && steps[0].child == b)
                    && !(steps[0].Fault? && steps[0].pid == b && steps[0].addr % PAGE != 0
                         && Copies(m, b, steps[0].addr, steps[0].isWrite))
                    && Passive(Apply(m, steps[0]), steps[1..], b))
  }

  lemma {:induction false} PassiveLeavesAlone(m: Machine, steps: seq<Step>, b: nat, p: nat)
    requires RunOk(m, steps) && Passive(m, steps, b)
    ensures LeavesAlone(m, steps, b, p)
    decreases |steps|
  {
    if steps != [] {
      PassiveLeavesAlone(Apply(m, steps[0]), steps[1..], b, p);
    }
  }

  /** ISOLATION: over every run, with copying faults at any address and refused faults, nothing that other
      processes do changes what a process sees that only reads, faults in and forks. */
  lemma RunsIsolated(m: Machine, steps: seq<Step>, b: nat)
    requires Inv(m) && RunOk(m, steps) && Passive(m, steps, b)
    ensures Inv(Final(m, steps)) && forall p: nat :: View(Final(m, steps), b, p) == View(m, b, p)
  {
    RunKeepsInv(m, steps);
    forall p: nat
      ensures View(Final(m, steps), b, p) == View(m, b, p)
    {
      PassiveLeavesAlone(m, steps, b, p);
      PageKept(m, steps, b, p);
    }
  }

  // ---------------------------------------------------------------- no frame is lost or shared

  /** Every frame is free, a page table, or mapped exactly once; a page of an area is writable
      exactly when its area is. */
  ghost predicate Exact(m: Machine, frames: set<nat>) {
    && (forall a: nat, p: nat :: Unshared(m, a, p))
    && (forall f :: f in frames ==> f in m.phys.free || f in m.tables || IsMapped(m, f))
    && (forall a: nat, p: nat :: FlagsAgree(m, a, p))
  }

  ghost predicate IsMapped(m: Machine, f: nat) {
    exists a: nat, p: nat :: MapsTo(m, a, p, f)
  }

  ghost predicate MapsTo(m: Machine, a: nat, p: nat, f: nat) {
    PteOf(m, a, p).Some? && PteOf(m, a, p).value.frame == f
  }

  ghost predicate FlagsAgree(m: Machine, a: nat, p: nat) {
    a in m.spaces && InAreas(m.spaces[a].areas, p) ==>
      var w := FindArea(m.spaces[a].areas, p * PAGE).value.writable;
      && (PteOf(m, a, p).Some? ==> PteOf(m, a, p).value.flags.writable == w)
      && (RecOf(m, a, p).Some? ==> RecOf(m, a, p).value.flags.writable == w)
  }

  ghost predicate Aligned(areas: seq<Area>) {
    forall i :: 0 <= i < |areas| ==> areas[i].start % PAGE == 0 && areas[i].end % PAGE == 0
  }

  ghost predicate AllAligned(m: Machine) { forall a :: a in m.spaces ==> Aligned(m.spaces[a].areas) }

  /** A step without fork; hardware raises a fault only for an absent page or a write to a
      read-only one. */
  ghost predicate Unforked(m: Machine, s: Step) {
    match s
    case Fork(_, _) => false
    case Fault(a, addr, w) =>
      var pte := PteOf(m, a, addr / PAGE);
      pte.None? || (w && !pte.value.flags.writable)
    case _ => true
  }

  lemma {:induction false} SameAreaInPage(areas: seq<Area>, addr: nat)
    requires Aligned(areas)
    ensures FindArea(areas, addr) == FindArea(areas, (addr / PAGE) * PAGE)
    decreases |areas|
  {
    if areas != [] { SameAreaInPage(areas[1..], addr); }
  }

  /** A mapping appears for the first free frame. */
  lemma ExactMap(m: Machine, m': Machine, a0: nat, p0: nat, frames: set<nat>)
    requires FramesOk(m) && Exact(m, frames) && m.phys.free != [] && OnlyAt(m, m', a0, p0)
    requires PteOf(m, a0, p0).None? && PteOf(m', a0, p0).Some? && PteOf(m', a0, p0).value.frame == m.phys.free[0]
    requires m'.phys.free == m.phys.free[1..] && m'.tables == m.tables
    ensures forall a: nat, p: nat :: Unshared(m', a, p)
    ensures forall f :: f in frames ==> f in m'.phys.free || f in m'.tables || IsMapped(m', f)
  {
    var f0 := m.phys.free[0];
    assert f0 in m.phys.free && MapsTo(m', a0, p0, f0);
    forall a: nat, p: nat, b: nat, q: nat | SameFrame(m', a, p, b, q)
      ensures a == b && p == q
    {
      assert Unshared(m, a, p) && ((a, p) != (a0, p0) && (b, q) != (a0, p0) ==> SameFrame(m, a, p, b, q));
    }
    forall f | f in frames
      ensures f in m'.phys.free || f in m'.tables || IsMapped(m', f)
    {
      if a: nat, p: nat :| MapsTo(m, a, p, f) { assert MapsTo(m', a, p, f); }
    }
  }

  /** No mapping moves to another frame. */
  lemma ExactSame(m: Machine, m': Machine, frames: set<nat>)
    requires Exact(m, frames)
    requires forall a: nat, p: nat :: PteOf(m', a, p).Some? <==> PteOf(m, a, p).Some?
    requires forall a: nat, p: nat :: PteOf(m', a, p).Some? ==>
               PteOf(m', a, p).value.frame == PteOf(m, a, p).value.frame
    requires forall f :: f in m.phys.free || f in m.tables ==> f in m'.phys.free || f in m'.tables
    ensures forall a: nat, p: nat :: Unshared(m', a, p)
    ensures forall f :: f in frames ==> f in m'.phys.free || f in m'.tables || IsMapped(m', f)
  {
    forall a: nat, p: nat, b: nat, q: nat | SameFrame(m', a, p, b, q)
      ensures a == b && p == q
    {
      assert Unshared(m, a, p) && SameFrame(m, a, p, b, q);
    }
    forall f | f in frames
      ensures f in m'.phys.free || f in m'.tables || IsMapped(m', f)
    {
      if a: nat, p: nat :| MapsTo(m, a, p, f) { assert MapsTo(m', a, p, f); }
    }
  }

  /** A mapping disappears and its frame goes on the free list. */
  lemma ExactUnmap(m: Machine, m': Machine, a0: nat, p0: nat, frames: set<nat>)
    requires Exact(m, frames) && OnlyAt(m, m', a0, p0)
    requires PteOf(m, a0, p0).Some? && PteOf(m', a0, p0).None?
    requires m'.phys.free == [PteOf(m, a0, p0).value.frame] + m.phys.free && m'.tables == m.tables
    ensures forall a: nat, p: nat :: Unshared(m', a, p)
    ensures forall f :: f in frames ==> f in m'.phys.free || f in m'.tables || IsMapped(m', f)
  {
    forall a: nat, p: nat, b: nat, q: nat | SameFrame(m', a, p, b, q)
      ensures a == b && p == q
    {
      assert Unshared(m, a, p) && SameFrame(m, a, p, b, q);
    }
    forall f | f in frames
      ensures f in m'.phys.free || f in m'.tables || IsMapped(m', f)
    {
      if a: nat, p: nat :| MapsTo(m, a, p, f) {
        if (a, p) != (a0, p0) { assert MapsTo(m', a, p, f); } else { assert m'.phys.free[0] == f; }
      }
    }
  }

  lemma FaultKeepsExact(m: Machine, a0: nat, addr: nat, w: bool, frames: set<nat>)
    requires Inv(m) && Exact(m, frames) && AllAligned(m)
    requires Enabled(m, Fault(a0, addr, w)) && Unforked(m, Fault(a0, addr, w))
    requires HandleFault(m.phys, m.spaces[a0], addr, w).2
    ensures Exact(Apply(m, Fault(a0, addr, w)), frames)
  {
    var p0 := addr / PAGE;
    var m' := Apply(m, Fault(a0, addr, w));
    SameAreaInPage(m.spaces[a0].areas, addr);
    assert FlagsAgree(m, a0, p0);
    assert RecOf(m, a0, p0).Some? || PteOf(m, a0, p0).None?;
    assert OnlyAt(m, m', a0, p0);
    ExactMap(m, m', a0, p0, frames);
    forall a: nat, p: nat
      ensures FlagsAgree(m', a, p)
    {
      assert FlagsAgree(m, a, p);
    }
  }

  lemma RefusedFault(m: Machine, a: nat, addr: nat, w: bool)
    requires Enabled(m, Fault(a, addr, w)) && !HandleFault(m.phys, m.spaces[a], addr, w).2
    ensures Apply(m, Fault(a, addr, w)) == m
  {
    assert m.spaces[a := m.spaces[a]] == m.spaces;
  }

  lemma EvictKeepsExact(m: Machine, a0: nat, addr: nat, frames: set<nat>)
    requires Exact(m, frames) && Enabled(m, Evict(a0, addr))
    ensures Exact(Apply(m, Evict(a0, addr)), frames)
  {
    var p0 := addr / PAGE;
    var m' := Apply(m, Evict(a0, addr));
    if !EvictAddr(m.phys, m.spaces[a0], addr).2 {
      assert m.spaces[a0 := m.spaces[a0]] == m.spaces;
    } else {
      assert OnlyAt(m, m', a0, p0);
      ExactUnmap(m, m', a0, p0, frames);
      forall a: nat, p: nat
        ensures FlagsAgree(m', a, p)
      {
        assert FlagsAgree(m, a, p);
      }
    }
  }

  lemma QuietKeepsExact(m: Machine, s: Step, frames: set<nat>)
    requires Inv(m) && Exact(m, frames) && Enabled(m, s) && (s.Store? || s.Load? || s.Walker?)
    ensures Exact(Apply(m, s), frames)
  {
    var m' := Apply(m, s);
    ExactSame(m, m', frames);
    forall a: nat, p: nat
      ensures FlagsAgree(m', a, p)
    {
      assert FlagsAgree(m, a, p);
    }
  }

  lemma StepKeepsExact(m: Machine, s: Step, frames: set<nat>)
    requires Inv(m) && Exact(m, frames) && AllAligned(m) && Enabled(m, s) && Unforked(m, s)
    ensures Exact(Apply(m, s), frames) && AllAligned(Apply(m, s))
  {
    if s.Fault? && !HandleFault(m.phys, m.spaces[s.pid], s.addr, s.isWrite).2 {
      RefusedFault(m, s.pid, s.addr, s.isWrite);
    } else if s.Fault? {
      FaultKeepsExact(m, s.pid, s.addr, s.isWrite, frames);
    } else if s.Evict? {
      EvictKeepsExact(m, s.pid, s.addr, frames);
    } else {
      QuietKeepsExact(m, s, frames);
    }
  }

  ghost predicate UnforkedRun(m: Machine, steps: seq<Step>)
    requires RunOk(m, steps)
    decreases |steps|
  {
    steps == [] || (Unforked(m, steps[0]) && UnforkedRun(Apply(m, steps[0]), steps[1..]))
  }

  /** CONSERVATION: over every run without fork, each frame stays free, a page table or mapped
      exactly once. */
  lemma {:induction false} FramesConserved(m: Machine, steps: seq<Step>, frames: set<nat>)
    requires Inv(m) && Exact(m, frames) && AllAligned(m) && RunOk(m, steps) && UnforkedRun(m, steps)
    ensures Inv(Final(m, steps)) && Exact(Final(m, steps), frames)
    decreases |steps|
  {
    if steps != [] {
      EveryStepGood(m, steps[0]);
      StepKeepsExact(m, steps[0], frames);
      FramesConserved(Apply(m, steps[0]), steps[1..], frames);
    }
  }

  // ---------------------------------------------------------------- where the assumptions are needed

  /** One process with one writable area of one page, mapped read-only as after a fork; the page starts
      with a one. */
  function SharedPage(): Machine {
    var page: Page := Zeros()[0 := 1];
    Machine(Phys(map[1 := page], [5], Swap([], [], 0)),
            map[0 := Space([Area(0, PAGE, true)], map[0 := Pte(1, Flags(false, false, false))], map[])], {})
  }

  lemma SharedPageOk(off: nat)
    requires off < PAGE
    ensures Inv(SharedPage()) && Copies(SharedPage(), 0, off, true)
  {
  }

  ghost predicate KeepsOwnPage(m: Machine, a: nat, addr: nat, w: bool)
    requires a in m.spaces
  {
    var (ph, sp, _) := HandleFault(m.phys, m.spaces[a], addr, w);
    View(WithSpace(m, a, ph, sp), a, addr / PAGE) == View(m, a, addr / PAGE)
  }

  /** A write of that process at any other byte of the page loses the page. */
  lemma UnalignedCopyLosesPage(off: nat)
    requires 0 < off < PAGE
    ensures !KeepsOwnPage(SharedPage(), 0, off, true)
  {
    var m := SharedPage();
    SharedPageOk(off);
    AreaFaultIsolated(m, 0, off, true);
    assert off / PAGE == 0 && off % PAGE == off;
    assert Window(m.phys.mem, 1, off)[0] == FrameAt(m.phys.mem, 1)[off] == 0;
    assert View(m, 0, 0)[0] == 1;
  }

  /** Copying faults at an offset keep the faulting page in every reachable kind of state exactly when
      the offset is zero. */
  lemma CopyKeepsPageIffAligned(off: nat)
    requires off < PAGE
    ensures (forall m: Machine, a: nat, addr: nat, w: bool ::
               Inv(m) && Copies(m, a, addr, w) && addr % PAGE == off ==> KeepsOwnPage(m, a, addr, w))
            <==> off == 0
  {
    if off == 0 {
      forall m: Machine, a: nat, addr: nat, w: bool | Inv(m) && Copies(m, a, addr, w) && addr % PAGE == off
        ensures KeepsOwnPage(m, a, addr, w)
      {
        AreaFaultIsolated(m, a, addr, w);
        WindowAligned(m.phys.mem, m.spaces[a].table[addr / PAGE].frame);
      }
    } else {
      SharedPageOk(off);
      UnalignedCopyLosesPage(off);
    }
  }

  /** Right after a fork, parent and child agree on an area page exactly when the parent had not
      swapped it out, or had swapped out zeros. */
  lemma ForkAgreesIff(m: Machine, parent: nat, child: nat, p: nat)
    requires Inv(m) && Enabled(m, Fork(parent, child)) && InAreas(m.spaces[parent].areas, p)
    ensures var m' := Apply(m, Fork(parent, child));
            && View(m', parent, p) == View(m, parent, p)
            && (View(m', child, p) == View(m', parent, p) <==>
                RecOf(m, parent, p).None? || SlotAt(m.phys.swap, RecOf(m, parent, p).value.slot) == Zeros())
  {
    ForkGood(m, parent, child);
    ForkTables(m, parent, child, child, p);
    ForkTables(m, parent, child, parent, p);
    assert RecOf(m, child, p).None?;
  }

  ghost predicate EvictKeepsFrames(m: Machine, a: nat, addr: nat)
    requires a in m.spaces
  {
    var (ph, sp, _) := EvictAddr(m.phys, m.spaces[a], addr);
    FramesOk(WithSpace(m, a, ph, sp))
  }

  /** Evicting a page keeps free and mapped frames apart exactly when its frame is not shared. */
  lemma EvictSafeIffUnshared(m: Machine, a0: nat, addr: nat)
    requires Inv(m) && a0 in m.spaces && EvictAddr(m.phys, m.spaces[a0], addr).2
    ensures EvictKeepsFrames(m, a0, addr) <==> Unshared(m, a0, addr / PAGE)
  {
    var p0 := addr / PAGE;
    var (ph, sp, _) := EvictAddr(m.phys, m.spaces[a0], addr);
    var m' := WithSpace(m, a0, ph, sp);
    if Unshared(m, a0, p0) {
      EvictGood(m, a0, addr);
      assert m' == Apply(m, Evict(a0, addr));
    } else {
      var b, q :| SameFrame(m, a0, p0, b, q) && !(b == a0 && q == p0);
      assert PteOf(m', b, q) == PteOf(m, b, q);
      assert m'.phys.free[0] == PteOf(m', b, q).value.frame;
    }
  }

  /** Every fork brings that about: a mapped area page is shared afterwards on both sides, so its
      eviction from either would leave a mapped frame on the free list. */
  lemma ForkedPageUnsafe(m: Machine, parent: nat, child: nat, addr: nat, side: nat)
    requires Inv(m) && Enabled(m, Fork(parent, child)) && (side == parent || side == child)
    requires PteOf(m, parent, addr / PAGE).Some? && InAreas(m.spaces[parent].areas, addr / PAGE)
    ensures var m' := Apply(m, Fork(parent, child));
            && !Unshared(m', side, addr / PAGE)
            && (EvictAddr(m'.phys, m'.spaces[side], addr).2 <==> !SwapFull(m'))
            && (!SwapFull(m') ==> !EvictKeepsFrames(m', side, addr))
  {
    var p, m' := addr / PAGE, Apply(m, Fork(parent, child));
    ForkGood(m, parent, child);
    ForkTables(m, parent, child, parent, p);
    ForkTables(m, parent, child, child, p);
    assert SameFrame(m', parent, p, child, p) && SameFrame(m', child, p, parent, p);
    if !SwapFull(m') {
      EvictSafeIffUnshared(m', side, addr);
    }
  }

  /** A fault keeps the ownership invariant exactly when it is not a swap-in that finds no frame: that
      one drops the record and leaves its slot taken. */
  lemma FaultKeepsInvIff(m: Machine, a: nat, addr: nat, w: bool)
    requires Inv(m) && a in m.spaces
    ensures var (ph, sp, _) := HandleFault(m.phys, m.spaces[a], addr, w);
            Inv(WithSpace(m, a, ph, sp)) <==> !(addr / PAGE in m.spaces[a].swapped && m.phys.free == [])
  {
    var p := addr / PAGE;
    if p in m.spaces[a].swapped && m.phys.free == [] {
      SlotLost(m, a, addr, w);
    } else {
      FaultGood(m, a, addr, w);
    }
  }

  /** The slot is taken, and no record of any process names it. */
  ghost predicate Leaked(m: Machine, slot: nat) {
    slot < |m.phys.swap.free| && !m.phys.swap.free[slot] && forall a: nat, p: nat :: !Names(m, a, p, slot)
  }

  lemma SlotLost(m: Machine, a: nat, addr: nat, w: bool)
    requires Inv(m) && a in m.spaces && addr / PAGE in m.spaces[a].swapped && m.phys.free == []
    ensures var (ph, sp, ok) := HandleFault(m.phys, m.spaces[a], addr, w);
            !ok && Leaked(WithSpace(m, a, ph, sp), m.spaces[a].swapped[addr / PAGE].slot)
  {
    var p := addr / PAGE;
    var slot := m.spaces[a].swapped[p].slot;
    var (ph, sp, _) := HandleFault(m.phys, m.spaces[a], addr, w);
    var m' := WithSpace(m, a, ph, sp);
    assert RecOf(m, a, p).Some? && Names(m, a, p, slot);
    forall b: nat, q: nat
      ensures !Names(m', b, q, slot)
    {
      assert Names(m', b, q, slot) ==> Names(m, b, q, slot);
    }
  }

  lemma LeakStep(m: Machine, s: Step, slot: nat)
    requires Leaked(m, slot) && Enabled(m, s)
    ensures Leaked(Apply(m, s), slot)
  {
    var m' := Apply(m, s);
    if s.Evict? && !SwapFull(m) {
      FoundIsFree(m.phys.swap.free, m.phys.swap.cursor, 0);
    }
    if s.Fault? && RecOf(m, s.pid, s.addr / PAGE).Some? {
      assert !Names(m, s.pid, s.addr / PAGE, slot);
    }
    forall a: nat, p: nat
      ensures !Names(m', a, p, slot)
    {
      assert !Names(m, a, p, slot);
      if s.Fork? { ForkTables(m, s.parent, s.child, a, p); }
    }
  }

  /** The slot of such a fault is never used again, whatever runs afterwards. */
  lemma {:induction false} LeakedForever(m: Machine, steps: seq<Step>, slot: nat)
    requires Leaked(m, slot) && RunOk(m, steps)
    ensures Leaked(Final(m, steps), slot)
    decreases |steps|
  {
    if steps != [] {
      LeakStep(m, steps[0], slot);
      LeakedForever(Apply(m, steps[0]), steps[1..], slot);
    }
  }

  /** The contents of the page survive that fault exactly when they are zeros. */
  lemma FailedSwapInKeepsPageIff(m: Machine, a: nat, addr: nat, w: bool)
    requires Inv(m) && a in m.spaces && addr / PAGE in m.spaces[a].swapped && m.phys.free == []
    ensures KeepsOwnPage(m, a, addr, w) <==> View(m, a, addr / PAGE) == Zeros()
  {
    assert RecOf(m, a, addr / PAGE).Some?;
  }
}
