/** Where every frame is over whole runs, forks included, and the one way a frame is lost. */
module FrameAccounts {
  import opened Bits
  import opened Common
  import opened Paging
  import opened PagingRuns
  import opened PagingTheorems

  /** The kernel can still find the frame: it is free, a page table or mapped. */
  ghost predicate Accounted(m: Machine, f: nat) { f in m.phys.free || f in m.tables || IsMapped(m, f) }

  /** The step copies away from the last mapping of the frame. */
  ghost predicate Drops(m: Machine, s: Step, f: nat) {
    && s.Fault? && Copies(m, s.pid, s.addr, s.isWrite)
    && MapsTo(m, s.pid, s.addr / PAGE, f) && Unshared(m, s.pid, s.addr / PAGE)
  }

  ghost predicate DropsIn(m: Machine, steps: seq<Step>, f: nat)
    requires RunOk(m, steps)
    decreases |steps|
  {
    steps != [] && (Drops(m, steps[0], f) || DropsIn(Apply(m, steps[0]), steps[1..], f))
  }

  // ---------------------------------------------------------------- one step

  /** All frames that are mapped stay mapped and no other becomes so. */
  lemma SameMapped(m: Machine, m': Machine, f: nat)
    requires forall a: nat, p: nat :: MapsTo(m', a, p, f) <==> MapsTo(m, a, p, f)
    ensures IsMapped(m', f) <==> IsMapped(m, f)
  {
    if a: nat, p: nat :| MapsTo(m, a, p, f) { assert MapsTo(m', a, p, f); }
  }

  lemma ForkAccounts(m: Machine, parent: nat, child: nat, f: nat)
    requires Enabled(m, Fork(parent, child))
    ensures Accounted(Apply(m, Fork(parent, child)), f) <==> Accounted(m, f)
  {
    var m' := Apply(m, Fork(parent, child));
    if a: nat, p: nat :| MapsTo(m, a, p, f) {
      ForkTables(m, parent, child, a, p);
      assert MapsTo(m', a, p, f);
    }
    if a: nat, p: nat :| MapsTo(m', a, p, f) {
      ForkTables(m, parent, child, a, p);
      assert MapsTo(m, if a == child then parent else a, p, f);
    }
  }

  /** A page is mapped to the first free frame. */
  lemma MapAccounts(m: Machine, m': Machine, a0: nat, p0: nat, f: nat)
    requires FramesOk(m) && m.phys.free != [] && OnlyAt(m, m', a0, p0) && MapsTo(m', a0, p0, m.phys.free[0])
    requires m'.phys.free == m.phys.free[1..] && m'.tables == m.tables
    ensures Accounted(m', f) <==> Accounted(m, f) && !(MapsTo(m, a0, p0, f) && Unshared(m, a0, p0))
  {
    var f0 := m.phys.free[0];
    assert f0 in m.phys.free && m.phys.free == [f0] + m.phys.free[1..];
    if a: nat, p: nat :| MapsTo(m, a, p, f) && (a, p) != (a0, p0) {
      assert MapsTo(m', a, p, f);
      assert MapsTo(m, a0, p0, f) ==> SameFrame(m, a0, p0, a, p);
    }
    if a: nat, p: nat :| MapsTo(m', a, p, f) && (a, p) != (a0, p0) {
      assert MapsTo(m, a, p, f);
      assert MapsTo(m, a0, p0, f) ==> SameFrame(m, a0, p0, a, p);
    }
    if MapsTo(m, a0, p0, f) && !Unshared(m, a0, p0) {
      var b: nat, q: nat :| SameFrame(m, a0, p0, b, q) && !(b == a0 && q == p0);
      assert MapsTo(m, b, q, f) && MapsTo(m', b, q, f);
    }
  }

  lemma FaultAccounts(m: Machine, a: nat, addr: nat, w: bool, f: nat)
    requires Inv(m) && Enabled(m, Fault(a, addr, w))
    ensures Accounted(Apply(m, Fault(a, addr, w)), f) <==> Accounted(m, f) && !Drops(m, Fault(a, addr, w), f)
  {
    var p, m' := addr / PAGE, Apply(m, Fault(a, addr, w));
    if HandleFault(m.phys, m.spaces[a], addr, w).2 {
      assert RecOf(m, a, p).Some? ==> PteOf(m, a, p).None?;
      assert OnlyAt(m, m', a, p);
      MapAccounts(m, m', a, p, f);
    } else {
      RefusedFault(m, a, addr, w);
    }
  }

  lemma EvictAccounts(m: Machine, a: nat, addr: nat, f: nat)
    requires Enabled(m, Evict(a, addr))
    ensures Accounted(Apply(m, Evict(a, addr)), f) <==> Accounted(m, f)
  {
    var p, m' := addr / PAGE, Apply(m, Evict(a, addr));
    if !EvictAddr(m.phys, m.spaces[a], addr).2 {
      assert m.spaces[a := m.spaces[a]] == m.spaces;
    } else {
      var f0 := m.spaces[a].table[p].frame;
      assert OnlyAt(m, m', a, p) && MapsTo(m, a, p, f0);
      assert m'.phys.free == [f0] + m.phys.free;
      if b: nat, q: nat :| MapsTo(m, b, q, f) && f != f0 { assert MapsTo(m', b, q, f); }
      if b: nat, q: nat :| MapsTo(m', b, q, f) { assert MapsTo(m, b, q, f); }
    }
  }

  lemma QuietAccounts(m: Machine, s: Step, f: nat)
    requires Enabled(m, s) && (s.Store? || s.Load? || s.Walker?)
    ensures Accounted(Apply(m, s), f) <==> Accounted(m, f)
  {
    var m' := Apply(m, s);
    forall a: nat, p: nat
      ensures MapsTo(m', a, p, f) <==> MapsTo(m, a, p, f)
    {
    }
    SameMapped(m, m', f);
    if s.Walker? { assert m.phys.free == [m.phys.free[0]] + m.phys.free[1..]; }
  }

  lemma StepAccounts(m: Machine, s: Step, f: nat)
    requires Inv(m) && Enabled(m, s)
    ensures Accounted(Apply(m, s), f) <==> Accounted(m, f) && !Drops(m, s, f)
  {
    match s
    case Fork(parent, child) => ForkAccounts(m, parent, child, f);
    case Fault(a, addr, w) => FaultAccounts(m, a, addr, w, f);
    case Evict(a, addr) => EvictAccounts(m, a, addr, f);
    case _ => QuietAccounts(m, s, f);
  }

  // ---------------------------------------------------------------- whole runs

  /** WHERE FRAMES GO: over every run, forks included, a frame is free, a page table or mapped at the end exactly
      when it was so at the start and no step of the run copied away from its last mapping. A lost frame stays lost. */
  lemma {:induction false} AccountedIff(m: Machine, steps: seq<Step>, f: nat)
    requires Inv(m) && RunOk(m, steps)
    ensures Accounted(Final(m, steps), f) <==> Accounted(m, f) && !DropsIn(m, steps, f)
    decreases |steps|
  {
    if steps != [] {
      StepAccounts(m, steps[0], f);
      EveryStepGood(m, steps[0]);
      AccountedIff(Apply(m, steps[0]), steps[1..], f);
    }
  }

  /** Parent forks, then both sides write the page at `addr`. */
  function ForkAndWrite(parent: nat, child: nat, addr: nat): seq<Step> {
    [Fork(parent, child), Fault(parent, addr, true), Fault(child, addr, true)]
  }

  /** The page at `addr` is mapped in a writable area of the process, nobody else maps its frame, and two
      frames are free. */
  ghost predicate OwnPage(m: Machine, a: nat, addr: nat) {
    && a in m.spaces && PteOf(m, a, addr / PAGE).Some? && Unshared(m, a, addr / PAGE)
    && FindArea(m.spaces[a].areas, addr).Some? && FindArea(m.spaces[a].areas, addr).value.writable
    && InAreas(m.spaces[a].areas, addr / PAGE) && |m.phys.free| >= 2
  }

  /** After the fork both sides map the frame, and nobody else does. */
  lemma ForkShares(m: Machine, parent: nat, child: nat, addr: nat, a: nat, p: nat)
    requires Inv(m) && Enabled(m, Fork(parent, child)) && OwnPage(m, parent, addr)
    ensures var m' := Apply(m, Fork(parent, child));
            MapsTo(m', a, p, PteOf(m, parent, addr / PAGE).value.frame) <==>
            (a == parent || a == child) && p == addr / PAGE
  {
    ForkTables(m, parent, child, a, p);
    ForkTables(m, parent, child, parent, addr / PAGE);
    if MapsTo(m, a, p, PteOf(m, parent, addr / PAGE).value.frame) {
      assert SameFrame(m, parent, addr / PAGE, a, p);
    }
    if PteOf(m, parent, p).Some? && PteOf(m, parent, p).value.frame == PteOf(m, parent, addr / PAGE).value.frame {
      assert SameFrame(m, parent, addr / PAGE, parent, p);
    }
  }

  /** Once the parent has copied, the child holds the last mapping, and would copy too. */
  lemma ParentCopied(m: Machine, parent: nat, child: nat, addr: nat)
    requires Inv(m) && Enabled(m, Fork(parent, child)) && OwnPage(m, parent, addr)
    ensures var f, m1 := PteOf(m, parent, addr / PAGE).value.frame, Apply(m, Fork(parent, child));
            && Enabled(m1, Fault(parent, addr, true))
            && var m2 := Apply(m1, Fault(parent, addr, true));
               Enabled(m2, Fault(child, addr, true)) && Drops(m2, Fault(child, addr, true), f)
  {
    var p, m1 := addr / PAGE, Apply(m, Fork(parent, child));
    var f := PteOf(m, parent, p).value.frame;
    assert RecOf(m, parent, p).None?;
    ForkTables(m, parent, child, parent, p);
    ForkTables(m, parent, child, child, p);
    assert Copies(m1, parent, addr, true);
    var m2 := Apply(m1, Fault(parent, addr, true));
    assert OnlyAt(m1, m2, parent, p) && MapsTo(m2, parent, p, m.phys.free[0]);
    assert m.phys.free[0] in m.phys.free && f !in m.phys.free;
    forall a: nat, q: nat
      ensures MapsTo(m2, a, q, f) <==> a == child && q == p
    {
      ForkShares(m, parent, child, addr, a, q);
    }
    assert MapsTo(m2, child, p, f);
    SoleMapping(m2, child, p, f);
    assert Copies(m2, child, addr, true);
  }

  /** EVERY PAGE BOTH SIDES WRITE AFTER A FORK COSTS A FRAME, in every machine. */
  lemma ForkAndWriteLosesFrame(m: Machine, parent: nat, child: nat, addr: nat)
    requires Inv(m) && Enabled(m, Fork(parent, child)) && OwnPage(m, parent, addr)
    ensures RunOk(m, ForkAndWrite(parent, child, addr))
    ensures var f := PteOf(m, parent, addr / PAGE).value.frame;
            Accounted(m, f) && !Accounted(Final(m, ForkAndWrite(parent, child, addr)), f)
  {
    var steps := ForkAndWrite(parent, child, addr);
    var f := PteOf(m, parent, addr / PAGE).value.frame;
    assert MapsTo(m, parent, addr / PAGE, f);
    ParentCopied(m, parent, child, addr);
    var m1 := Apply(m, steps[0]);
    var m2 := Apply(m1, steps[1]);
    assert steps[1..][1..] == [steps[2]] && [steps[2]][1..] == [];
    assert RunOk(m2, [steps[2]]) && DropsIn(m2, [steps[2]], f);
    assert RunOk(m1, steps[1..]) && DropsIn(m1, steps[1..], f);
    AccountedIff(m, steps, f);
  }

  lemma SoleMapping(m: Machine, a: nat, p: nat, f: nat)
    requires MapsTo(m, a, p, f) && forall b: nat, q: nat :: MapsTo(m, b, q, f) ==> b == a && q == p
    ensures Unshared(m, a, p)
  {
    forall b: nat, q: nat | SameFrame(m, a, p, b, q)
      ensures b == a && q == p
    {
      assert MapsTo(m, b, q, f);
    }
  }

  /** One process with one writable page, and two free frames. */
  function OneWriter(): Machine {
    Machine(Phys(map[], [5, 6], Swap([], [], 0)),
            map[0 := Space([Area(0, PAGE, true)], map[0 := Pte(1, Flags(true, false, false))], map[])], {})
  }

  /** That process forks, both write, and frame 1 is gone. */
  lemma FrameOneLost()
    ensures Inv(OneWriter()) && RunOk(OneWriter(), ForkAndWrite(0, 1, 0))
    ensures Accounted(OneWriter(), 1) && !Accounted(Final(OneWriter(), ForkAndWrite(0, 1, 0)), 1)
  {
    var m := OneWriter();
    assert MapsTo(m, 0, 0, 1);
    SoleMapping(m, 0, 0, 1);
    ForkAndWriteLosesFrame(m, 0, 1, 0);
  }
}
