/** When a fault is handled, and what the access that raised it finds afterwards. */
module Accesses {
  import opened Bits
  import opened Common
  import opened Paging
  import opened PagingRuns

  // ---------------------------------------------------------------- which faults are handled

  /** Area `i` is the first that holds the address. */
  ghost predicate FirstArea(areas: seq<Area>, addr: nat, i: nat) {
    && i < |areas| && areas[i].start <= addr < areas[i].end
    && forall j :: 0 <= j < i ==> !(areas[j].start <= addr < areas[j].end)
  }

  lemma {:induction false} FindAreaIs(areas: seq<Area>, addr: nat)
    ensures FindArea(areas, addr).Some? <==> exists i :: 0 <= i < |areas| && areas[i].start <= addr < areas[i].end
    ensures forall i: nat :: FirstArea(areas, addr, i) ==> FindArea(areas, addr) == Some(areas[i])
    ensures FindArea(areas, addr).Some? ==> exists i: nat :: FirstArea(areas, addr, i)
  {
    if areas != [] {
      var rest := areas[1..];
      FindAreaIs(rest, addr);
      if areas[0].start <= addr < areas[0].end {
        assert FirstArea(areas, addr, 0);
      } else {
        forall i: nat | FirstArea(areas, addr, i)
          ensures FindArea(areas, addr) == Some(areas[i])
        {
          assert forall j :: 0 <= j < i - 1 ==> rest[j] == areas[j + 1];
          assert FirstArea(rest, addr, i - 1);
        }
        if i: nat :| FirstArea(rest, addr, i) {
          assert forall j :: 0 < j < i + 1 ==> areas[j] == rest[j - 1];
          assert FirstArea(areas, addr, i + 1);
        }
      }
    }
  }

  /** The access is one that the first area at the address allows: any to an absent page, and to a mapped page
      a write in a writable area. */
  ghost predicate Allowed(sp: Space, addr: nat, isWrite: bool) {
    exists i: nat :: FirstArea(sp.areas, addr, i) && (addr / PAGE in sp.table ==> isWrite && sp.areas[i].writable)
  }

  /** WHICH FAULTS ARE HANDLED: with a free frame, those on swapped pages and those their area allows. */
  lemma FaultHandledIff(ph: Phys, sp: Space, addr: nat, isWrite: bool)
    ensures HandleFault(ph, sp, addr, isWrite).2
            <==> ph.free != [] && (addr / PAGE in sp.swapped || Allowed(sp, addr, isWrite))
  {
    FindAreaIs(sp.areas, addr);
    if addr / PAGE !in sp.swapped && FindArea(sp.areas, addr).Some? {
      var i: nat :| FirstArea(sp.areas, addr, i);
      assert FindArea(sp.areas, addr) == Some(sp.areas[i]);
    }
  }

  /** The flags a handled fault leaves: those recorded at eviction, or those of the area. */
  ghost predicate FlagsAfter(sp: Space, addr: nat, flags: Flags) {
    if addr / PAGE in sp.swapped then flags == sp.swapped[addr / PAGE].flags
    else exists i: nat :: FirstArea(sp.areas, addr, i) && flags == Flags(sp.areas[i].writable, false, false)
  }

  /** What a fault changes: handled, its page moves to the first free frame; refused, only a swap record can go. */
  lemma FaultMaps(ph: Phys, sp: Space, addr: nat, isWrite: bool)
    ensures var (ph', sp', ok) := HandleFault(ph, sp, addr, isWrite);
            var p := addr / PAGE;
            && sp'.areas == sp.areas && sp'.swapped == sp.swapped - {p}
            && (ok ==> && ph.free != [] && ph'.free == ph.free[1..] && p in sp'.table
                       && sp'.table[p].frame == ph.free[0] && FlagsAfter(sp, addr, sp'.table[p].flags)
                       && forall q :: q != p ==> (q in sp'.table <==> q in sp.table)
                                                 && (q in sp.table ==> sp'.table[q] == sp.table[q]))
            && (!ok ==> ph' == ph && sp'.table == sp.table)
  {
    FindAreaIs(sp.areas, addr);
    if addr / PAGE !in sp.swapped {
      assert sp.swapped - {addr / PAGE} == sp.swapped;
      if FindArea(sp.areas, addr).Some? {
        var i: nat :| FirstArea(sp.areas, addr, i);
        assert FindArea(sp.areas, addr) == Some(sp.areas[i]);
      }
    }
  }

  // ---------------------------------------------------------------- the access goes through

  /** The mapping that a handled fault makes allows stores. */
  ghost predicate WritableAfter(sp: Space, addr: nat) {
    if addr / PAGE in sp.swapped then sp.swapped[addr / PAGE].flags.writable
    else exists i: nat :: FirstArea(sp.areas, addr, i) && sp.areas[i].writable
  }

  lemma FirstUnique(areas: seq<Area>, addr: nat, i: nat, j: nat)
    requires FirstArea(areas, addr, i) && FirstArea(areas, addr, j)
    ensures i == j
  {
  }

  /** FAULTS END: after a handled fault the load goes through, and a store does exactly when the page was swapped
      out writable, or is new or copied in a writable area. */
  lemma AccessGoesThrough(m: Machine, a: nat, addr: nat, isWrite: bool, v: byte)
    requires Enabled(m, Fault(a, addr, isWrite)) && HandleFault(m.phys, m.spaces[a], addr, isWrite).2
    ensures var m' := Apply(m, Fault(a, addr, isWrite));
            Enabled(m', Load(a, addr)) && (Enabled(m', Store(a, addr, v)) <==> WritableAfter(m.spaces[a], addr))
  {
    var sp := m.spaces[a];
    FaultMaps(m.phys, sp, addr, isWrite);
    if addr / PAGE !in sp.swapped {
      forall i: nat, j: nat | FirstArea(sp.areas, addr, i) && FirstArea(sp.areas, addr, j)
        ensures i == j
      {
        FirstUnique(sp.areas, addr, i, j);
      }
    }
  }

  /** A write fault outside swap that is handled on a mapped page always ends in a writable mapping. */
  lemma CopyGoesThrough(m: Machine, a: nat, addr: nat, v: byte)
    requires a in m.spaces && addr / PAGE in m.spaces[a].table && addr / PAGE !in m.spaces[a].swapped
    requires HandleFault(m.phys, m.spaces[a], addr, true).2
    ensures Enabled(m, Fault(a, addr, true)) && Enabled(Apply(m, Fault(a, addr, true)), Store(a, addr, v))
  {
    FaultHandledIff(m.phys, m.spaces[a], addr, true);
    AccessGoesThrough(m, a, addr, true, v);
  }

  /** What a copying fault copies, byte by byte: the rest of the old frame from the faulting address on, and then
      the start of the next physical frame. */
  lemma CopiedBytes(m: Machine, a: nat, addr: nat, k: nat)
    requires Inv(m) && Copies(m, a, addr, true) && k < PAGE
    ensures Enabled(m, Fault(a, addr, true))
    ensures var m', f, at := Apply(m, Fault(a, addr, true)), m.spaces[a].table[addr / PAGE].frame, addr % PAGE + k;
            View(m', a, addr / PAGE)[k]
            == if at < PAGE then FrameAt(m.phys.mem, f)[at] else FrameAt(m.phys.mem, f + 1)[at - PAGE]
  {
    AreaFaultIsolated(m, a, addr, true);
  }

  /** DEMAND ZERO-FILL: an absent page of an area is there after the fault, read or write, and reads as zeros. */
  lemma ZeroFilled(m: Machine, a: nat, addr: nat, isWrite: bool, i: nat)
    requires Inv(m) && a in m.spaces && FirstArea(m.spaces[a].areas, addr, i) && m.phys.free != []
    requires addr / PAGE !in m.spaces[a].table && addr / PAGE !in m.spaces[a].swapped
    ensures Enabled(m, Fault(a, addr, isWrite))
    ensures var m' := Apply(m, Fault(a, addr, isWrite));
            var flags := Flags(m.spaces[a].areas[i].writable, false, false);
            && PteOf(m', a, addr / PAGE) == Some(Pte(m.phys.free[0], flags))
            && forall k :: 0 <= k < PAGE ==> View(m', a, addr / PAGE)[k] == 0
  {
    FaultHandledIff(m.phys, m.spaces[a], addr, isWrite);
    FaultMaps(m.phys, m.spaces[a], addr, isWrite);
    forall j: nat | FirstArea(m.spaces[a].areas, addr, j)
      ensures j == i
    {
      FirstUnique(m.spaces[a].areas, addr, i, j);
    }
    AreaFaultIsolated(m, a, addr, isWrite);
  }

  /** What the processor marks: a load sets the reference bit, a store the dirty bit as well, nothing else changes. */
  lemma AccessMarks(m: Machine, a: nat, addr: nat, v: byte)
    requires PteOf(m, a, addr / PAGE).Some?
    ensures var pte := PteOf(m, a, addr / PAGE).value;
            && PteOf(Apply(m, Load(a, addr)), a, addr / PAGE)
               == Some(Pte(pte.frame, Flags(pte.flags.writable, true, pte.flags.dirty)))
            && (pte.flags.writable ==> PteOf(Apply(m, Store(a, addr, v)), a, addr / PAGE)
                                       == Some(Pte(pte.frame, Flags(true, true, true))))
  {
  }

  /** ROUND TRIP THROUGH SWAP: an evicted page that is accessed again is mapped as before, reference and dirty bits
      cleared, with the contents it had. */
  lemma EvictThenFault(m: Machine, a: nat, addr: nat, isWrite: bool)
    requires Inv(m) && PteOf(m, a, addr / PAGE).Some? && Unshared(m, a, addr / PAGE) && !SwapFull(m)
    ensures Enabled(m, Evict(a, addr)) && PteOf(Apply(m, Evict(a, addr)), a, addr / PAGE).None?
    ensures Enabled(Apply(m, Evict(a, addr)), Fault(a, addr, isWrite))
    ensures var m' := Apply(Apply(m, Evict(a, addr)), Fault(a, addr, isWrite));
            var pte := PteOf(m, a, addr / PAGE).value;
            && PteOf(m', a, addr / PAGE) == Some(Pte(pte.frame, Flags(pte.flags.writable, false, false)))
            && m'.phys.free == m.phys.free && View(m', a, addr / PAGE) == View(m, a, addr / PAGE)
  {
    var m1 := Apply(m, Evict(a, addr));
    EvictGood(m, a, addr);
    FaultGood(m1, a, addr, isWrite);
    FaultHandledIff(m1.phys, m1.spaces[a], addr, isWrite);
    FaultMaps(m1.phys, m1.spaces[a], addr, isWrite);
  }
}
