/** The reaper: enhanced second chance over the victim list until enough frames are free. */
module Reaper {
  import opened Common
  import opened Paging
  import opened PagingRuns
  import opened StableSort
  import opened Victims

  // ---------------------------------------------------------------- one candidate

  predicate IsResident(m: Machine, c: Scored) { PteOf(m, c.pid, c.page).Some? }

  function FlagsOf(m: Machine, c: Scored): Flags
    requires IsResident(m, c)
  {
    PteOf(m, c.pid, c.page).value.flags
  }

  /** What a sweep takes: clean and unreferenced, then unreferenced, then anything. */
  predicate Takes(sweep: nat, f: Flags) {
    if sweep == 0 then !f.accessed && !f.dirty else if sweep == 1 then !f.accessed else true
  }

  /** The first sweep that would take a page with these bits. */
  function Level(f: Flags): nat { if f.accessed then 2 else if f.dirty then 1 else 0 }

  function EvictPage(m: Machine, c: Scored): (Machine, bool) {
    if c.pid !in m.spaces then (m, false)
    else
      var (ph, sp, ok) := EvictAddr(m.phys, m.spaces[c.pid], c.page * PAGE);
      (if ok then WithSpace(m, c.pid, ph, sp) else m, ok)
  }

  function ClearAccessed(m: Machine, c: Scored): Machine
    requires IsResident(m, c)
  {
    var pte := m.spaces[c.pid].table[c.page];
    var table := m.spaces[c.pid].table[c.page := pte.(flags := pte.flags.(accessed := false))];
    m.(spaces := m.spaces[c.pid := m.spaces[c.pid].(table := table)])
  }

  function CountFree(free: seq<bool>): nat {
    if free == [] then 0 else (if free[0] then 1 else 0) + CountFree(free[1..])
  }

  lemma {:induction false} CountTaken(free: seq<bool>, i: nat)
    requires i < |free| && free[i]
    ensures CountFree(free[i := false]) + 1 == CountFree(free)
  {
    if i > 0 {
      CountTaken(free[1..], i - 1);
      assert free[i := false][1..] == free[1..][i - 1 := false];
    } else {
      assert free[0 := false][1..] == free[1..];
    }
  }

  /** Eviction succeeds exactly for a resident page while swap has room; it gains one frame, takes
      one slot and touches no other page. */
  lemma EvictEffect(m: Machine, c: Scored)
    ensures var (m', ok) := EvictPage(m, c);
            && (ok <==> IsResident(m, c) && !SwapFull(m))
            && (!ok ==> m' == m)
            && (ok ==> && |m'.phys.free| == |m.phys.free| + 1
                       && CountFree(m'.phys.swap.free) + 1 == CountFree(m.phys.swap.free)
                       && !IsResident(m', c)
                       && OnlyAt(m, m', c.pid, c.page))
  {
    assert (c.page * PAGE) / PAGE == c.page;
    if !SwapFull(m) {
      FoundIsFree(m.phys.swap.free, m.phys.swap.cursor, 0);
      CountTaken(m.phys.swap.free, NextFree(m.phys.swap.free, m.phys.swap.cursor, 0).value);
    }
  }

  // ---------------------------------------------------------------- what the reaper keeps

  ghost predicate AllUnshared(m: Machine) { forall a: nat, p: nat :: Unshared(m, a, p) }

  ghost predicate SameViews(m: Machine, m': Machine) { forall a: nat, p: nat :: View(m', a, p) == View(m, a, p) }

  ghost predicate SameLayout(m: Machine, m': Machine) {
    m'.spaces.Keys == m.spaces.Keys && forall a :: a in m.spaces ==> m'.spaces[a].areas == m.spaces[a].areas
  }

  lemma EvictSafe(m: Machine, c: Scored)
    requires Inv(m) && AllUnshared(m)
    ensures var m' := EvictPage(m, c).0; Inv(m') && AllUnshared(m') && SameViews(m, m') && SameLayout(m, m')
  {
    var m' := EvictPage(m, c).0;
    EvictEffect(m, c);
    if EvictPage(m, c).1 {
      assert (c.page * PAGE) / PAGE == c.page && Unshared(m, c.pid, c.page);
      EvictGood(m, c.pid, c.page * PAGE);
      assert m' == Apply(m, Evict(c.pid, c.page * PAGE));
      forall a: nat, p: nat, b: nat, q: nat | SameFrame(m', a, p, b, q)
        ensures a == b && p == q
      {
        assert Unshared(m, a, p) && SameFrame(m, a, p, b, q);
      }
    }
  }

  lemma ClearSafe(m: Machine, c: Scored)
    requires Inv(m) && AllUnshared(m) && IsResident(m, c)
    ensures var m' := ClearAccessed(m, c);
            && Inv(m') && AllUnshared(m') && SameViews(m, m') && SameLayout(m, m')
            && OnlyAt(m, m', c.pid, c.page) && IsResident(m', c)
  {
    var m' := ClearAccessed(m, c);
    TouchKeeps(m, m', c.pid, c.page);
    forall a: nat, p: nat, b: nat, q: nat | SameFrame(m', a, p, b, q)
      ensures a == b && p == q
    {
      assert Unshared(m, a, p) && SameFrame(m, a, p, b, q);
    }
  }

  /** State of a round that began in `m0`: evicted candidates in order, the machine now. */
  ghost predicate RoundOk(m0: Machine, cands: seq<Scored>, m: Machine, evicted: seq<Scored>) {
    && Tracks(m0, cands, m, evicted)
    && |m.phys.free| == |m0.phys.free| + |evicted|
    && CountFree(m.phys.swap.free) + |evicted| == CountFree(m0.phys.swap.free)
    && Inv(m) && AllUnshared(m) && SameViews(m0, m) && SameLayout(m0, m)
    && SecondChance(m0, cands, evicted) && OthersAlone(m0, cands, m)
  }

  /** All candidates were resident, and those evicted are the ones that are no longer. */
  ghost predicate Tracks(m0: Machine, cands: seq<Scored>, m: Machine, evicted: seq<Scored>) {
    && (forall i :: 0 <= i < |cands| ==>
          IsResident(m0, cands[i]) && (IsResident(m, cands[i]) <==> cands[i] !in evicted))
    && (forall i :: 0 <= i < |evicted| ==> evicted[i] in cands)
  }

  ghost predicate Listed(cands: seq<Scored>, a: nat, p: nat) {
    exists i :: 0 <= i < |cands| && cands[i].pid == a && cands[i].page == p
  }

  /** Pages that are no candidates keep their entries. */
  ghost predicate OthersAlone(m0: Machine, cands: seq<Scored>, m: Machine) {
    forall a: nat, p: nat :: !Listed(cands, a, p) ==> PteOf(m, a, p) == PteOf(m0, a, p)
  }

  /** Whatever was evicted, every candidate of a lower level had been evicted before it. */
  ghost predicate SecondChance(m0: Machine, cands: seq<Scored>, evicted: seq<Scored>) {
    forall i, j :: 0 <= i < |evicted| && 0 <= j < |cands| && LowerLevel(m0, cands[j], evicted[i]) ==>
      cands[j] in evicted[..i]
  }

  ghost predicate LowerLevel(m0: Machine, c: Scored, e: Scored) {
    IsResident(m0, c) && IsResident(m0, e) && Level(FlagsOf(m0, c)) < Level(FlagsOf(m0, e))
  }

  /** A page-table entry with its reference bit cleared. */
  function Spared(pte: Pte): Pte { Pte(pte.frame, Flags(pte.flags.writable, false, pte.flags.dirty)) }

  /** THE SECOND CHANCE: sweep 0 leaves the entries of the pages it leaves as they were; sweep 1 clears the reference
      bit of each, and nothing else, as it passes; sweep 2 finds them all cleared. */
  ghost predicate Chances(m0: Machine, cands: seq<Scored>, m: Machine, sweep: nat, k: nat) {
    forall i :: 0 <= i < |cands| && IsResident(m, cands[i]) && IsResident(m0, cands[i]) ==>
      var pte := PteOf(m0, cands[i].pid, cands[i].page).value;
      PteOf(m, cands[i].pid, cands[i].page).value == if sweep == 2 || (sweep == 1 && i < k) then Spared(pte) else pte
  }

  /** While swap has room, nothing that sweeps up to here would take is left. */
  ghost predicate SweptTo(m0: Machine, cands: seq<Scored>, m: Machine, sweep: nat, k: nat) {
    SwapFull(m) || forall i :: 0 <= i < |cands| && IsResident(m, cands[i]) && IsResident(m0, cands[i]) ==>
      Level(FlagsOf(m0, cands[i])) >= sweep && (i < k ==> Level(FlagsOf(m0, cands[i])) > sweep)
  }

  lemma OthersKept(m: Machine, m': Machine, cands: seq<Scored>, k: nat, i: nat)
    requires KeysDistinct(cands) && k < |cands| && i < |cands| && i != k && OnlyAt(m, m', cands[k].pid, cands[k].page)
    ensures PteOf(m', cands[i].pid, cands[i].page) == PteOf(m, cands[i].pid, cands[i].page) && cands[i] != cands[k]
  {
    if i < k { assert cands[i].pid != cands[k].pid || cands[i].page != cands[k].page; }
  }

  lemma SecondChanceGrows(m0: Machine, cands: seq<Scored>, evicted: seq<Scored>, c: Scored)
    requires SecondChance(m0, cands, evicted)
    requires forall j :: 0 <= j < |cands| && LowerLevel(m0, cands[j], c) ==> cands[j] in evicted
    ensures SecondChance(m0, cands, evicted + [c])
  {
    var evicted' := evicted + [c];
    forall i, j | 0 <= i < |evicted'| && 0 <= j < |cands| && LowerLevel(m0, cands[j], evicted'[i])
      ensures cands[j] in evicted'[..i]
    {
      if i == |evicted| {
        assert evicted'[..i] == evicted;
      } else {
        assert evicted'[..i] == evicted[..i] && evicted'[i] == evicted[i];
      }
    }
  }

  ghost predicate OthersSame(m: Machine, m': Machine, cands: seq<Scored>, k: nat)
    requires k < |cands|
  {
    forall i :: 0 <= i < |cands| && i != k ==>
      PteOf(m', cands[i].pid, cands[i].page) == PteOf(m, cands[i].pid, cands[i].page) && cands[i] != cands[k]
  }

  lemma EvictedBits(m0: Machine, cands: seq<Scored>, m: Machine, sweep: nat, k: nat, m': Machine)
    requires k < |cands| && Chances(m0, cands, m, sweep, k) && SweptTo(m0, cands, m, sweep, k)
    requires OthersSame(m, m', cands, k) && !IsResident(m', cands[k]) && !SwapFull(m)
    ensures Chances(m0, cands, m', sweep, k + 1) && SweptTo(m0, cands, m', sweep, k + 1)
  {
  }

  lemma TracksGrows(m0: Machine, cands: seq<Scored>, m: Machine, evicted: seq<Scored>, k: nat, m': Machine)
    requires k < |cands| && Tracks(m0, cands, m, evicted) && OthersSame(m, m', cands, k) && !IsResident(m', cands[k])
    ensures Tracks(m0, cands, m', evicted + [cands[k]])
  {
  }

  lemma KeysApart(m: Machine, m': Machine, cands: seq<Scored>, k: nat)
    requires KeysDistinct(cands) && k < |cands| && OnlyAt(m, m', cands[k].pid, cands[k].page)
    ensures OthersSame(m, m', cands, k)
  {
    forall i | 0 <= i < |cands| && i != k
      ensures PteOf(m', cands[i].pid, cands[i].page) == PteOf(m, cands[i].pid, cands[i].page) && cands[i] != cands[k]
    {
      OthersKept(m, m', cands, k, i);
    }
  }

  lemma OthersStay(m0: Machine, cands: seq<Scored>, m: Machine, m': Machine, k: nat)
    requires OthersAlone(m0, cands, m) && k < |cands| && OnlyAt(m, m', cands[k].pid, cands[k].page)
    ensures OthersAlone(m0, cands, m')
  {
    assert Listed(cands, cands[k].pid, cands[k].page);
  }

  lemma EvictedClass(m0: Machine, cands: seq<Scored>, m: Machine, evicted: seq<Scored>, sweep: nat, k: nat)
    requires RoundOk(m0, cands, m, evicted) && k < |cands| && sweep <= 2
    requires Chances(m0, cands, m, sweep, k) && SweptTo(m0, cands, m, sweep, k)
    requires IsResident(m, cands[k]) && Takes(sweep, FlagsOf(m, cands[k])) && !SwapFull(m)
    ensures SecondChance(m0, cands, evicted + [cands[k]])
  {
    assert Level(FlagsOf(m0, cands[k])) <= sweep;
    SecondChanceGrows(m0, cands, evicted, cands[k]);
  }

  /** The candidate at `k` was taken and evicted. */
  lemma TurnEvicted(m0: Machine, cands: seq<Scored>, m: Machine, evicted: seq<Scored>, sweep: nat, k: nat)
    requires RoundOk(m0, cands, m, evicted) && KeysDistinct(cands) && k < |cands| && sweep <= 2
    requires Chances(m0, cands, m, sweep, k) && SweptTo(m0, cands, m, sweep, k)
    requires IsResident(m, cands[k]) && Takes(sweep, FlagsOf(m, cands[k])) && EvictPage(m, cands[k]).1
    ensures var m' := EvictPage(m, cands[k]).0;
            && RoundOk(m0, cands, m', evicted + [cands[k]])
            && Chances(m0, cands, m', sweep, k + 1) && SweptTo(m0, cands, m', sweep, k + 1)
  {
    var c := cands[k];
    var m' := EvictPage(m, c).0;
    EvictEffect(m, c);
    KeysApart(m, m', cands, k);
    TracksGrows(m0, cands, m, evicted, k, m');
    EvictedBits(m0, cands, m, sweep, k, m');
    OthersStay(m0, cands, m, m', k);
    EvictedClass(m0, cands, m, evicted, sweep, k);
    assert Inv(m') && AllUnshared(m') && SameViews(m0, m') && SameLayout(m0, m') by { EvictSafe(m, c); }
  }

  /** A sweep passes over a page: sweep 1 clears a reference bit that is set. */
  function Passed(m: Machine, c: Scored, sweep: nat): Machine {
    if sweep == 1 && IsResident(m, c) && FlagsOf(m, c).accessed then ClearAccessed(m, c) else m
  }

  /** The candidate at `k` stays, in sweep 1 with its reference bit cleared. */
  lemma TurnKept(m0: Machine, cands: seq<Scored>, m: Machine, evicted: seq<Scored>, sweep: nat, k: nat, m': Machine)
    requires RoundOk(m0, cands, m, evicted) && KeysDistinct(cands) && k < |cands| && sweep <= 2
    requires Chances(m0, cands, m, sweep, k) && SweptTo(m0, cands, m, sweep, k)
    requires IsResident(m, cands[k]) ==> !Takes(sweep, FlagsOf(m, cands[k])) || SwapFull(m)
    requires m' == Passed(m, cands[k], sweep)
    ensures RoundOk(m0, cands, m', evicted)
    ensures Chances(m0, cands, m', sweep, k + 1) && SweptTo(m0, cands, m', sweep, k + 1)
  {
    if m' != m {
      ClearSafe(m, cands[k]);
      OthersStay(m0, cands, m, m', k);
      KeysApart(m, m', cands, k);
    }
  }

  // ---------------------------------------------------------------- the order of a round

  /** The class of a candidate at the start of the round. */
  function ClassOf(m0: Machine): Scored -> int {
    (c: Scored) => if IsResident(m0, c) then Level(FlagsOf(m0, c)) else 3
  }

  /** Candidates of the classes below `sweep`, class by class. */
  function LowerClasses(m0: Machine, cands: seq<Scored>, sweep: nat): seq<Scored> {
    if sweep == 0 then []
    else LowerClasses(m0, cands, sweep - 1) + WithKey(ClassOf(m0), sweep - 1, cands)
  }

  /** What sweeps up to candidate `k` of `sweep` take while swap has room. */
  function Taken(m0: Machine, cands: seq<Scored>, sweep: nat, k: nat): seq<Scored>
    requires k <= |cands|
  {
    LowerClasses(m0, cands, sweep) + WithKey(ClassOf(m0), sweep, cands[..k])
  }

  ghost predicate InOrder(m0: Machine, cands: seq<Scored>, m: Machine, evicted: seq<Scored>, sweep: nat, k: nat)
    requires k <= |cands|
  {
    evicted <= Taken(m0, cands, sweep, k) && (SwapFull(m) || evicted == Taken(m0, cands, sweep, k))
  }

  lemma TakenNext(m0: Machine, cands: seq<Scored>, sweep: nat, k: nat)
    requires k < |cands|
    ensures Taken(m0, cands, sweep, k + 1)
         == Taken(m0, cands, sweep, k) + if ClassOf(m0)(cands[k]) == sweep then [cands[k]] else []
  {
    var key, c := ClassOf(m0), [cands[k]];
    assert cands[..k + 1] == cands[..k] + c;
    WithKeyAppend(key, sweep, cands[..k], c);
    var last := if key(cands[k]) == sweep then c else [];
    assert WithKey(key, sweep, c) == last by {
      assert c[1..] == [];
    }
    Regroup(LowerClasses(m0, cands, sweep), WithKey(key, sweep, cands[..k]), last);
  }

  lemma {:induction false} WithKeyHas(key: Scored -> int, v: int, s: seq<Scored>, x: Scored)
    requires x in WithKey(key, v, s)
    ensures x in s && key(x) == v
  {
    if s != [] && !(key(s[0]) == v && x == s[0]) {
      WithKeyHas(key, v, s[1..], x);
    }
  }

  lemma {:induction false} LowerHas(m0: Machine, cands: seq<Scored>, sweep: nat, x: Scored)
    requires x in LowerClasses(m0, cands, sweep)
    ensures ClassOf(m0)(x) < sweep
  {
    if x in LowerClasses(m0, cands, sweep - 1) {
      LowerHas(m0, cands, sweep - 1, x);
    } else {
      WithKeyHas(ClassOf(m0), sweep - 1, cands, x);
    }
  }

  /** The candidate at the sweep's own position has not been taken by this sweep. */
  lemma TakenBefore(m0: Machine, cands: seq<Scored>, sweep: nat, k: nat)
    requires KeysDistinct(cands) && k < |cands| && cands[k] in Taken(m0, cands, sweep, k)
    ensures ClassOf(m0)(cands[k]) < sweep
  {
    if cands[k] in LowerClasses(m0, cands, sweep) {
      LowerHas(m0, cands, sweep, cands[k]);
    } else {
      WithKeyHas(ClassOf(m0), sweep, cands[..k], cands[k]);
    }
  }

  lemma OrderEvicted(m0: Machine, cands: seq<Scored>, m: Machine, evicted: seq<Scored>, sweep: nat, k: nat, m': Machine)
    requires k < |cands| && sweep <= 2 && InOrder(m0, cands, m, evicted, sweep, k) && SweptTo(m0, cands, m, sweep, k)
    requires Chances(m0, cands, m, sweep, k) && IsResident(m0, cands[k]) && IsResident(m, cands[k])
    requires Takes(sweep, FlagsOf(m, cands[k])) && !SwapFull(m)
    ensures InOrder(m0, cands, m', evicted + [cands[k]], sweep, k + 1) && ClassOf(m0)(cands[k]) == sweep
  {
    TakenNext(m0, cands, sweep, k);
    assert ClassOf(m0)(cands[k]) == sweep;
  }

  lemma OrderKept(m0: Machine, cands: seq<Scored>, m: Machine, evicted: seq<Scored>, sweep: nat, k: nat, m': Machine)
    requires KeysDistinct(cands) && k < |cands| && sweep <= 2 && InOrder(m0, cands, m, evicted, sweep, k)
    requires RoundOk(m0, cands, m, evicted) && Chances(m0, cands, m, sweep, k)
    requires IsResident(m, cands[k]) ==> !Takes(sweep, FlagsOf(m, cands[k])) || SwapFull(m)
    requires SwapFull(m) ==> SwapFull(m')
    ensures InOrder(m0, cands, m', evicted, sweep, k + 1)
  {
    TakenNext(m0, cands, sweep, k);
    if !SwapFull(m) {
      if cands[k] in evicted {
        TakenBefore(m0, cands, sweep, k);
      }
      assert ClassOf(m0)(cands[k]) != sweep;
    }
  }

  /** The candidates in the order a round takes them. */
  function ByClass(m0: Machine, cands: seq<Scored>): seq<Scored> { Sort(ClassOf(m0), cands) }

  lemma {:induction false} WithKeyTwice(key: Scored -> int, v: int, w: int, s: seq<Scored>)
    ensures WithKey(key, w, WithKey(key, v, s)) == if v == w then WithKey(key, v, s) else []
  {
    if s != [] {
      var rest := WithKey(key, v, s[1..]);
      WithKeyTwice(key, v, w, s[1..]);
      if key(s[0]) == v {
        assert WithKey(key, v, s) == [s[0]] + rest;
        WithKeyCons(key, w, s[0], rest);
      } else {
        assert WithKey(key, v, s) == rest;
      }
    }
  }

  /** The three classes one after the other. */
  function Classes(key: Scored -> int, s: seq<Scored>): seq<Scored> {
    (WithKey(key, 0, s) + WithKey(key, 1, s)) + WithKey(key, 2, s)
  }

  ghost predicate Classed(key: Scored -> int, s: seq<Scored>) { forall i :: 0 <= i < |s| ==> 0 <= key(s[i]) <= 2 }

  lemma ClassesKeep(key: Scored -> int, s: seq<Scored>, v: int)
    requires Classed(key, s)
    ensures WithKey(key, v, Classes(key, s)) == WithKey(key, v, s)
  {
    var w0, w1, w2 := WithKey(key, 0, s), WithKey(key, 1, s), WithKey(key, 2, s);
    WithKeyAppend(key, v, w0 + w1, w2);
    WithKeyAppend(key, v, w0, w1);
    WithKeyTwice(key, 0, v, s);
    WithKeyTwice(key, 1, v, s);
    WithKeyTwice(key, 2, v, s);
    if v < 0 || v > 2 {
      assert NoKey(key, v, s);
      WithKeyNone(key, v, s);
    }
  }

  lemma ClassesAscend(key: Scored -> int, s: seq<Scored>)
    ensures Ascending(key, Classes(key, s))
  {
    var t, n0, n1 := Classes(key, s), |WithKey(key, 0, s)|, |WithKey(key, 1, s)|;
    forall i | 0 <= i < |t|
      ensures key(t[i]) == if i < n0 then 0 else if i < n0 + n1 then 1 else 2
    {
      if i < n0 {
        WithKeyHas(key, 0, s, t[i]);
      } else if i < n0 + n1 {
        WithKeyHas(key, 1, s, t[i]);
      } else {
        WithKeyHas(key, 2, s, t[i]);
      }
    }
  }

  lemma ClassesSort(key: Scored -> int, s: seq<Scored>)
    requires Classed(key, s)
    ensures Classes(key, s) == Sort(key, s)
  {
    forall v
      ensures WithKey(key, v, Classes(key, s)) == WithKey(key, v, Sort(key, s))
    {
      ClassesKeep(key, s, v);
      SortStable(key, s, v);
    }
    ClassesAscend(key, s);
    SortFacts(key, s);
    StableOrderUnique(key, Classes(key, s), Sort(key, s));
  }

  /** Class by class is the stable sort by class. */
  lemma TakenAll(m0: Machine, cands: seq<Scored>)
    requires forall i :: 0 <= i < |cands| ==> IsResident(m0, cands[i])
    ensures Taken(m0, cands, 2, |cands|) == ByClass(m0, cands)
  {
    var w0 := WithKey(ClassOf(m0), 0, cands);
    ClassesSort(ClassOf(m0), cands);
    assert cands[..|cands|] == cands;
    assert LowerClasses(m0, cands, 1) == LowerClasses(m0, cands, 0) + w0 == w0;
  }

  lemma {:induction false} TakenPrefix(m0: Machine, cands: seq<Scored>, sweep: nat, k: nat)
    requires k <= |cands| && sweep <= 2
    ensures Taken(m0, cands, sweep, k) <= Taken(m0, cands, 2, |cands|)
    decreases 2 - sweep, |cands| - k
  {
    if k < |cands| {
      TakenNext(m0, cands, sweep, k);
      TakenPrefix(m0, cands, sweep, k + 1);
    } else if sweep < 2 {
      SweepNext(m0, cands, sweep);
      TakenPrefix(m0, cands, sweep + 1, 0);
    }
  }

  lemma SweepNext(m0: Machine, cands: seq<Scored>, sweep: nat)
    ensures Taken(m0, cands, sweep, |cands|) == Taken(m0, cands, sweep + 1, 0)
  {
    assert cands[..|cands|] == cands && cands[..0] == [];
  }

  // ---------------------------------------------------------------- sweeps, rounds, reaping

  /** Everything a sweep knows before its turn `k`. */
  ghost predicate SweepOk(m0: Machine, cands: seq<Scored>, m: Machine, evicted: seq<Scored>, sweep: nat, k: nat)
    requires k <= |cands|
  {
    && RoundOk(m0, cands, m, evicted) && Chances(m0, cands, m, sweep, k)
    && SweptTo(m0, cands, m, sweep, k) && InOrder(m0, cands, m, evicted, sweep, k)
  }

  lemma SweepEvicted(m0: Machine, cands: seq<Scored>, m: Machine, evicted: seq<Scored>, sweep: nat, k: nat)
    requires KeysDistinct(cands) && k < |cands| && sweep <= 2 && SweepOk(m0, cands, m, evicted, sweep, k)
    requires IsResident(m, cands[k]) && Takes(sweep, FlagsOf(m, cands[k])) && EvictPage(m, cands[k]).1
    ensures SweepOk(m0, cands, EvictPage(m, cands[k]).0, evicted + [cands[k]], sweep, k + 1)
    ensures ClassOf(m0)(cands[k]) == sweep
  {
    EvictEffect(m, cands[k]);
    TurnEvicted(m0, cands, m, evicted, sweep, k);
    OrderEvicted(m0, cands, m, evicted, sweep, k, EvictPage(m, cands[k]).0);
  }

  lemma SweepKept(m0: Machine, cands: seq<Scored>, m: Machine, evicted: seq<Scored>, sweep: nat, k: nat, m': Machine)
    requires KeysDistinct(cands) && k < |cands| && sweep <= 2 && SweepOk(m0, cands, m, evicted, sweep, k)
    requires IsResident(m, cands[k]) ==> !Takes(sweep, FlagsOf(m, cands[k])) || SwapFull(m)
    requires m' == Passed(m, cands[k], sweep)
    ensures SweepOk(m0, cands, m', evicted, sweep, k + 1)
  {
    TurnKept(m0, cands, m, evicted, sweep, k, m');
    OrderKept(m0, cands, m, evicted, sweep, k, m');
  }

  lemma SweepEnds(m0: Machine, cands: seq<Scored>, m: Machine, evicted: seq<Scored>, sweep: nat)
    requires sweep <= 1 && SweepOk(m0, cands, m, evicted, sweep, |cands|)
    ensures SweepOk(m0, cands, m, evicted, sweep + 1, 0)
  {
    SweepNext(m0, cands, sweep);
  }

  lemma SweepStarts(m0: Machine, cands: seq<Scored>)
    requires Inv(m0) && AllUnshared(m0) && forall i :: 0 <= i < |cands| ==> IsResident(m0, cands[i])
    ensures SweepOk(m0, cands, m0, [], 0, 0)
  {
    assert Taken(m0, cands, 0, 0) == [];
  }

  lemma FrontOfOrder(m0: Machine, cands: seq<Scored>, m: Machine, evicted: seq<Scored>, sweep: nat, k: nat)
    requires k <= |cands| && sweep <= 2 && SweepOk(m0, cands, m, evicted, sweep, k)
    ensures evicted <= ByClass(m0, cands)
  {
    TakenPrefix(m0, cands, sweep, k);
    TakenAll(m0, cands);
  }

  /** The round stopped with the eviction of its last victim: entries are those of the victim's sweep when it came
      to the victim. */
  ghost predicate StoppedAt(m0: Machine, cands: seq<Scored>, m: Machine, evicted: seq<Scored>)
    requires evicted != []
  {
    exists k: nat :: k < |cands| && cands[k] == evicted[|evicted| - 1] && IsResident(m0, cands[k])
                     && Chances(m0, cands, m, Level(FlagsOf(m0, cands[k])), k)
  }

  lemma HitStops(m0: Machine, cands: seq<Scored>, m: Machine, evicted: seq<Scored>, sweep: nat, k: nat)
    requires k < |cands| && SweepOk(m0, cands, m, evicted, sweep, k + 1)
    requires evicted != [] && evicted[|evicted| - 1] == cands[k] && ClassOf(m0)(cands[k]) == sweep
    ensures StoppedAt(m0, cands, m, evicted)
  {
    assert IsResident(m0, cands[k]) && !IsResident(m, cands[k]);
    assert Chances(m0, cands, m, sweep, k);
  }

  /** One candidate's turn: evicted, given a second chance, or passed over. */
  method Consider(m0: Machine, start: Machine, cands: seq<Scored>, before: seq<Scored>, sweep: nat, k: nat)
    returns (m: Machine, evicted: seq<Scored>, gained: bool)
    requires KeysDistinct(cands) && sweep <= 2 && k < |cands| && SweepOk(m0, cands, start, before, sweep, k)
    ensures SweepOk(m0, cands, m, evicted, sweep, k + 1)
    ensures gained ==> evicted == before + [cands[k]] && ClassOf(m0)(cands[k]) == sweep
    ensures !gained ==> evicted == before && m == Passed(start, cands[k], sweep)
  {
    var c := cands[k];
    EvictEffect(start, c);
    m, evicted, gained := start, before, false;
    if IsResident(start, c) && Takes(sweep, FlagsOf(start, c)) {
      var (next, ok) := EvictPage(start, c);
      if ok {
        SweepEvicted(m0, cands, start, before, sweep, k);
        return next, before + [c], true;
      }
    } else if IsResident(start, c) && FlagsOf(start, c).accessed && sweep >= 1 {
      m := ClearAccessed(start, c);
    }
    SweepKept(m0, cands, start, before, sweep, k, m);
  }

  /** One sweep over the candidates; `hit` says the target was reached. */
  method Sweep(m0: Machine, start: Machine, cands: seq<Scored>, before: seq<Scored>, sweep: nat, target: nat)
    returns (m: Machine, evicted: seq<Scored>, hit: bool)
    requires KeysDistinct(cands) && sweep <= 2 && SweepOk(m0, cands, start, before, sweep, 0)
    ensures RoundOk(m0, cands, m, evicted) && evicted <= ByClass(m0, cands)
    ensures hit ==> |m.phys.free| >= target && evicted != [] && StoppedAt(m0, cands, m, evicted)
    ensures !hit ==> SweepOk(m0, cands, m, evicted, sweep, |cands|)
  {
    m, evicted, hit := start, before, false;
    var k := 0;
    while k < |cands|
      invariant 0 <= k <= |cands| && SweepOk(m0, cands, m, evicted, sweep, k) && !hit
      decreases |cands| - k
    {
      var gained;
      m, evicted, gained := Consider(m0, m, cands, evicted, sweep, k);
      k := k + 1;
      if gained && |m.phys.free| >= target {
        hit := true;
        HitStops(m0, cands, m, evicted, sweep, k - 1);
        break;
      }
    }
    FrontOfOrder(m0, cands, m, evicted, sweep, k);
  }

  /** One round: three sweeps unless the target is reached on the way. What it evicts is the front of the
      victim list sorted stably by class. */
  method Round(m0: Machine, cands: seq<Scored>, target: nat) returns (m: Machine, evicted: seq<Scored>, hit: bool)
    requires KeysDistinct(cands) && Inv(m0) && AllUnshared(m0)
    requires forall i :: 0 <= i < |cands| ==> IsResident(m0, cands[i])
    ensures RoundOk(m0, cands, m, evicted) && evicted <= ByClass(m0, cands)
    ensures hit ==> |m.phys.free| >= target && evicted != [] && StoppedAt(m0, cands, m, evicted)
    // a round that goes through has cleared every reference bit
    ensures !hit ==> Chances(m0, cands, m, 2, |cands|)
    ensures !hit ==> SwapFull(m) || forall i :: 0 <= i < |cands| ==> cands[i] in evicted
  {
    SweepStarts(m0, cands);
    m, evicted, hit := Sweep(m0, m0, cands, [], 0, target);
    if hit { return; }
    SweepEnds(m0, cands, m, evicted, 0);
    m, evicted, hit := Sweep(m0, m, cands, evicted, 1, target);
    if hit { return; }
    SweepEnds(m0, cands, m, evicted, 1);
    m, evicted, hit := Sweep(m0, m, cands, evicted, 2, target);
  }

  ghost predicate NoCandidate(m: Machine, tasks: seq<nat>) {
    forall a, p: nat :: a in tasks && a in m.spaces && p in m.spaces[a].table ==> !InAreas(m.spaces[a].areas, p)
  }

  lemma EmptyMeansNone(m: Machine, tasks: seq<nat>)
    requires TasksOk(m, tasks) && VictimOrder(TaskList(m, tasks)) == []
    ensures NoCandidate(m, tasks)
  {
    forall a, p: nat | a in tasks && a in m.spaces && p in m.spaces[a].table
      ensures !InAreas(m.spaces[a].areas, p)
    {
      CandidatesAre(m, tasks, a, p);
    }
  }

  lemma CandidatesResident(m: Machine, tasks: seq<nat>)
    requires TasksOk(m, tasks)
    ensures var v := VictimOrder(TaskList(m, tasks));
            KeysDistinct(v) && forall i :: 0 <= i < |v| ==> IsResident(m, v[i])
  {
    var v := VictimOrder(TaskList(m, tasks));
    VictimKeysDistinct(m, tasks);
    forall i | 0 <= i < |v|
      ensures IsResident(m, v[i])
    {
      CandidatesAre(m, tasks, v[i].pid, v[i].page);
      assert v[i] in v;
    }
  }

  // ---------------------------------------------------------------- the pages left

  ghost predicate Candidate(m: Machine, tasks: seq<nat>, a: nat, p: nat) {
    a in tasks && PteOf(m, a, p).Some? && InAreas(m.spaces[a].areas, p)
  }

  ghost predicate Referenced(m: Machine, a: nat, p: nat) {
    PteOf(m, a, p).Some? && PteOf(m, a, p).value.flags.accessed
  }

  /** No candidate has its reference bit set. */
  ghost predicate NoneReferenced(m: Machine, tasks: seq<nat>) {
    forall a: nat, p: nat :: Candidate(m, tasks, a, p) ==> !Referenced(m, a, p)
  }

  /** Entries that are left are as they were or have their reference bit cleared; those of pages that were no
      candidates are as they were. */
  ghost predicate LeftOver(m0: Machine, m: Machine, tasks: seq<nat>) {
    forall a: nat, p: nat :: LeftAt(m0, m, tasks, a, p)
  }

  ghost predicate LeftAt(m0: Machine, m: Machine, tasks: seq<nat>, a: nat, p: nat) {
    && (PteOf(m, a, p).Some? ==> PteOf(m0, a, p).Some?)
    && (PteOf(m, a, p).Some? ==>
          var pte := PteOf(m0, a, p).value; PteOf(m, a, p).value == pte || PteOf(m, a, p).value == Spared(pte))
    && (!Candidate(m0, tasks, a, p) ==> PteOf(m, a, p) == PteOf(m0, a, p))
  }

  /** Some page that was referenced has been taken. */
  ghost predicate TookReferenced(m0: Machine, m: Machine) {
    exists a: nat, p: nat :: Referenced(m0, a, p) && PteOf(m, a, p).None?
  }

  lemma ListedIff(m: Machine, tasks: seq<nat>, a: nat, p: nat)
    requires TasksOk(m, tasks)
    ensures Listed(VictimOrder(TaskList(m, tasks)), a, p) <==> Candidate(m, tasks, a, p)
  {
    var v := VictimOrder(TaskList(m, tasks));
    CandidatesAre(m, tasks, a, p);
    if e :| e in v && e.pid == a && e.page == p {
      var i :| 0 <= i < |v| && v[i] == e;
      assert Listed(v, a, p);
    }
    if Listed(v, a, p) {
      var i :| 0 <= i < |v| && v[i].pid == a && v[i].page == p;
      assert v[i] in v;
    }
  }

  /** Any stage of the sweeps leaves entries as they were or cleared. */
  lemma RoundLeaves(m0: Machine, tasks: seq<nat>, m: Machine, evicted: seq<Scored>, sweep: nat, k: nat)
    requires TasksOk(m0, tasks)
    requires var cands := VictimOrder(TaskList(m0, tasks));
             RoundOk(m0, cands, m, evicted) && Chances(m0, cands, m, sweep, k)
    ensures LeftOver(m0, m, tasks)
    ensures sweep == 2 ==> NoneReferenced(m, tasks)
  {
    forall a: nat, p: nat
      ensures LeftAt(m0, m, tasks, a, p)
      ensures sweep == 2 && Candidate(m, tasks, a, p) ==> !Referenced(m, a, p)
    {
      ListedIff(m0, tasks, a, p);
    }
  }

  /** Victims come class by class, so a referenced victim makes the last one referenced. */
  lemma LastReferenced(m0: Machine, cands: seq<Scored>, evicted: seq<Scored>, x: Scored)
    requires evicted <= ByClass(m0, cands) && x in evicted && IsResident(m0, x) && FlagsOf(m0, x).accessed
    ensures ClassOf(m0)(evicted[|evicted| - 1]) >= 2
  {
    var i :| 0 <= i < |evicted| && evicted[i] == x;
    SortFacts(ClassOf(m0), cands);
    assert evicted[i] == ByClass(m0, cands)[i];
    assert evicted[|evicted| - 1] == ByClass(m0, cands)[|evicted| - 1];
  }

  /** What one round leaves. */
  lemma RoundEnds(m0: Machine, tasks: seq<nat>, m: Machine, evicted: seq<Scored>, hit: bool)
    requires TasksOk(m0, tasks)
    requires var cands := VictimOrder(TaskList(m0, tasks));
             && RoundOk(m0, cands, m, evicted) && evicted <= ByClass(m0, cands)
             && if hit then evicted != [] && StoppedAt(m0, cands, m, evicted) else Chances(m0, cands, m, 2, |cands|)
    ensures LeftOver(m0, m, tasks)
    ensures !hit || TookReferenced(m0, m) ==> NoneReferenced(m, tasks)
  {
    var cands := VictimOrder(TaskList(m0, tasks));
    if !hit {
      RoundLeaves(m0, tasks, m, evicted, 2, |cands|);
    } else {
      var k: nat :| k < |cands| && cands[k] == evicted[|evicted| - 1] && IsResident(m0, cands[k])
                    && Chances(m0, cands, m, Level(FlagsOf(m0, cands[k])), k);
      RoundLeaves(m0, tasks, m, evicted, Level(FlagsOf(m0, cands[k])), k);
      if a: nat, p: nat :| Referenced(m0, a, p) && PteOf(m, a, p).None? {
        assert Listed(cands, a, p);
        var i :| 0 <= i < |cands| && cands[i].pid == a && cands[i].page == p;
        LastReferenced(m0, cands, evicted, cands[i]);
      }
    }
  }

  /** Rounds add up. */
  lemma LeftTwice(m0: Machine, m1: Machine, m2: Machine, tasks: seq<nat>)
    requires LeftOver(m0, m1, tasks) && LeftOver(m1, m2, tasks) && SameLayout(m0, m1) && SameLayout(m1, m2)
    ensures LeftOver(m0, m2, tasks)
    ensures NoneReferenced(m1, tasks) ==> NoneReferenced(m2, tasks)
  {
    forall a: nat, p: nat
      ensures LeftAt(m0, m2, tasks, a, p)
      ensures Candidate(m2, tasks, a, p) ==> Candidate(m1, tasks, a, p)
      ensures !Referenced(m1, a, p) ==> !Referenced(m2, a, p)
    {
      assert LeftAt(m0, m1, tasks, a, p) && LeftAt(m1, m2, tasks, a, p);
    }
  }

  /** REAPING: terminates, reports exactly the frames gained, hides itself from every process and
      stops only with the target met, swap full or no candidate left. */
  method ReapTo(m0: Machine, tasks: seq<nat>, target: nat) returns (m: Machine, reaped: nat)
    requires Inv(m0) && AllUnshared(m0) && TasksOk(m0, tasks)
    ensures |m.phys.free| == |m0.phys.free| + reaped
    ensures Inv(m) && AllUnshared(m) && TasksOk(m, tasks) && SameViews(m0, m)
    ensures |m.phys.free| >= target || SwapFull(m) || NoCandidate(m, tasks)
    // the pages left: no entry changes but for reference bits of candidates; all of those are clear when the target
    // was missed or some page in use had to go
    ensures LeftOver(m0, m, tasks)
    ensures |m.phys.free| < target || TookReferenced(m0, m) ==> NoneReferenced(m, tasks)
  {
    m, reaped := m0, 0;
    while |m.phys.free| < target
      invariant |m.phys.free| == |m0.phys.free| + reaped
      invariant Inv(m) && AllUnshared(m) && SameViews(m0, m) && TasksOk(m, tasks)
      invariant SameLayout(m0, m) && LeftOver(m0, m, tasks)
      invariant (|m.phys.free| < target && m != m0) || TookReferenced(m0, m) ==> NoneReferenced(m, tasks)
      decreases CountFree(m.phys.swap.free)
    {
      var cands := GatherCandidates(m, tasks);
      if cands == [] {
        EmptyMeansNone(m, tasks);
        break;
      }
      CandidatesResident(m, tasks);
      var next, evicted, hit := Round(m, cands, target);
      RoundEnds(m, tasks, next, evicted, hit);
      LeftTwice(m0, m, next, tasks);
      m, reaped := next, reaped + |evicted|;
      if evicted == [] {
        assert cands[0] !in evicted;
        break;
      }
    }
  }
}
