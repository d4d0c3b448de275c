/** The global victim list of the reaper: resident pages of all user tasks, ordered so that tasks
    holding more than their proportional share come first. */
module Victims {
  import opened Bits
  import opened Common
  import opened Paging
  import opened StableSort
  import opened VmKernel

  // ---------------------------------------------------------------- resident pages of one task

  function AreaResident(table: map<nat, Pte>, addr: nat, end: nat): seq<nat>
    decreases end - addr
  {
    if addr >= end then []
    else (if addr / PAGE in table then [addr / PAGE] else []) + AreaResident(table, addr + PAGE, end)
  }

  function Resident(table: map<nat, Pte>, areas: seq<Area>): seq<nat> {
    if areas == [] then []
    else AreaResident(table, areas[0].start, areas[0].end) + Resident(table, areas[1..])
  }

  function VirtualSize(areas: seq<Area>): nat {
    if areas == [] then 0
    else (if areas[0].end < areas[0].start then 0 else areas[0].end - areas[0].start) + VirtualSize(areas[1..])
  }

  /** The sizes of the areas add up. */
  lemma {:induction false} VirtualSizeSplit(areas: seq<Area>, more: seq<Area>)
    ensures VirtualSize(areas + more) == VirtualSize(areas) + VirtualSize(more)
    ensures forall a: Area :: a.start <= a.end ==> VirtualSize([a]) == a.end - a.start
  {
    assert forall a: Area :: [a][1..] == [];
    if areas == [] {
      assert areas + more == more;
    } else {
      VirtualSizeSplit(areas[1..], more);
      assert (areas + more)[1..] == areas[1..] + more;
    }
  }

  lemma {:induction false} AreaResidentIs(table: map<nat, Pte>, addr: nat, end: nat)
    requires addr % PAGE == 0
    ensures forall p :: p in AreaResident(table, addr, end) <==> p in table && addr <= p * PAGE < end
    ensures Distinct(AreaResident(table, addr, end))
    decreases end - addr
  {
    if addr < end {
      AreaResidentIs(table, addr + PAGE, end);
      var rest := AreaResident(table, addr + PAGE, end);
      assert forall p: nat :: addr <= p * PAGE < end <==> p == addr / PAGE || addr + PAGE <= p * PAGE < end;
    }
  }

  lemma NotInLater(areas: seq<Area>, p: nat)
    requires WellLaid(areas) && areas != [] && Holds(areas[0], p)
    ensures !InAreas(areas[1..], p)
  {
    VisitedAll(areas[1..], 0, p);
    forall j | 0 <= j < |areas[1..]|
      ensures !Holds(areas[1..][j], p)
    {
      assert areas[1..][j] == areas[j + 1];
    }
  }

  /** The list holds exactly the mapped area pages, each once. */
  lemma {:induction false} ResidentIs(table: map<nat, Pte>, areas: seq<Area>)
    requires WellLaid(areas)
    ensures forall p :: p in Resident(table, areas) <==> p in table && InAreas(areas, p)
    ensures Distinct(Resident(table, areas))
  {
    if areas != [] {
      ResidentIs(table, areas[1..]);
      AreaResidentIs(table, areas[0].start, areas[0].end);
      var first, rest := AreaResident(table, areas[0].start, areas[0].end), Resident(table, areas[1..]);
      forall p | p in first
        ensures p !in rest
      {
        NotInLater(areas, p);
      }
      DistinctConcat(first, rest);
    }
  }

  method AreaPages(table: map<nat, Pte>, area: Area) returns (pages: seq<nat>)
    ensures pages == AreaResident(table, area.start, area.end)
  {
    pages := [];
    var addr := area.start;
    while addr < area.end
      invariant pages + AreaResident(table, addr, area.end) == AreaResident(table, area.start, area.end)
      decreases area.end - addr
    {
      if addr / PAGE in table { pages := pages + [addr / PAGE]; }
      addr := addr + PAGE;
    }
  }

  method ResidentPages(table: map<nat, Pte>, areas: seq<Area>) returns (resident: seq<nat>, vsize: nat)
    ensures resident == Resident(table, areas) && vsize == VirtualSize(areas)
  {
    resident, vsize := [], 0;
    var i := 0;
    assert areas[0..] == areas;
    while i < |areas|
      invariant 0 <= i <= |areas|
      invariant resident + Resident(table, areas[i..]) == Resident(table, areas)
      invariant vsize + VirtualSize(areas[i..]) == VirtualSize(areas)
    {
      assert areas[i..][1..] == areas[i + 1..];
      vsize := vsize + if areas[i].end < areas[i].start then 0 else areas[i].end - areas[i].start;
      var pages := AreaPages(table, areas[i]);
      resident := resident + pages;
      i := i + 1;
    }
  }

  // ---------------------------------------------------------------- proportional shares

  datatype TaskPages = TaskPages(pid: nat, vsize: nat, resident: seq<nat>)

  datatype Scored = Scored(excess: int, pid: nat, page: nat)

  function TotalVsize(ts: seq<TaskPages>): nat { if ts == [] then 0 else ts[0].vsize + TotalVsize(ts[1..]) }

  function TotalResident(ts: seq<TaskPages>): nat { if ts == [] then 0 else |ts[0].resident| + TotalResident(ts[1..]) }

  /** The totals add up over the tasks. */
  lemma {:induction false} TotalsSplit(ts: seq<TaskPages>, more: seq<TaskPages>)
    ensures TotalVsize(ts + more) == TotalVsize(ts) + TotalVsize(more)
    ensures TotalResident(ts + more) == TotalResident(ts) + TotalResident(more)
    ensures forall t: TaskPages :: TotalVsize([t]) == t.vsize && TotalResident([t]) == |t.resident|
  {
    assert forall t: TaskPages :: [t][1..] == [];
    if ts == [] {
      assert ts + more == more;
    } else {
      TotalsSplit(ts[1..], more);
      assert (ts + more)[1..] == ts[1..] + more;
    }
  }

  function Share(vsize: nat, resident: nat, total: nat): nat {
    if total > 0 then (vsize * resident) / total else 0
  }

  function Excess(t: TaskPages, resident: nat, total: nat): int { |t.resident| - Share(t.vsize, resident, total) }

  function ShareSum(ts: seq<TaskPages>, resident: nat, total: nat): nat {
    if ts == [] then 0 else Share(ts[0].vsize, resident, total) + ShareSum(ts[1..], resident, total)
  }

  lemma FloorTimes(x: nat, d: nat)
    requires d > 0
    ensures (x / d) * d <= x
  {
    assert x == d * (x / d) + x % d;
  }

  lemma {:induction false} SharesTimesTotal(ts: seq<TaskPages>, resident: nat, total: nat)
    requires total > 0
    ensures ShareSum(ts, resident, total) * total <= TotalVsize(ts) * resident
  {
    if ts != [] {
      var x, y := Share(ts[0].vsize, resident, total), ShareSum(ts[1..], resident, total);
      SharesTimesTotal(ts[1..], resident, total);
      FloorTimes(ts[0].vsize * resident, total);
      assert (x + y) * total == x * total + y * total;
      assert (ts[0].vsize + TotalVsize(ts[1..])) * resident == ts[0].vsize * resident + TotalVsize(ts[1..]) * resident;
    }
  }

  lemma {:induction false} NoShares(ts: seq<TaskPages>, resident: nat)
    ensures ShareSum(ts, resident, 0) == 0
  {
    if ts != [] { NoShares(ts[1..], resident); }
  }

  /** The floored shares never add up to more than there are resident pages. */
  lemma SharesWithinResident(ts: seq<TaskPages>)
    ensures ShareSum(ts, TotalResident(ts), TotalVsize(ts)) <= TotalResident(ts)
  {
    var r, v := TotalResident(ts), TotalVsize(ts);
    if v == 0 {
      NoShares(ts, r);
    } else {
      SharesTimesTotal(ts, r, v);
      if ShareSum(ts, r, v) > r { MulMono(v, r + 1, ShareSum(ts, r, v)); }
    }
  }

  /** If every task with resident pages is below its share, so is the sum. */
  lemma {:induction false} AllBelow(ts: seq<TaskPages>, resident: nat, total: nat)
    requires forall i :: 0 <= i < |ts| && ts[i].resident != [] ==> Excess(ts[i], resident, total) < 0
    ensures TotalResident(ts) <= ShareSum(ts, resident, total)
    ensures TotalResident(ts) > 0 ==> TotalResident(ts) < ShareSum(ts, resident, total)
  {
    if ts != [] { AllBelow(ts[1..], resident, total); }
  }

  /** Some task with resident pages holds at least its share. */
  lemma SomeTaskAtShare(ts: seq<TaskPages>) returns (i: nat)
    requires TotalResident(ts) > 0
    ensures i < |ts| && ts[i].resident != [] && Excess(ts[i], TotalResident(ts), TotalVsize(ts)) >= 0
  {
    SharesWithinResident(ts);
    if forall i :: 0 <= i < |ts| && ts[i].resident != [] ==> Excess(ts[i], TotalResident(ts), TotalVsize(ts)) < 0 {
      AllBelow(ts, TotalResident(ts), TotalVsize(ts));
      assert false;
    }
    i :| 0 <= i < |ts| && ts[i].resident != [] && Excess(ts[i], TotalResident(ts), TotalVsize(ts)) >= 0;
  }

  // ---------------------------------------------------------------- the victim list

  function Entries(pid: nat, excess: int, pages: seq<nat>): (s: seq<Scored>)
    ensures |s| == |pages| && forall i :: 0 <= i < |s| ==> s[i] == Scored(excess, pid, pages[i])
  {
    seq(|pages|, i requires 0 <= i < |pages| => Scored(excess, pid, pages[i]))
  }

  function AllEntries(ts: seq<TaskPages>, resident: nat, total: nat): seq<Scored> {
    if ts == [] then []
    else Entries(ts[0].pid, Excess(ts[0], resident, total), ts[0].resident) + AllEntries(ts[1..], resident, total)
  }

  lemma {:induction false} EntryFor(ts: seq<TaskPages>, resident: nat, total: nat, i: nat, k: nat)
    requires i < |ts| && k < |ts[i].resident|
    ensures Scored(Excess(ts[i], resident, total), ts[i].pid, ts[i].resident[k]) in AllEntries(ts, resident, total)
  {
    if i == 0 {
      assert Entries(ts[0].pid, Excess(ts[0], resident, total), ts[0].resident)[k] in AllEntries(ts, resident, total);
    } else {
      EntryFor(ts[1..], resident, total, i - 1, k);
    }
  }

  lemma {:induction false} EntryFrom(ts: seq<TaskPages>, resident: nat, total: nat, e: Scored) returns (i: nat)
    requires e in AllEntries(ts, resident, total)
    ensures i < |ts| && e.pid == ts[i].pid && e.page in ts[i].resident && e.excess == Excess(ts[i], resident, total)
  {
    if e in Entries(ts[0].pid, Excess(ts[0], resident, total), ts[0].resident) {
      i := 0;
    } else {
      i := EntryFrom(ts[1..], resident, total, e);
      i := i + 1;
    }
  }

  /** Descending excess. */
  function VictimOrder(ts: seq<TaskPages>): seq<Scored> {
    Sort((e: Scored) => -e.excess, AllEntries(ts, TotalResident(ts), TotalVsize(ts)))
  }

  /** What the excess of an entry is: the task's resident pages less its share, which is the whole number of
      pages in proportion of its size to all sizes, and none if all sizes are zero. */
  ghost predicate ExcessIs(t: TaskPages, resident: nat, total: nat, excess: int) {
    var share := |t.resident| - excess;
    if total == 0 then share == 0 else share * total <= t.vsize * resident < (share + 1) * total
  }

  lemma FloorBounds(x: nat, d: nat)
    requires d > 0
    ensures (x / d) * d <= x < (x / d + 1) * d
  {
    assert x == d * (x / d) + x % d;
  }

  lemma ExcessOf(t: TaskPages, resident: nat, total: nat)
    ensures ExcessIs(t, resident, total, Excess(t, resident, total))
  {
    if total > 0 { FloorBounds(t.vsize * resident, total); }
  }

  lemma {:induction false} VictimExcess(ts: seq<TaskPages>, e: Scored) returns (i: nat)
    requires e in VictimOrder(ts)
    ensures i < |ts| && e.pid == ts[i].pid && e.page in ts[i].resident
    ensures ExcessIs(ts[i], TotalResident(ts), TotalVsize(ts), e.excess)
  {
    FirstVictimAtShare(ts);
    i := EntryFrom(ts, TotalResident(ts), TotalVsize(ts), e);
    ExcessOf(ts[i], TotalResident(ts), TotalVsize(ts));
  }

  lemma SameElements<T(!new)>(s: seq<T>, t: seq<T>)
    requires multiset(s) == multiset(t)
    ensures forall x :: x in s <==> x in t
  {
    forall x
      ensures x in s <==> x in t
    {
      assert x in s <==> x in multiset(s);
      assert x in t <==> x in multiset(t);
    }
  }

  /** PROPORTIONAL VICTIM ORDER: excess never grows along the list, and the first victim belongs
      to a task that holds at least its share. */
  lemma FirstVictimAtShare(ts: seq<TaskPages>)
    ensures var v := VictimOrder(ts);
            && (forall i, j :: 0 <= i < j < |v| ==> v[i].excess >= v[j].excess)
            && (v != [] ==> v[0].excess >= 0)
            && (forall e :: e in v <==> e in AllEntries(ts, TotalResident(ts), TotalVsize(ts)))
  {
    var r, t := TotalResident(ts), TotalVsize(ts);
    var v := VictimOrder(ts);
    SortFacts((e: Scored) => -e.excess, AllEntries(ts, r, t));
    SameElements(v, AllEntries(ts, r, t));
    if v != [] {
      assert v[0] in v;
      var j := EntryFrom(ts, r, t, v[0]);
      HasResident(ts, j);
      var i := SomeTaskAtShare(ts);
      EntryFor(ts, r, t, i, 0);
      var e := Scored(Excess(ts[i], r, t), ts[i].pid, ts[i].resident[0]);
      assert e in v;
    }
  }

  lemma {:induction false} HasResident(ts: seq<TaskPages>, i: nat)
    requires i < |ts| && ts[i].resident != []
    ensures TotalResident(ts) > 0
  {
    if i > 0 { HasResident(ts[1..], i - 1); }
  }

  // ---------------------------------------------------------------- over the machine

  function PagesOf(m: Machine, pid: nat): TaskPages {
    if pid in m.spaces
    then TaskPages(pid, VirtualSize(m.spaces[pid].areas), Resident(m.spaces[pid].table, m.spaces[pid].areas))
    else TaskPages(pid, 0, [])
  }

  function TaskList(m: Machine, tasks: seq<nat>): (ts: seq<TaskPages>)
    ensures |ts| == |tasks| && forall i :: 0 <= i < |ts| ==> ts[i] == PagesOf(m, tasks[i])
  {
    seq(|tasks|, i requires 0 <= i < |tasks| => PagesOf(m, tasks[i]))
  }

  method GatherCandidates(m: Machine, tasks: seq<nat>) returns (v: seq<Scored>)
    ensures v == VictimOrder(TaskList(m, tasks))
  {
    var perTask: seq<TaskPages> := [];
    var totalVsize, totalResident := 0, 0;
    var i := 0;
    while i < |tasks|
      invariant 0 <= i <= |tasks| && perTask == TaskList(m, tasks)[..i]
      invariant totalVsize + TotalVsize(TaskList(m, tasks)[i..]) == TotalVsize(TaskList(m, tasks))
      invariant totalResident + TotalResident(TaskList(m, tasks)[i..]) == TotalResident(TaskList(m, tasks))
    {
      ghost var rest := TaskList(m, tasks)[i..];
      assert rest[1..] == TaskList(m, tasks)[i + 1..] && rest[0] == PagesOf(m, tasks[i]);
      var t := TaskPages(tasks[i], 0, []);
      if tasks[i] in m.spaces {
        var resident, vsize := ResidentPages(m.spaces[tasks[i]].table, m.spaces[tasks[i]].areas);
        t := TaskPages(tasks[i], vsize, resident);
      }
      perTask := perTask + [t];
      totalVsize := totalVsize + t.vsize;
      totalResident := totalResident + |t.resident|;
      i := i + 1;
    }
    assert perTask == TaskList(m, tasks);
    var scored := ScoreAll(perTask, totalResident, totalVsize);
    v := Sort((e: Scored) => -e.excess, scored);
  }

  method ScoreAll(ts: seq<TaskPages>, resident: nat, total: nat) returns (scored: seq<Scored>)
    ensures scored == AllEntries(ts, resident, total)
  {
    scored := [];
    var i := 0;
    assert ts[0..] == ts;
    while i < |ts|
      invariant 0 <= i <= |ts|
      invariant scored + AllEntries(ts[i..], resident, total) == AllEntries(ts, resident, total)
    {
      assert ts[i..][1..] == ts[i + 1..];
      scored := scored + Entries(ts[i].pid, Excess(ts[i], resident, total), ts[i].resident);
      i := i + 1;
    }
  }

  ghost predicate TasksOk(m: Machine, tasks: seq<nat>) {
    && Distinct(tasks)
    && forall i :: 0 <= i < |tasks| ==> tasks[i] in m.spaces && WellLaid(m.spaces[tasks[i]].areas)
  }

  /** The candidates are exactly the mapped area pages of the tasks. */
  lemma CandidatesAre(m: Machine, tasks: seq<nat>, pid: nat, page: nat)
    requires TasksOk(m, tasks)
    ensures (exists e :: e in VictimOrder(TaskList(m, tasks)) && e.pid == pid && e.page == page) <==>
            pid in tasks && page in m.spaces[pid].table && InAreas(m.spaces[pid].areas, page)
  {
    var ts := TaskList(m, tasks);
    var r, t := TotalResident(ts), TotalVsize(ts);
    FirstVictimAtShare(ts);
    if e :| e in VictimOrder(ts) && e.pid == pid && e.page == page {
      var i := EntryFrom(ts, r, t, e);
      ResidentIs(m.spaces[tasks[i]].table, m.spaces[tasks[i]].areas);
    }
    if pid in tasks && page in m.spaces[pid].table && InAreas(m.spaces[pid].areas, page) {
      var i :| 0 <= i < |tasks| && tasks[i] == pid;
      ResidentIs(m.spaces[pid].table, m.spaces[pid].areas);
      var k :| 0 <= k < |ts[i].resident| && ts[i].resident[k] == page;
      EntryFor(ts, r, t, i, k);
    }
  }

  // ---------------------------------------------------------------- each page once

  ghost predicate KeysDistinct(s: seq<Scored>) {
    forall i, j :: 0 <= i < j < |s| ==> s[i].pid != s[j].pid || s[i].page != s[j].page
  }

  ghost predicate KeyAbsent(x: Scored, s: seq<Scored>) {
    forall i :: 0 <= i < |s| ==> x.pid != s[i].pid || x.page != s[i].page
  }

  lemma {:induction false} InsertKeyAbsent(key: Scored -> int, y: Scored, x: Scored, s: seq<Scored>)
    requires KeyAbsent(y, s) && KeyAbsent(y, [x])
    ensures KeyAbsent(y, Insert(key, x, s))
  {
    assert y.pid != [x][0].pid || y.page != [x][0].page;
    if s != [] && key(x) > key(s[0]) { InsertKeyAbsent(key, y, x, s[1..]); }
  }

  lemma {:induction false} InsertKeysDistinct(key: Scored -> int, x: Scored, s: seq<Scored>)
    requires KeysDistinct(s) && KeyAbsent(x, s)
    ensures KeysDistinct(Insert(key, x, s))
  {
    if s != [] && key(x) > key(s[0]) {
      InsertKeysDistinct(key, x, s[1..]);
      InsertKeyAbsent(key, s[0], x, s[1..]);
    }
  }

  lemma {:induction false} SortKeyAbsent(key: Scored -> int, y: Scored, s: seq<Scored>)
    requires KeyAbsent(y, s)
    ensures KeyAbsent(y, Sort(key, s))
  {
    if s != [] {
      SortKeyAbsent(key, y, s[1..]);
      InsertKeyAbsent(key, y, s[0], Sort(key, s[1..]));
    }
  }

  lemma {:induction false} SortKeysDistinct(key: Scored -> int, s: seq<Scored>)
    requires KeysDistinct(s)
    ensures KeysDistinct(Sort(key, s))
  {
    if s != [] {
      SortKeysDistinct(key, s[1..]);
      SortKeyAbsent(key, s[0], s[1..]);
      InsertKeysDistinct(key, s[0], Sort(key, s[1..]));
    }
  }

  lemma {:induction false} EntriesDistinct(ts: seq<TaskPages>, resident: nat, total: nat)
    requires forall i, j :: 0 <= i < j < |ts| ==> ts[i].pid != ts[j].pid
    requires forall i :: 0 <= i < |ts| ==> Distinct(ts[i].resident)
    ensures KeysDistinct(AllEntries(ts, resident, total))
  {
    if ts != [] {
      EntriesDistinct(ts[1..], resident, total);
      var first := Entries(ts[0].pid, Excess(ts[0], resident, total), ts[0].resident);
      var rest := AllEntries(ts[1..], resident, total);
      forall k | 0 <= k < |rest|
        ensures rest[k].pid != ts[0].pid
      {
        var i := EntryFrom(ts[1..], resident, total, rest[k]);
      }
    }
  }

  lemma VictimKeysDistinct(m: Machine, tasks: seq<nat>)
    requires TasksOk(m, tasks)
    ensures KeysDistinct(VictimOrder(TaskList(m, tasks)))
  {
    var ts := TaskList(m, tasks);
    forall i | 0 <= i < |ts|
      ensures Distinct(ts[i].resident)
    {
      ResidentIs(m.spaces[tasks[i]].table, m.spaces[tasks[i]].areas);
    }
    EntriesDistinct(ts, TotalResident(ts), TotalVsize(ts));
    SortKeysDistinct((e: Scored) => -e.excess, AllEntries(ts, TotalResident(ts), TotalVsize(ts)));
  }
}
