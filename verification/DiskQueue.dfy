/** The two disk request queues: circular scanning, and first-come order with merging of adjacent writes. */
module DiskQueue {
  import opened Common
  import opened StableSort

  /** A 64-bit sector number. */
  type Sector = n: nat | n < U64

  datatype Request = Request(lba: Sector, count: nat, isWrite: bool)

  // ---------------------------------------------------------------- circular scanning

  function Lba(r: Request): int { r.lba }

  /** How far round from the head a request lies. */
  function Circular(head: nat): Request -> int {
    (r: Request) => if r.lba >= head then r.lba else r.lba + U64
  }

  /** The number of leading requests below the head. */
  function Below(sorted: seq<Request>, head: nat): (n: nat)
    ensures n <= |sorted| && forall i :: 0 <= i < n ==> sorted[i].lba < head
    ensures n < |sorted| ==> sorted[n].lba >= head
  {
    if sorted == [] || sorted[0].lba >= head then 0 else 1 + Below(sorted[1..], head)
  }

  function Rotated(s: seq<Request>, split: nat): seq<Request>
    requires split <= |s|
  {
    s[split..] + s[..split]
  }

  function Cscan(batch: seq<Request>, head: nat): seq<Request> {
    var sorted := Sort(Lba, batch);
    Rotated(sorted, Below(sorted, head))
  }

  ghost predicate SplitsAt(s: seq<Request>, split: nat, head: nat) {
    && split <= |s| && Ascending(Lba, s)
    && (forall i :: 0 <= i < split ==> s[i].lba < head) && (forall i :: split <= i < |s| ==> s[i].lba >= head)
  }

  lemma BelowSplits(s: seq<Request>, head: nat)
    requires Ascending(Lba, s)
    ensures SplitsAt(s, Below(s, head), head)
  {
    var split := Below(s, head);
    forall i | split <= i < |s|
      ensures s[i].lba >= head
    {
      assert i > split ==> Lba(s[split]) <= Lba(s[i]);
    }
  }

  /** Requests at one circular position are the requests at one sector, or none. */
  lemma {:induction false} CircularKeys(head: nat, v: int, s: seq<Request>)
    ensures WithKey(Circular(head), v, s)
         == if head <= v < U64 then WithKey(Lba, v, s)
            else if U64 <= v < head + U64 then WithKey(Lba, v - U64, s) else []
  {
    if s != [] { CircularKeys(head, v, s[1..]); }
  }

  lemma RotateKeepsKey(s: seq<Request>, split: nat, head: nat, u: int)
    requires SplitsAt(s, split, head)
    ensures WithKey(Lba, u, Rotated(s, split)) == WithKey(Lba, u, s)
  {
    var below, above := s[..split], s[split..];
    assert s == below + above;
    WithKeyAppend(Lba, u, below, above);
    WithKeyAppend(Lba, u, above, below);
    if u >= head {
      assert NoKey(Lba, u, below);
      WithKeyNone(Lba, u, below);
    } else {
      assert NoKey(Lba, u, above);
      WithKeyNone(Lba, u, above);
    }
  }

  lemma RotatedAscends(s: seq<Request>, split: nat, head: nat)
    requires SplitsAt(s, split, head)
    ensures Ascending(Circular(head), Rotated(s, split))
  {
    var t := Rotated(s, split);
    var n := |s| - split;
    forall i, j | 0 <= i < j < |t|
      ensures Circular(head)(t[i]) <= Circular(head)(t[j])
    {
      var x, y := if i < n then i + split else i - n, if j < n then j + split else j - n;
      assert t[i] == s[x] && t[j] == s[y];
      assert x < y ==> Lba(s[x]) <= Lba(s[y]);
    }
  }

  /** C-SCAN IS ONE STABLE SORT by distance round from the head: split and swap add nothing else. */
  lemma CscanIsCircularSort(batch: seq<Request>, head: nat)
    ensures Cscan(batch, head) == Sort(Circular(head), batch)
  {
    var sorted := Sort(Lba, batch);
    var split := Below(sorted, head);
    var t := Sort(Circular(head), batch);
    SortFacts(Lba, batch);
    SortFacts(Circular(head), batch);
    BelowSplits(sorted, head);
    RotatedAscends(sorted, split, head);
    forall v
      ensures WithKey(Circular(head), v, Cscan(batch, head)) == WithKey(Circular(head), v, t)
    {
      SortStable(Circular(head), batch, v);
      CircularKeys(head, v, batch);
      CircularKeys(head, v, Cscan(batch, head));
      var u := if v < U64 then v else v - U64;
      RotateKeepsKey(sorted, split, head, u);
      SortStable(Lba, batch, u);
    }
    StableOrderUnique(Circular(head), Cscan(batch, head), t);
  }

  /** What that means for the arm: every request once, equal sectors in submission order, one sweep up from the
      head and then one sweep up below it. */
  lemma CscanSweeps(batch: seq<Request>, head: nat)
    ensures var t := Cscan(batch, head);
            && multiset(t) == multiset(batch)
            && (forall v :: WithKey(Lba, v, t) == WithKey(Lba, v, batch))
            && exists turn :: Turn(t, head, turn)
  {
    var sorted := Sort(Lba, batch);
    var split := Below(sorted, head);
    var t := Cscan(batch, head);
    SortFacts(Lba, batch);
    BelowSplits(sorted, head);
    RotatedMultiset(sorted, split);
    forall v
      ensures WithKey(Lba, v, t) == WithKey(Lba, v, batch)
    {
      RotateKeepsKey(sorted, split, head, v);
      SortStable(Lba, batch, v);
    }
    TurnAtSplit(sorted, split, head);
  }

  ghost predicate Turn(t: seq<Request>, head: nat, turn: nat) {
    && turn <= |t| && Ascending(Lba, t[..turn]) && Ascending(Lba, t[turn..])
    && (forall i :: 0 <= i < turn ==> t[i].lba >= head) && (forall i :: turn <= i < |t| ==> t[i].lba < head)
  }

  lemma TurnAtSplit(s: seq<Request>, split: nat, head: nat)
    requires SplitsAt(s, split, head)
    ensures Turn(Rotated(s, split), head, |s| - split)
  {
    var t, turn := Rotated(s, split), |s| - split;
    assert t[..turn] == s[split..] && t[turn..] == s[..split];
  }

  lemma RotatedMultiset(s: seq<Request>, split: nat)
    requires split <= |s|
    ensures multiset(Rotated(s, split)) == multiset(s)
  {
    assert s == s[..split] + s[split..];
  }

  class CscanScheduler {
    var pending: seq<Request>
    var head: nat

    constructor ()
      ensures pending == [] && head == 0
    {
      pending, head := [], 0;
    }

    method Submit(req: Request)
      modifies this`pending
      ensures pending == old(pending) + [req]
    {
      pending := pending + [req];
    }

    static method Position(sorted: seq<Request>, head: nat) returns (split: nat)
      ensures split == Below(sorted, head)
    {
      split := 0;
      while split < |sorted| && sorted[split].lba < head
        invariant split <= |sorted| && split + Below(sorted[split..], head) == Below(sorted, head)
      {
        assert sorted[split..][1..] == sorted[split + 1..];
        split := split + 1;
      }
    }

    /** Empties the queue, nearest ahead of the head first, and leaves the head behind the last request. */
    method Drain() returns (served: seq<Request>)
      modifies this
      ensures served == Sort(Circular(old(head)), old(pending)) && pending == []
      ensures head == if served == [] then old(head) else served[|served| - 1].lba + served[|served| - 1].count
    {
      var above := Sort(Lba, pending);
      CscanIsCircularSort(pending, head);
      pending := [];
      var split := Position(above, head);
      var below := above[..split];
      served := above[split..] + below;
      if |served| > 0 {
        head := served[|served| - 1].lba + served[|served| - 1].count;
      }
    }
  }

  // ---------------------------------------------------------------- first come first served, merging writes

  /** One sector read or written. */
  datatype Touch = Touch(sector: nat, isWrite: bool)

  function Sectors(lba: nat, count: nat, isWrite: bool): seq<Touch>
    decreases count
  {
    if count == 0 then [] else [Touch(lba, isWrite)] + Sectors(lba + 1, count - 1, isWrite)
  }

  function Expand(reqs: seq<Request>): seq<Touch> {
    if reqs == [] then []
    else
      var last := reqs[|reqs| - 1];
      Expand(reqs[..|reqs| - 1]) + Sectors(last.lba, last.count, last.isWrite)
  }

  predicate Mergeable(a: Request, b: Request) { a.isWrite && b.isWrite && b.lba == a.lba + a.count }

  function Join(a: Request, b: Request): Request { a.(count := a.count + b.count) }

  function Add(merged: seq<Request>, req: Request): seq<Request> {
    if merged != [] && Mergeable(merged[|merged| - 1], req)
    then merged[..|merged| - 1] + [Join(merged[|merged| - 1], req)]
    else merged + [req]
  }

  function Merged(batch: seq<Request>): seq<Request> {
    if batch == [] then [] else Add(Merged(batch[..|batch| - 1]), batch[|batch| - 1])
  }

  /** A request touches its sectors in ascending order, each once. */
  lemma {:induction false} SectorsAre(lba: nat, count: nat, isWrite: bool)
    ensures |Sectors(lba, count, isWrite)| == count
    ensures forall i :: 0 <= i < count ==> Sectors(lba, count, isWrite)[i] == Touch(lba + i, isWrite)
    decreases count
  {
    if count > 0 { SectorsAre(lba + 1, count - 1, isWrite); }
  }

  lemma {:induction false} SectorsJoin(lba: nat, n: nat, k: nat, isWrite: bool)
    ensures Sectors(lba, n, isWrite) + Sectors(lba + n, k, isWrite) == Sectors(lba, n + k, isWrite)
    decreases n
  {
    if n > 0 {
      SectorsJoin(lba + 1, n - 1, k, isWrite);
      var a, b := Sectors(lba + 1, n - 1, isWrite), Sectors(lba + n, k, isWrite);
      assert [Touch(lba, isWrite)] + a + b == [Touch(lba, isWrite)] + (a + b);
    } else {
      assert [] + Sectors(lba, k, isWrite) == Sectors(lba, k, isWrite);
    }
  }

  lemma ExpandSnoc(reqs: seq<Request>, r: Request)
    ensures Expand(reqs + [r]) == Expand(reqs) + Sectors(r.lba, r.count, r.isWrite)
  {
    assert (reqs + [r])[..|reqs|] == reqs;
  }

  lemma AddExpands(merged: seq<Request>, r: Request)
    ensures Expand(Add(merged, r)) == Expand(merged) + Sectors(r.lba, r.count, r.isWrite)
  {
    if merged != [] && Mergeable(merged[|merged| - 1], r) {
      var init, a := merged[..|merged| - 1], merged[|merged| - 1];
      ExpandSnoc(init, Join(a, r));
      SectorsJoin(a.lba, a.count, r.count, true);
      var x, y, z := Expand(init), Sectors(a.lba, a.count, true), Sectors(r.lba, r.count, true);
      assert x + (y + z) == (x + y) + z;
    } else {
      ExpandSnoc(merged, r);
    }
  }

  lemma ExpandOne(r: Request)
    ensures Expand([r]) == Sectors(r.lba, r.count, r.isWrite)
  {
    ExpandSnoc([], r);
    assert [] + [r] == [r];
  }

  /** The touches of a queue are those of its requests, one request after the other. */
  lemma {:induction false} ExpandAppend(a: seq<Request>, b: seq<Request>)
    ensures Expand(a + b) == Expand(a) + Expand(b)
    decreases |b|
  {
    if b == [] {
      assert a + b == a;
    } else {
      var init, r := b[..|b| - 1], b[|b| - 1];
      ExpandAppend(a, init);
      ExpandSnoc(a + init, r);
      ExpandSnoc(init, r);
      assert a + b == (a + init) + [r] && b == init + [r];
      Regroup(Expand(a), Expand(init), Sectors(r.lba, r.count, r.isWrite));
    }
  }

  /** MERGING KEEPS MEANING: the same sectors are read and written in the same order. */
  lemma {:induction false} MergingKeepsSectors(batch: seq<Request>)
    ensures Expand(Merged(batch)) == Expand(batch)
  {
    if batch != [] {
      MergingKeepsSectors(batch[..|batch| - 1]);
      AddExpands(Merged(batch[..|batch| - 1]), batch[|batch| - 1]);
    }
  }

  ghost predicate MergeableAt(reqs: seq<Request>, i: nat)
    requires i < |reqs| - 1
  {
    Mergeable(reqs[i], reqs[i + 1])
  }

  ghost predicate Settled(reqs: seq<Request>) { forall i: nat :: i < |reqs| - 1 ==> !MergeableAt(reqs, i) }

  lemma AddSettles(merged: seq<Request>, r: Request)
    requires Settled(merged)
    ensures Settled(Add(merged, r))
  {
    var out := Add(merged, r);
    var n := |merged|;
    if n > 0 && Mergeable(merged[n - 1], r) {
      forall i: nat | i < |out| - 1
        ensures !MergeableAt(out, i)
      {
        assert !MergeableAt(merged, i);
      }
    } else {
      forall i: nat | i < |out| - 1
        ensures !MergeableAt(out, i)
      {
        assert i < n - 1 ==> !MergeableAt(merged, i);
      }
    }
  }

  lemma {:induction false} MergedSettles(batch: seq<Request>)
    ensures Settled(Merged(batch))
  {
    if batch != [] {
      MergedSettles(batch[..|batch| - 1]);
      AddSettles(Merged(batch[..|batch| - 1]), batch[|batch| - 1]);
    }
  }

  /** Merging leaves a queue alone exactly when no two neighbours could be merged. */
  lemma MergedFixedIff(reqs: seq<Request>)
    ensures Merged(reqs) == reqs <==> Settled(reqs)
  {
    if Settled(reqs) {
      SettledFixed(reqs);
    } else {
      MergedSettles(reqs);
    }
  }

  lemma SettledInit(reqs: seq<Request>)
    requires Settled(reqs) && reqs != []
    ensures Settled(reqs[..|reqs| - 1])
  {
    var init := reqs[..|reqs| - 1];
    forall i: nat | i < |init| - 1
      ensures !MergeableAt(init, i)
    {
      assert !MergeableAt(reqs, i);
    }
  }

  lemma {:induction false} SettledFixed(reqs: seq<Request>)
    requires Settled(reqs)
    ensures Merged(reqs) == reqs
  {
    if reqs != [] {
      var n := |reqs| - 1;
      var init := reqs[..n];
      SettledInit(reqs);
      SettledFixed(init);
      assert n > 0 ==> !MergeableAt(reqs, n - 1);
      assert Merged(reqs) == Add(init, reqs[n]) == init + [reqs[n]];
    }
  }

  /** A second pass finds nothing to do. */
  lemma MergingIdempotent(batch: seq<Request>)
    ensures Merged(Merged(batch)) == Merged(batch)
  {
    MergedSettles(batch);
    SettledFixed(Merged(batch));
  }

  class FcfsScheduler {
    var pending: seq<Request>

    constructor ()
      ensures pending == []
    {
      pending := [];
    }

    method Submit(req: Request)
      modifies this
      ensures pending == old(pending) + [req]
    {
      pending := pending + [req];
    }

    static method Accept(merged: seq<Request>, req: Request) returns (out: seq<Request>)
      ensures out == Add(merged, req)
    {
      if req.isWrite && |merged| > 0 {
        var last := merged[|merged| - 1];
        if last.isWrite && req.lba == last.lba + last.count {
          out := merged[|merged| - 1 := last.(count := last.count + req.count)];
          return;
        }
      }
      out := merged + [req];
    }

    method Drain() returns (merged: seq<Request>)
      modifies this
      ensures merged == Merged(old(pending)) && pending == []
      ensures Expand(merged) == Expand(old(pending)) && Settled(merged)
    {
      var batch := pending;
      pending := [];
      merged := [];
      var i := 0;
      while i < |batch|
        invariant i <= |batch| && merged == Merged(batch[..i]) && pending == []
      {
        assert batch[..i + 1][..i] == batch[..i];
        merged := Accept(merged, batch[i]);
        i := i + 1;
      }
      assert batch[..i] == batch;
      MergingKeepsSectors(batch);
      MergedSettles(batch);
    }
  }
}
