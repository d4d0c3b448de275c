/** The boot-time frame allocator, the free list threaded through free frames, and the hand-off between them.
    Frames are named by the address of their first byte. */
module BootFrames {
  import opened Common

  datatype Region = Region(start: nat, end: nat, usable: bool)

  function Containing(a: nat): nat { a - a % PAGE }

  // ---------------------------------------------------------------- the two enumerations of a memory map

  /** The frames from `a` to `last`, both included: what the boot allocator's cursor runs over. */
  function Pages(a: nat, last: nat): seq<nat>
    decreases last + PAGE - a
  {
    if a <= last then [a] + Pages(a + PAGE, last) else []
  }

  /** The frames that building the free list visits: whole pages counted from the region's first byte. */
  function Walk(a: nat, end: nat): seq<nat>
    decreases end - a
  {
    if a + PAGE <= end then [Containing(a)] + Walk(a + PAGE, end) else []
  }

  function BootFramesOf(r: Region): seq<nat>
    requires r.end > 0
  {
    Pages(Containing(r.start), Containing(r.end - 1))
  }

  predicate Ends(regions: seq<Region>) { forall i :: 0 <= i < |regions| && regions[i].usable ==> regions[i].end > 0 }

  function BootFramesFrom(regions: seq<Region>, i: nat): seq<nat>
    requires Ends(regions) && i <= |regions|
    decreases |regions| - i
  {
    if i == |regions| then []
    else (if regions[i].usable then BootFramesOf(regions[i]) else []) + BootFramesFrom(regions, i + 1)
  }

  function ListFramesFrom(regions: seq<Region>, i: nat): seq<nat>
    requires i <= |regions|
    decreases |regions| - i
  {
    if i == |regions| then []
    else (if regions[i].usable then Walk(regions[i].start, regions[i].end) else []) + ListFramesFrom(regions, i + 1)
  }

  function BootFramesIn(regions: seq<Region>): seq<nat>
    requires Ends(regions)
  {
    BootFramesFrom(regions, 0)
  }

  function ListFramesIn(regions: seq<Region>): seq<nat> { ListFramesFrom(regions, 0) }

  lemma {:induction false} PagesIsWalk(a: nat, end: nat)
    requires a % PAGE == 0 && end % PAGE == 0 && end > 0
    ensures Pages(a, end - PAGE) == Walk(a, end)
    decreases end + PAGE - a
  {
    if a + PAGE <= end {
      PagesIsWalk(a + PAGE, end);
    }
  }

  lemma {:induction false} WalkBound(a: nat, end: nat, x: nat)
    requires x in Walk(a, end)
    ensures x + a % PAGE + PAGE <= end
    decreases end - a
  {
    if x != Containing(a) {
      WalkBound(a + PAGE, end, x);
    }
  }

  lemma {:induction false} LastPage(a: nat, last: nat)
    requires a <= last && a % PAGE == last % PAGE
    ensures last in Pages(a, last)
    decreases last - a
  {
    if a != last {
      LastPage(a + PAGE, last);
    }
  }

  lemma LastFrame(end: nat)
    requires end > 0
    ensures var last := Containing(end - 1);
            last % PAGE == 0 && last < end <= last + PAGE && (end % PAGE == 0 <==> end == last + PAGE)
  {
  }

  /** The two allocators see the same frames of a region exactly when the region is page-aligned at both ends. */
  lemma RegionAgreesIff(r: Region)
    requires r.start < r.end
    ensures BootFramesOf(r) == Walk(r.start, r.end) <==> r.start % PAGE == 0 && r.end % PAGE == 0
  {
    var last := Containing(r.end - 1);
    LastFrame(r.end);
    if r.start % PAGE == 0 && r.end % PAGE == 0 {
      PagesIsWalk(r.start, r.end);
    } else {
      LastPage(Containing(r.start), last);
      if last in Walk(r.start, r.end) {
        WalkBound(r.start, r.end, last);
      }
    }
  }

  // ---------------------------------------------------------------- which frames, and each once

  ghost predicate Aligned(regions: seq<Region>) {
    forall i :: 0 <= i < |regions| && regions[i].usable ==>
      regions[i].start < regions[i].end && regions[i].start % PAGE == 0 && regions[i].end % PAGE == 0
  }

  ghost predicate Apart(r: Region, t: Region) { r.end <= t.start || t.end <= r.start }

  ghost predicate Disjoint(regions: seq<Region>) {
    forall i, j :: 0 <= i < j < |regions| && regions[i].usable && regions[j].usable ==> Apart(regions[i], regions[j])
  }

  ghost predicate InRegion(r: Region, x: nat) { r.usable && r.start <= x && x + PAGE <= r.end }

  ghost predicate InSome(regions: seq<Region>, i: nat, x: nat) {
    exists k :: i <= k < |regions| && InRegion(regions[k], x)
  }

  ghost predicate UsableFrame(regions: seq<Region>, x: nat) { x % PAGE == 0 && InSome(regions, 0, x) }

  lemma {:induction false} MapsAgree(regions: seq<Region>, i: nat)
    requires Aligned(regions) && i <= |regions|
    ensures Ends(regions) && BootFramesFrom(regions, i) == ListFramesFrom(regions, i)
    decreases |regions| - i
  {
    if i < |regions| {
      MapsAgree(regions, i + 1);
      if regions[i].usable {
        RegionAgreesIff(regions[i]);
      }
    }
  }

  lemma {:induction false} WalkHas(a: nat, end: nat, x: nat)
    requires a % PAGE == 0
    ensures x in Walk(a, end) <==> x % PAGE == 0 && a <= x && x + PAGE <= end
    decreases end - a
  {
    if a + PAGE <= end {
      WalkHas(a + PAGE, end, x);
    }
  }

  lemma {:induction false} WalkDistinct(a: nat, end: nat)
    requires a % PAGE == 0
    ensures Distinct(Walk(a, end))
    decreases end - a
  {
    if a + PAGE <= end {
      WalkDistinct(a + PAGE, end);
      WalkHas(a + PAGE, end, a);
    }
  }

  lemma InSomeNext(regions: seq<Region>, i: nat, x: nat)
    requires i < |regions|
    ensures InSome(regions, i, x) <==> InRegion(regions[i], x) || InSome(regions, i + 1, x)
  {
  }

  lemma {:induction false} ListFramesHas(regions: seq<Region>, i: nat, x: nat)
    requires Aligned(regions) && i <= |regions|
    ensures x in ListFramesFrom(regions, i) <==> x % PAGE == 0 && InSome(regions, i, x)
    decreases |regions| - i
  {
    if i < |regions| {
      ListFramesHas(regions, i + 1, x);
      InSomeNext(regions, i, x);
      if regions[i].usable {
        WalkHas(regions[i].start, regions[i].end, x);
      }
    }
  }

  lemma {:induction false} ListFramesDistinct(regions: seq<Region>, i: nat)
    requires Aligned(regions) && Disjoint(regions) && i <= |regions|
    ensures Distinct(ListFramesFrom(regions, i))
    decreases |regions| - i
  {
    if i < |regions| {
      ListFramesDistinct(regions, i + 1);
      if regions[i].usable {
        var here := Walk(regions[i].start, regions[i].end);
        WalkDistinct(regions[i].start, regions[i].end);
        forall x | x in here
          ensures x !in ListFramesFrom(regions, i + 1)
        {
          WalkHas(regions[i].start, regions[i].end, x);
          ListFramesHas(regions, i + 1, x);
          forall k | i < k < |regions|
            ensures !InRegion(regions[k], x)
          {
            assert regions[k].usable ==> Apart(regions[i], regions[k]);
          }
        }
        DistinctConcat(here, ListFramesFrom(regions, i + 1));
      }
    }
  }

  // ---------------------------------------------------------------- the free list

  /** `words` is the first word of each frame: the address of the next free frame, or zero. */
  datatype FreeList = FreeList(head: Option<nat>, count: nat, words: map<nat, nat>)

  const EMPTY: FreeList := FreeList(None, 0, map[])

  function Decode(word: nat): Option<nat> { if word == 0 then None else Some(word) }

  function Push(l: FreeList, frame: nat): FreeList {
    FreeList(Some(frame), l.count + 1, l.words[frame := if l.head.Some? then l.head.value else 0])
  }

  predicate Readable(l: FreeList) { l.head.Some? ==> l.head.value in l.words && l.count > 0 }

  function Pop(l: FreeList): (FreeList, Option<nat>)
    requires Readable(l)
  {
    if l.head.None? then (l, None)
    else (FreeList(Decode(l.words[l.head.value]), l.count - 1, l.words), l.head)
  }

  function PushAll(l: FreeList, frames: seq<nat>): FreeList {
    if frames == [] then l else Push(PushAll(l, frames[..|frames| - 1]), frames[|frames| - 1])
  }

  function Reversed(s: seq<nat>): seq<nat> {
    if s == [] then [] else [s[|s| - 1]] + Reversed(s[..|s| - 1])
  }

  /** Following the links from `head` visits exactly `chain` and then ends. */
  ghost predicate Linked(head: Option<nat>, words: map<nat, nat>, chain: seq<nat>)
    decreases chain
  {
    if chain == [] then head.None?
    else head == Some(chain[0]) && chain[0] in words && Linked(Decode(words[chain[0]]), words, chain[1..])
  }

  ghost predicate Good(l: FreeList, chain: seq<nat>) {
    Linked(l.head, l.words, chain) && l.count == |chain| && Distinct(chain)
  }

  lemma {:induction false} LinkedFrame(head: Option<nat>, words: map<nat, nat>, chain: seq<nat>, frame: nat, w: nat)
    requires frame !in chain
    ensures Linked(head, words[frame := w], chain) <==> Linked(head, words, chain)
    decreases chain
  {
    if chain != [] && chain[0] in words {
      LinkedFrame(Decode(words[chain[0]]), words, chain[1..], frame, w);
    }
  }

  lemma {:induction false} LinkedUnique(head: Option<nat>, words: map<nat, nat>, chain: seq<nat>, other: seq<nat>)
    requires Linked(head, words, chain) && Linked(head, words, other)
    ensures chain == other
    decreases chain
  {
    if chain != [] {
      LinkedUnique(Decode(words[chain[0]]), words, chain[1..], other[1..]);
    }
  }

  /** Freeing a frame extends the chain by it, except on top of frame zero: a link of zero ends the chain. */
  lemma PushLinkedIff(l: FreeList, frame: nat, chain: seq<nat>)
    requires frame !in chain && l.head == if chain == [] then None else Some(chain[0])
    ensures var l' := Push(l, frame);
            Linked(l'.head, l'.words, [frame] + chain)
            <==> Linked(l.head, l.words, chain) && (chain == [] || chain[0] != 0)
  {
    var l' := Push(l, frame);
    var w := if l.head.Some? then l.head.value else 0;
    assert ([frame] + chain)[1..] == chain;
    assert Linked(l'.head, l'.words, [frame] + chain) <==> Linked(Decode(w), l'.words, chain);
    LinkedFrame(Decode(w), l.words, chain, frame, w);
  }

  lemma {:induction false} ReversedHas(s: seq<nat>)
    ensures |Reversed(s)| == |s|
    ensures forall x :: x in Reversed(s) <==> x in s
  {
    if s != [] {
      ReversedHas(s[..|s| - 1]);
      assert s == s[..|s| - 1] + [s[|s| - 1]];
    }
  }

  lemma {:induction false} ReversedDistinct(s: seq<nat>)
    requires Distinct(s)
    ensures Distinct(Reversed(s))
  {
    if s != [] {
      ReversedDistinct(s[..|s| - 1]);
      ReversedHas(s[..|s| - 1]);
      DistinctConcat([s[|s| - 1]], Reversed(s[..|s| - 1]));
    }
  }

  /** Building the list from distinct frames chains all of them, newest first, exactly when frame zero is
      nowhere but at the end of the sequence. */
  lemma {:induction false} BuildLinkedIff(frames: seq<nat>)
    requires Distinct(frames)
    ensures var l := PushAll(EMPTY, frames);
            && l.count == |frames|
            && l.head == (if frames == [] then None else Some(frames[|frames| - 1]))
            && (Linked(l.head, l.words, Reversed(frames)) <==> forall i :: 0 <= i < |frames| - 1 ==> frames[i] != 0)
  {
    if frames != [] {
      var n := |frames| - 1;
      var before := frames[..n];
      BuildLinkedIff(before);
      ReversedHas(before);
      PushLinkedIff(PushAll(EMPTY, before), frames[n], Reversed(before));
      if n > 0 {
        assert Reversed(before)[0] == frames[n - 1];
      }
    }
  }

  /** What goes wrong otherwise: a map whose first two frames are at addresses 0 and 4096 leaves a list
      that counts two frames and reaches one. */
  lemma FrameZeroLost()
    ensures var l := PushAll(EMPTY, [0, PAGE]);
            ListFramesIn([Region(0, 2 * PAGE, true)]) == [0, PAGE] && l.count == 2 && Linked(l.head, l.words, [PAGE])
  {
    var r := Region(0, 2 * PAGE, true);
    assert Walk(2 * PAGE, 2 * PAGE) == [];
    assert Walk(PAGE, 2 * PAGE) == [PAGE];
    assert ListFramesFrom([r], 1) == [];
    assert [0, PAGE][..1] == [0] && [0][..0] == [];
    assert PushAll(EMPTY, [0]) == Push(PushAll(EMPTY, [0][..0]), 0) == Push(EMPTY, 0);
    assert PushAll(EMPTY, [0, PAGE]) == Push(Push(EMPTY, 0), PAGE);
    assert [PAGE][1..] == [];
  }

  /** THE HAND-OFF: after the boot allocator has given out the first `n` frames, the list built with
      `skip = n` holds all the others; together they are exactly the usable frames, none twice. */
  lemma HandOff(regions: seq<Region>, n: nat)
    requires Aligned(regions) && Disjoint(regions)
    requires n <= |ListFramesIn(regions)| && 0 !in ListFramesIn(regions)[n..]
    ensures Ends(regions) && BootFramesIn(regions) == ListFramesIn(regions)
    ensures var given, rest := BootFramesIn(regions)[..n], ListFramesIn(regions)[n..];
            var l, chain := PushAll(EMPTY, rest), Reversed(rest);
            && Good(l, chain) && Distinct(given)
            && (forall x: nat :: !(x in given && x in chain))
            && (forall x: nat :: x in given || x in chain <==> UsableFrame(regions, x))
  {
    var all := ListFramesIn(regions);
    MapsAgree(regions, 0);
    ListFramesDistinct(regions, 0);
    BuildLinkedIff(all[n..]);
    ReversedDistinct(all[n..]);
    ReversedHas(all[n..]);
    assert all == all[..n] + all[n..];
    forall x: nat
      ensures x in all[..n] || x in Reversed(all[n..]) <==> UsableFrame(regions, x)
    {
      ListFramesHas(regions, 0, x);
    }
  }

  // ---------------------------------------------------------------- whole runs after the hand-off

  /** The frames the rest of the kernel owns, beside the list. */
  datatype Frames = Frames(list: FreeList, owned: set<nat>)

  datatype Op = Alloc | Free(frame: nat) | Store(frame: nat, word: nat)

  /** Owners free and overwrite only what they own. */
  function Apply(f: Frames, op: Op): Frames
    requires Readable(f.list)
  {
    match op
    case Alloc =>
      var (l, got) := Pop(f.list);
      Frames(l, if got.Some? then f.owned + {got.value} else f.owned)
    case Free(a) => if a in f.owned then Frames(Push(f.list, a), f.owned - {a}) else f
    case Store(a, w) => if a in f.owned then f.(list := f.list.(words := f.list.words[a := w])) else f
  }

  ghost predicate Split(f: Frames, all: set<nat>, chain: seq<nat>) {
    && Good(f.list, chain) && 0 !in all
    && (forall x :: x in all <==> x in chain || x in f.owned)
    && forall x :: x in chain ==> x !in f.owned
  }

  ghost predicate Conserved(f: Frames, all: set<nat>) { exists chain :: Split(f, all, chain) }

  lemma AllocSplit(f: Frames, all: set<nat>, chain: seq<nat>)
    requires Split(f, all, chain)
    ensures Readable(f.list) && Split(Apply(f, Alloc), all, if chain == [] then [] else chain[1..])
    ensures Pop(f.list).1 == if chain == [] then None else Some(chain[0])
  {
    if chain != [] {
      assert chain == [chain[0]] + chain[1..];
      var f' := Apply(f, Alloc);
      assert f'.owned == f.owned + {chain[0]};
      forall x | x in chain[1..]
        ensures x !in f'.owned
      {
        var i :| 0 <= i < |chain| - 1 && chain[1..][i] == x;
        assert chain[i + 1] == x;
      }
    }
  }

  lemma FreeSplit(f: Frames, all: set<nat>, chain: seq<nat>, a: nat)
    requires Split(f, all, chain) && a in f.owned && Readable(f.list)
    ensures Split(Apply(f, Free(a)), all, [a] + chain)
  {
    PushLinkedIff(f.list, a, chain);
    DistinctConcat([a], chain);
    assert chain != [] ==> chain[0] in all;
  }

  lemma StepConserves(f: Frames, all: set<nat>, op: Op)
    requires Conserved(f, all)
    ensures Readable(f.list) && Conserved(Apply(f, op), all)
  {
    var chain :| Split(f, all, chain);
    AllocSplit(f, all, chain);
    match op
    case Alloc =>
    case Free(a) => if a in f.owned { FreeSplit(f, all, chain, a); } else { assert Split(Apply(f, op), all, chain); }
    case Store(a, w) =>
      LinkedStore(f, chain, a, w);
      assert Split(Apply(f, op), all, chain);
  }

  lemma LinkedStore(f: Frames, chain: seq<nat>, a: nat, w: nat)
    requires Linked(f.list.head, f.list.words, chain) && forall x :: x in chain ==> x !in f.owned
    ensures a in f.owned ==> Linked(f.list.head, f.list.words[a := w], chain)
  {
    if a in f.owned {
      LinkedFrame(f.list.head, f.list.words, chain, a, w);
    }
  }

  ghost function Run(f: Frames, ops: seq<Op>, all: set<nat>): Frames
    requires Conserved(f, all)
    decreases ops
  {
    if ops == [] then f
    else
      StepConserves(f, all, ops[0]);
      Run(Apply(f, ops[0]), ops[1..], all)
  }

  ghost function Elems(s: seq<nat>): set<nat> { set x | x in s }

  lemma {:induction false} CardOfDistinct(s: seq<nat>)
    requires Distinct(s)
    ensures |Elems(s)| == |s|
  {
    if s != [] {
      CardOfDistinct(s[1..]);
      assert s == [s[0]] + s[1..];
      assert Elems(s) == {s[0]} + Elems(s[1..]);
      assert s[0] !in s[1..];
    }
  }

  lemma ConservedCounts(f: Frames, all: set<nat>)
    requires Conserved(f, all)
    ensures Readable(f.list) && f.list.count + |f.owned| == |all|
    ensures Pop(f.list).1.None? <==> f.owned == all
  {
    var chain :| Split(f, all, chain);
    AllocSplit(f, all, chain);
    SplitCounts(f, all, chain);
    if chain != [] {
      assert chain[0] in all && chain[0] !in f.owned;
    }
  }

  lemma SplitCounts(f: Frames, all: set<nat>, chain: seq<nat>)
    requires Split(f, all, chain)
    ensures f.list.count + |f.owned| == |all| && (chain == [] ==> f.owned == all)
  {
    CardOfDistinct(chain);
    assert Elems(chain) * f.owned == {};
    assert all == Elems(chain) + f.owned;
  }

  /** FRAMES ARE CONSERVED: through any run of allocations, frees and stores by owners, the free count is the
      length of the one chain the links describe, chain and owned frames split the frames exactly, and an
      allocation fails only when every frame is owned. */
  lemma {:induction false} RunConserves(f: Frames, ops: seq<Op>, all: set<nat>)
    requires Conserved(f, all)
    ensures var f' := Run(f, ops, all);
            && Conserved(f', all) && Readable(f'.list)
            && f'.list.count + |f'.owned| == |all|
            && (Pop(f'.list).1.None? <==> f'.owned == all)
    decreases ops
  {
    if ops == [] {
      ConservedCounts(f, all);
    } else {
      StepConserves(f, all, ops[0]);
      RunConserves(Apply(f, ops[0]), ops[1..], all);
    }
  }

  /** From boot onwards: whatever the boot allocator took, every later run conserves the rest of the frames. */
  lemma BootConserves(regions: seq<Region>, n: nat, ops: seq<Op>)
    requires Aligned(regions) && Disjoint(regions)
    requires n <= |ListFramesIn(regions)| && 0 !in ListFramesIn(regions)[n..]
    ensures var all, f := Elems(ListFramesIn(regions)[n..]), Frames(PushAll(EMPTY, ListFramesIn(regions)[n..]), {});
            && Conserved(f, all) && Conserved(Run(f, ops, all), all)
            && Run(f, ops, all).list.count + |Run(f, ops, all).owned| == |ListFramesIn(regions)| - n
  {
    var rest := ListFramesIn(regions)[n..];
    var f := Frames(PushAll(EMPTY, rest), {});
    HandOff(regions, n);
    ReversedHas(rest);
    ListFramesDistinct(regions, 0);
    CardOfDistinct(rest);
    assert Split(f, Elems(rest), Reversed(rest));
    RunConserves(f, ops, Elems(rest));
  }

  // ---------------------------------------------------------------- the two objects

  /** The frames from the cursor on. */
  ghost function Ahead(regions: seq<Region>, i: nat, cursor: Option<nat>): seq<nat>
    requires Ends(regions) && i <= |regions|
  {
    if i == |regions| || !regions[i].usable || cursor.None? then BootFramesFrom(regions, i)
    else Pages(cursor.value, Containing(regions[i].end - 1)) + BootFramesFrom(regions, i + 1)
  }

  ghost predicate Settled(regions: seq<Region>, i: nat, cursor: Option<nat>)
    requires Ends(regions) && i <= |regions|
  {
    if i == |regions| then cursor.None?
    else regions[i].usable && cursor.Some? && cursor.value <= Containing(regions[i].end - 1)
  }

  lemma AheadTake(regions: seq<Region>, i: nat, cursor: Option<nat>)
    requires Ends(regions) && i <= |regions| && Settled(regions, i, cursor)
    ensures Ahead(regions, i, cursor) ==
            if i == |regions| then [] else [cursor.value] + Ahead(regions, i, Some(cursor.value + PAGE))
  {
    if i < |regions| {
      var last, after := Containing(regions[i].end - 1), BootFramesFrom(regions, i + 1);
      Regroup([cursor.value], Pages(cursor.value + PAGE, last), after);
    }
  }

  /** `n` frames have been handed out. */
  ghost predicate Positioned(regions: seq<Region>, i: nat, cursor: Option<nat>, n: nat)
    requires Ends(regions) && i <= |regions|
  {
    n <= |BootFramesIn(regions)| && BootFramesIn(regions)[n..] == Ahead(regions, i, cursor)
  }

  lemma PositionedNext(regions: seq<Region>, i: nat, cursor: Option<nat>, n: nat)
    requires Ends(regions) && i <= |regions| && Settled(regions, i, cursor) && Positioned(regions, i, cursor, n)
    ensures cursor.None? ==> n == |BootFramesIn(regions)|
    ensures cursor.Some? ==> n < |BootFramesIn(regions)| && BootFramesIn(regions)[n] == cursor.value
                             && Positioned(regions, i, Some(cursor.value + PAGE), n + 1)
  {
    var all := BootFramesIn(regions);
    AheadTake(regions, i, cursor);
    if cursor.Some? {
      assert all[n..][1..] == all[n + 1..];
    }
  }

  class BootFrameAllocator {
    const regions: seq<Region>
    var regionIdx: nat
    var cursor: Option<nat>
    var framesConsumed: nat

    ghost predicate Valid()
      reads this
    {
      && Ends(regions) && regionIdx <= |regions| && Settled(regions, regionIdx, cursor)
      && Positioned(regions, regionIdx, cursor, framesConsumed)
    }

    constructor (layout: seq<Region>)
      requires Ends(layout)
      ensures Valid() && regions == layout && framesConsumed == 0
    {
      regions, regionIdx, cursor, framesConsumed := layout, 0, None, 0;
      new;
      SeekToFirstUsableFrame();
    }

    method SeekToFirstUsableFrame()
      requires Ends(regions) && regionIdx <= |regions|
      requires cursor.Some? ==> regionIdx < |regions| && regions[regionIdx].usable
      modifies this`regionIdx, this`cursor
      ensures regionIdx <= |regions| && Settled(regions, regionIdx, cursor)
      ensures Ahead(regions, regionIdx, cursor) == old(Ahead(regions, regionIdx, cursor))
    {
      ghost var ahead := Ahead(regions, regionIdx, cursor);
      while regionIdx < |regions|
        invariant regionIdx <= |regions| && Ahead(regions, regionIdx, cursor) == ahead
        invariant cursor.Some? ==> regionIdx < |regions| && regions[regionIdx].usable
      {
        var region := regions[regionIdx];
        if region.usable {
          var candidate := if cursor.Some? then cursor.value else Containing(region.start);
          if candidate <= Containing(region.end - 1) {
            cursor := Some(candidate);
            return;
          }
        }
        regionIdx, cursor := regionIdx + 1, None;
      }
      cursor := None;
    }

    /** Hands out the frames of the map in order, and fails only when none is left. */
    method Allocate() returns (frame: Option<nat>)
      requires Valid()
      modifies this
      ensures Valid()
      ensures var all := BootFramesIn(regions);
              if old(framesConsumed) == |all| then frame == None && framesConsumed == old(framesConsumed)
              else frame == Some(all[old(framesConsumed)]) && framesConsumed == old(framesConsumed) + 1
    {
      PositionedNext(regions, regionIdx, cursor, framesConsumed);
      frame := cursor;
      if frame.Some? {
        cursor := Some(frame.value + PAGE);
        framesConsumed := framesConsumed + 1;
        SeekToFirstUsableFrame();
      }
    }
  }

  function Drop(s: seq<nat>, n: nat): seq<nat> { if n <= |s| then s[n..] else [] }

  lemma VisitNext(l: FreeList, done: seq<nat>, frame: nat, skip: nat)
    ensures PushAll(l, Drop(done + [frame], skip))
         == if |done| < skip then PushAll(l, Drop(done, skip)) else Push(PushAll(l, Drop(done, skip)), frame)
  {
    if |done| < skip {
      assert Drop(done + [frame], skip) == [] == Drop(done, skip);
    } else {
      var kept := Drop(done, skip);
      assert Drop(done + [frame], skip) == kept + [frame];
      assert (kept + [frame])[..|kept|] == kept;
    }
  }

  class FreeListAllocator {
    var head: Option<nat>
    var freeCount: nat
    var words: map<nat, nat>

    function Value(): FreeList
      reads this
    {
      FreeList(head, freeCount, words)
    }

    constructor ()
      ensures Value() == EMPTY
    {
      head, freeCount, words := None, 0, map[];
    }

    method Deallocate(frame: nat)
      modifies this
      ensures Value() == Push(old(Value()), frame)
    {
      var oldHead := if head.Some? then head.value else 0;
      words := words[frame := oldHead];
      head := Some(frame);
      freeCount := freeCount + 1;
    }

    method Allocate() returns (frame: Option<nat>)
      requires Readable(Value())
      modifies this
      ensures (Value(), frame) == Pop(old(Value()))
    {
      frame := head;
      if frame.Some? {
        var next := words[frame.value];
        head := match next case 0 => None case _ => Some(next);
        freeCount := freeCount - 1;
      }
    }

    /** The list after the frames of `done`, with `left` of the skipped ones still to come. */
    ghost predicate Built(start: FreeList, done: seq<nat>, skip: nat, left: nat)
      reads this
    {
      left == (if |done| < skip then skip - |done| else 0) && Value() == PushAll(start, Drop(done, skip))
    }

    method Visit(frame: nat, left: nat, ghost done: seq<nat>, ghost skip: nat, ghost start: FreeList)
      returns (left': nat)
      requires Built(start, done, skip, left)
      modifies this
      ensures Built(start, done + [frame], skip, left')
    {
      VisitNext(start, done, frame, skip);
      left' := left;
      if left > 0 {
        left' := left - 1;
      } else {
        Deallocate(frame);
      }
    }

    /** Frees every usable frame of the map in order, but for the first `skip`. */
    method Init(regions: seq<Region>, skip: nat)
      modifies this
      ensures Value() == PushAll(old(Value()), Drop(ListFramesIn(regions), skip))
    {
      ghost var start, done := Value(), [];
      var left, i := skip, 0;
      while i < |regions|
        invariant i <= |regions| && done + ListFramesFrom(regions, i) == ListFramesIn(regions)
        invariant Built(start, done, skip, left)
      {
        if regions[i].usable {
          ghost var was := done;
          left, done := InitRegion(regions[i], left, done, skip, start);
          Regroup(was, Walk(regions[i].start, regions[i].end), ListFramesFrom(regions, i + 1));
        }
        i := i + 1;
      }
      assert done == ListFramesIn(regions);
    }

    method InitRegion(region: Region, left: nat, ghost done: seq<nat>, ghost skip: nat, ghost start: FreeList)
      returns (left': nat, ghost done': seq<nat>)
      requires Built(start, done, skip, left)
      modifies this
      ensures done' == done + Walk(region.start, region.end) && Built(start, done', skip, left')
    {
      var addr := region.start;
      left', done' := left, done;
      while addr + PAGE <= region.end
        invariant done' + Walk(addr, region.end) == done + Walk(region.start, region.end)
        invariant Built(start, done', skip, left')
      {
        Regroup(done', [Containing(addr)], Walk(addr + PAGE, region.end));
        left' := Visit(Containing(addr), left', done', skip, start);
        done' := done' + [Containing(addr)];
        addr := addr + PAGE;
      }
    }
  }

  /** Kernel start-up: the heap takes frames from the boot allocator, and the free list is built from the rest. */
  method InitMemory(layout: seq<Region>, demand: nat) returns (taken: seq<nat>, list: FreeListAllocator)
    requires Ends(layout)
    ensures Prefix(taken, BootFramesIn(layout))
    ensures |taken| == demand || |taken| == |BootFramesIn(layout)|
    ensures fresh(list) && list.Value() == PushAll(EMPTY, Drop(ListFramesIn(layout), |taken|))
  {
    var boot := new BootFrameAllocator(layout);
    taken := TakeFrames(boot, demand);
    list := new FreeListAllocator();
    list.Init(layout, boot.framesConsumed);
  }

  ghost predicate Prefix(taken: seq<nat>, all: seq<nat>) { |taken| <= |all| && taken == all[..|taken|] }

  lemma PrefixNext(taken: seq<nat>, all: seq<nat>)
    requires Prefix(taken, all) && |taken| < |all|
    ensures Prefix(taken + [all[|taken|]], all)
  {
    assert all[..|taken| + 1] == all[..|taken|] + [all[|taken|]];
  }

  method TakeFrames(boot: BootFrameAllocator, demand: nat) returns (taken: seq<nat>)
    requires boot.Valid() && boot.framesConsumed == 0
    modifies boot
    ensures boot.Valid() && boot.framesConsumed == |taken| <= demand
    ensures var all := BootFramesIn(boot.regions);
            Prefix(taken, all) && (|taken| == demand || |taken| == |all|)
  {
    taken := [];
    ghost var all := BootFramesIn(boot.regions);
    while |taken| < demand
      invariant boot.Valid() && boot.framesConsumed == |taken| <= demand
      invariant Prefix(taken, all)
    {
      var frame := boot.Allocate();
      if frame.None? {
        return;
      }
      PrefixNext(taken, all);
      taken := taken + [frame.value];
    }
  }
}
