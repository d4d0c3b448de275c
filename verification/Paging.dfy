/** Virtual memory as a machine over values: physical frames, the frame free list, the swap slots
    and, for every process, its areas, its page table and its record of swapped pages. */
module Paging {
  import opened Bits
  import opened Common
  import opened LittleEndian

  type Page = p: seq<byte> | |p| == PAGE witness ZeroBytes(PAGE)

  function Zeros(): Page { ZeroBytes(PAGE) }

  datatype Flags = Flags(writable: bool, accessed: bool, dirty: bool)

  datatype Pte = Pte(frame: nat, flags: Flags)

  /** The byte range `[start, end)`, zero-filled on demand. */
  datatype Area = Area(start: nat, end: nat, writable: bool)

  /** Where a swapped page lies and the flags to restore. */
  datatype Record = Record(slot: nat, flags: Flags)

  datatype Space = Space(areas: seq<Area>, table: map<nat, Pte>, swapped: map<nat, Record>)

  datatype Swap = Swap(slots: seq<Page>, free: seq<bool>, cursor: nat)

  datatype Phys = Phys(mem: map<nat, Page>, free: seq<nat>, swap: Swap)

  datatype Machine = Machine(phys: Phys, spaces: map<nat, Space>, tables: set<nat>)

  function FrameAt(mem: map<nat, Page>, f: nat): Page { if f in mem then mem[f] else Zeros() }

  /** The area `find` returns for an address. */
  function FindArea(areas: seq<Area>, addr: nat): Option<Area> {
    if areas == [] then None
    else if areas[0].start <= addr < areas[0].end then Some(areas[0])
    else FindArea(areas[1..], addr)
  }

  // ---------------------------------------------------------------- swap slots

  function Cyclic(cursor: nat, i: nat, n: nat): (r: nat)
    requires n > 0
    ensures r < n
  {
    (cursor + i) % n
  }

  /** First free slot in cyclic order, at least `i` places after the cursor. */
  function NextFree(free: seq<bool>, cursor: nat, i: nat): Option<nat>
    decreases |free| - i
  {
    if i >= |free| then None
    else
      var idx := Cyclic(cursor, i, |free|);
      if free[idx] then Some(idx) else NextFree(free, cursor, i + 1)
  }

  function FreeSlot(s: Swap, slot: nat): Swap {
    if slot < |s.free| then s.(free := s.free[slot := true]) else s
  }

  /** A slot is taken and filled; the cursor moves past it. */
  function SwapOut(s: Swap, page: Page): (Swap, Option<nat>) {
    match NextFree(s.free, s.cursor, 0)
    case None => (s, None)
    case Some(slot) =>
      var slots := if slot < |s.slots| then s.slots[slot := page] else s.slots;
      var free := if slot < |s.free| then s.free[slot := false] else s.free;
      (Swap(slots, free, if |s.free| == 0 then 0 else (slot + 1) % |s.free|), Some(slot))
  }

  lemma NextSlot(i: nat, n: nat)
    requires i < n
    ensures (i + 1) % n == if i + 1 == n then 0 else i + 1
  {
    DivModUnique(i + 1, n, if i + 1 == n then 1 else 0, if i + 1 == n then 0 else i + 1);
  }

  /** What a swap-out does to the slots: one that was free is taken and holds the page, the others stay, and the
      search goes on behind it, from the first slot after the last. */
  lemma SwapOutEffect(s: Swap, page: Page)
    requires |s.slots| == |s.free|
    ensures var (s', slot) := SwapOut(s, page);
            && (slot.None? ==> s' == s)
            && (slot.Some? ==>
                  var i := slot.value;
                  && i < |s.free| && s.free[i] && s'.free == s.free[i := false] && s'.slots == s.slots[i := page]
                  && s'.cursor == if i + 1 == |s.free| then 0 else i + 1)
  {
    var slot := NextFree(s.free, s.cursor, 0);
    if slot.Some? {
      FoundIsFree(s.free, s.cursor, 0);
      NextSlot(slot.value, |s.free|);
    }
  }

  ghost predicate SwapOk(s: Swap) {
    |s.slots| == |s.free| && (s.free == [] || s.cursor < |s.free|)
  }

  lemma {:induction false} FoundIsFree(free: seq<bool>, cursor: nat, i: nat)
    requires NextFree(free, cursor, i).Some?
    ensures NextFree(free, cursor, i).value < |free| && free[NextFree(free, cursor, i).value]
    decreases |free| - i
  {
    if !free[Cyclic(cursor, i, |free|)] { FoundIsFree(free, cursor, i + 1); }
  }

  /** Slots are handed out round robin: the one found is the nearest free one from the cursor on. */
  lemma {:induction false} FoundIsNearest(free: seq<bool>, cursor: nat, i: nat) returns (k: nat)
    requires NextFree(free, cursor, i).Some?
    ensures i <= k < |free| && NextFree(free, cursor, i).value == Cyclic(cursor, k, |free|)
    ensures free[Cyclic(cursor, k, |free|)]
    ensures forall j :: i <= j < k ==> !free[Cyclic(cursor, j, |free|)]
    decreases |free| - i
  {
    if free[Cyclic(cursor, i, |free|)] {
      k := i;
    } else {
      k := FoundIsNearest(free, cursor, i + 1);
    }
  }

  lemma {:induction false} NoneIsFull(free: seq<bool>, cursor: nat, i: nat, k: nat)
    requires NextFree(free, cursor, i).None? && i <= k < |free|
    ensures !free[Cyclic(cursor, k, |free|)]
    decreases k - i
  {
    if i < k { NoneIsFull(free, cursor, i + 1, k); }
  }

  lemma CyclicReach(cursor: nat, slot: nat, n: nat) returns (k: nat)
    requires cursor < n && slot < n
    ensures k < n && Cyclic(cursor, k, n) == slot
  {
    k := if cursor <= slot then slot - cursor else slot + n - cursor;
    DivModUnique(cursor + k, n, if cursor <= slot then 0 else 1, slot);
  }

  /** Swap space runs out exactly when every slot is taken. */
  lemma SwapFullIff(s: Swap)
    requires SwapOk(s)
    ensures NextFree(s.free, s.cursor, 0).None? <==> forall i :: 0 <= i < |s.free| ==> !s.free[i]
  {
    if NextFree(s.free, s.cursor, 0).None? {
      forall i | 0 <= i < |s.free|
        ensures !s.free[i]
      {
        var k := CyclicReach(s.cursor, i, |s.free|);
        NoneIsFull(s.free, s.cursor, 0, k);
      }
    } else {
      FoundIsFree(s.free, s.cursor, 0);
    }
  }

  // ---------------------------------------------------------------- operations of one process

  /** The 4096 bytes from byte `off` of frame `f` on, running into the next frame. */
  function Window(mem: map<nat, Page>, f: nat, off: nat): Page
    requires off < PAGE
  {
    (FrameAt(mem, f) + FrameAt(mem, f + 1))[off..off + PAGE]
  }

  function AreaFlags(a: Area): Flags { Flags(a.writable, false, false) }

  /** Takes the first free frame, fills it and maps it. */
  function MapFresh(ph: Phys, sp: Space, page: nat, contents: Page, flags: Flags): (Phys, Space)
    requires ph.free != []
  {
    var f := ph.free[0];
    (ph.(free := ph.free[1..], mem := ph.mem[f := contents]),
     sp.(table := sp.table[page := Pte(f, flags)]))
  }

  /** The page-fault handler: swap-in, copy-on-write or zero-fill. */
  function HandleFault(ph: Phys, sp: Space, addr: nat, isWrite: bool): (Phys, Space, bool) {
    var page := addr / PAGE;
    if page in sp.swapped then
      var rec := sp.swapped[page];
      var sp1 := sp.(swapped := sp.swapped - {page});
      if ph.free == [] then (ph, sp1, false)
      else
        var contents := if rec.slot < |ph.swap.slots| then ph.swap.slots[rec.slot] else Zeros();
        var (ph2, sp2) := MapFresh(ph, sp1, page, contents, rec.flags);
        (ph2.(swap := FreeSlot(ph2.swap, rec.slot)), sp2, true)
    else
      match FindArea(sp.areas, addr)
      case None => (ph, sp, false)
      case Some(area) =>
        if page in sp.table && (!isWrite || !area.writable) then (ph, sp, false)
        else if ph.free == [] then (ph, sp, false)
        else
          var contents :=
            if page in sp.table then Window(ph.mem, sp.table[page].frame, addr % PAGE) else Zeros();
          var (ph2, sp2) := MapFresh(ph, sp, page, contents, AreaFlags(area));
          (ph2, sp2, true)
  }

  /** The eight link bytes a freed frame starts with. */
  function WithLink(page: Page, link: seq<byte>): Page
    requires |link| == 8
  {
    link + page[8..]
  }

  function LinkBytes(free: seq<nat>): (r: seq<byte>)
    ensures |r| == 8
  {
    ToBytes(if free == [] then 0 else free[0] * PAGE, 8)
  }

  function FreeFrame(ph: Phys, f: nat): Phys {
    ph.(free := [f] + ph.free, mem := ph.mem[f := WithLink(FrameAt(ph.mem, f), LinkBytes(ph.free))])
  }

  /** A freed frame heads the free list and starts with the address of the frame behind it, or zero; its other
      bytes, and every other frame, stay. */
  lemma FreedFrame(ph: Phys, f: nat)
    requires ph.free != [] ==> ph.free[0] * PAGE < U64
    ensures var ph' := FreeFrame(ph, f);
            && ph'.free == [f] + ph.free && ph'.swap == ph.swap
            && FromBytes(FrameAt(ph'.mem, f)[..8]) == (if ph.free == [] then 0 else ph.free[0] * PAGE)
            && FrameAt(ph'.mem, f)[8..] == FrameAt(ph.mem, f)[8..]
            && forall g: nat :: g != f ==> FrameAt(ph'.mem, g) == FrameAt(ph.mem, g)
  {
    WidthOfWord();
    DecodeEncode(if ph.free == [] then 0 else ph.free[0] * PAGE, 8);
    assert FrameAt(FreeFrame(ph, f).mem, f)[..8] == LinkBytes(ph.free);
  }

  /** Eviction of the page that holds `addr`. */
  function EvictAddr(ph: Phys, sp: Space, addr: nat): (Phys, Space, bool) {
    var page := addr / PAGE;
    if page !in sp.table then (ph, sp, false)
    else
      var pte := sp.table[page];
      var (swap, slot) := SwapOut(ph.swap, FrameAt(ph.mem, pte.frame));
      match slot
      case None => (ph, sp, false)
      case Some(s) =>
        (FreeFrame(ph.(swap := swap), pte.frame),
         sp.(table := sp.table - {page},
             swapped := sp.swapped[page := Record(s, Flags(pte.flags.writable, false, false))]),
         true)
  }

  predicate InAreas(areas: seq<Area>, page: nat) { FindArea(areas, page * PAGE).Some? }

  function ReadOnly(pte: Pte): Pte { Pte(pte.frame, Flags(false, false, false)) }

  /** Copy-on-write fork: area pages are shared read-only, swap records stay with the parent. */
  function ForkParent(sp: Space): Space {
    sp.(table := map p | p in sp.table :: if InAreas(sp.areas, p) then ReadOnly(sp.table[p]) else sp.table[p])
  }

  function ForkChild(sp: Space): Space {
    Space(sp.areas, map p | p in sp.table && InAreas(sp.areas, p) :: ReadOnly(sp.table[p]), map[])
  }
}
