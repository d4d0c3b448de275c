/** The swap partition: a bitmap of page slots over a RAM disk with 512-byte sectors. */
module SwapPartition {
  import opened Bits
  import opened Common
  import opened Disk
  import opened Paging

  const SECTOR: nat := 512
  const SECTORS_PER_PAGE: nat := 8

  lemma SectorOfPage(slot: nat, i: nat)
    ensures Start(slot * SECTORS_PER_PAGE + i, SECTOR) == Start(slot, PAGE) + SECTOR * i
  {
    StartProduct(slot * SECTORS_PER_PAGE + i, SECTOR);
    StartProduct(slot, PAGE);
  }

  ghost function SlotPage(data: seq<byte>, n: nat, i: nat): Page
    requires |data| == Start(n, PAGE) && i < n
  {
    StartOrder(i, n, PAGE);
    SectorOf(data, PAGE, i)
  }

  /** The pages stored in the slots. */
  ghost function Slots(data: seq<byte>, n: nat): seq<Page>
    requires |data| == Start(n, PAGE)
  {
    seq(n, i requires 0 <= i < n => SlotPage(data, n, i))
  }

  lemma SlotWritten(data: seq<byte>, n: nat, slot: nat, page: Page)
    requires |data| == Start(n, PAGE) && slot < n
    ensures Start(slot, PAGE) + PAGE <= |data|
    ensures Slots(Splice(data, Start(slot, PAGE), page), n) == Slots(data, n)[slot := page]
  {
    StartOrder(slot, n, PAGE);
    forall i: nat | i < n
      ensures Slots(Splice(data, Start(slot, PAGE), page), n)[i] == Slots(data, n)[slot := page][i]
    {
      StartOrder(i, n, PAGE);
      SectorAfterWrite(data, PAGE, slot, page, i);
    }
  }

  lemma SliceGrows(data: seq<byte>, at: nat, done: nat, n: nat)
    requires at + done + n <= |data|
    ensures data[at..at + done] + data[at + done..at + done + n] == data[at..at + done + n]
  {
  }

  class SwapPartition {
    const disk: RamDisk
    const sector: array<byte>
    var free: seq<bool>
    var cursor: nat

    ghost predicate Valid()
      reads this, disk
    {
      && disk.Valid() && disk.sectorSize == SECTOR && sector.Length == SECTOR
      && |disk.crcs| == |free| * SECTORS_PER_PAGE && |disk.data| == Start(|free|, PAGE)
      && (free == [] || cursor < |free|)
    }

    ghost function Contents(): (s: Swap)
      requires Valid()
      reads this, disk
      ensures SwapOk(s)
    {
      Swap(Slots(disk.data, |free|), free, cursor)
    }

    constructor (pages: nat)
      requires pages > 0
      ensures Valid() && fresh(disk) && fresh(sector)
      ensures |free| == pages && forall i :: 0 <= i < pages ==> free[i]
    {
      disk := new RamDisk(pages * SECTORS_PER_PAGE, SECTOR);
      sector := new byte[SECTOR](_ => 0);
      free := seq(pages, _ => true);
      cursor := 0;
      SectorOfPage(pages, 0);
    }

    method AllocSlot() returns (r: Option<nat>)
      requires Valid()
      modifies this`free, this`cursor
      ensures Valid()
      ensures r == NextFree(old(free), old(cursor), 0)
      ensures r.None? ==> free == old(free) && cursor == old(cursor)
      ensures r.Some? ==> && r.value < |old(free)| && free == old(free)[r.value := false]
                          && cursor == (r.value + 1) % |old(free)|
    {
      var n := |free|;
      var i := 0;
      while i < n
        invariant 0 <= i <= n == |free| && free == old(free) && cursor == old(cursor)
        invariant NextFree(free, cursor, i) == NextFree(free, cursor, 0)
      {
        var idx := (cursor + i) % n;
        assert idx == Cyclic(cursor, i, n);
        if free[idx] {
          free := free[idx := false];
          cursor := (idx + 1) % n;
          return Some(idx);
        }
        i := i + 1;
      }
      return None;
    }

    /** Stores a page sector by sector; a full partition leaves everything as it was. */
    method SwapOut(page: Page) returns (r: Option<nat>)
      requires Valid()
      modifies this`free, this`cursor, disk
      ensures Valid()
      ensures (Contents(), r) == Paging.SwapOut(old(Contents()), page)
    {
      r := AllocSlot();
      if r.None? { return; }
      WriteSlot(r.value, page);
    }

    method WriteSlot(slot: nat, page: Page)
      requires Valid() && slot < |free|
      modifies disk
      ensures Valid()
      ensures Contents() == old(Contents()).(slots := old(Contents()).slots[slot := page])
    {
      SlotWritten(disk.data, |free|, slot, page);
      StartOrder(slot, |free|, PAGE);
      WriteSectors(slot, page);
      assert page[..PAGE] == page;
    }

    method WriteSectors(slot: nat, page: Page)
      requires disk.Valid() && disk.sectorSize == SECTOR && slot * SECTORS_PER_PAGE + SECTORS_PER_PAGE <= |disk.crcs|
      requires Start(slot, PAGE) + PAGE <= |disk.data|
      modifies disk
      ensures disk.Valid() && |disk.crcs| == |old(disk.crcs)| && |disk.data| == |old(disk.data)|
      ensures Written(old(disk.data), Start(slot, PAGE), page, PAGE, disk.data)
    {
      var i := 0;
      while i < SECTORS_PER_PAGE
        invariant 0 <= i <= SECTORS_PER_PAGE
        invariant disk.Valid() && |disk.crcs| == |old(disk.crcs)| && |disk.data| == |old(disk.data)|
        invariant Written(old(disk.data), Start(slot, PAGE), page, SECTOR * i, disk.data)
      {
        SectorOfPage(slot, i);
        WriteOne(slot * SECTORS_PER_PAGE + i, page, SECTOR * i, old(disk.data), Start(slot, PAGE));
        i := i + 1;
      }
    }

    method WriteOne(lba: nat, page: Page, off: nat, ghost before: seq<byte>, ghost at: nat)
      requires disk.Valid() && disk.sectorSize == SECTOR && lba < |disk.crcs| && off + SECTOR <= PAGE
      requires |disk.data| == |before| && at + PAGE <= |before| && Start(lba, SECTOR) == at + off
      requires Written(before, at, page, off, disk.data)
      modifies disk
      ensures disk.Valid() && |disk.crcs| == |old(disk.crcs)| && |disk.data| == |before|
      ensures Written(before, at, page, off + SECTOR, disk.data)
    {
      ghost var now := disk.data;
      var _ := disk.WriteSector(lba, page[off..off + SECTOR]);
      WrittenStep(before, at, page, off, SECTOR, now, disk.data);
    }

    /** Reads a page back sector by sector and frees its slot; no read can fail its checksum. */
    method SwapIn(slot: nat) returns (page: Page)
      requires Valid() && slot < |free|
      modifies this`free, sector
      ensures Valid()
      ensures page == old(Contents()).slots[slot]
      ensures Contents() == Paging.FreeSlot(old(Contents()), slot)
    {
      page := ReadSlot(slot);
      FreeSlot(slot);
    }

    method ReadSlot(slot: nat) returns (page: Page)
      requires Valid() && slot < |free|
      modifies sector
      ensures page == Contents().slots[slot]
    {
      StartOrder(slot, |free|, PAGE);
      ghost var at := Start(slot, PAGE);
      var bytes: seq<byte> := [];
      var i := 0;
      while i < SECTORS_PER_PAGE
        invariant 0 <= i <= SECTORS_PER_PAGE && |bytes| == SECTOR * i
        invariant bytes == disk.data[at..at + SECTOR * i]
      {
        SectorOfPage(slot, i);
        var lba := slot * SECTORS_PER_PAGE + i;
        var r := disk.ReadSector(lba, sector);
        assert CrcMatches(disk.data, disk.crcs, SECTOR, lba);
        assert r == Ok;
        SliceGrows(disk.data, at, SECTOR * i, SECTOR);
        bytes := bytes + sector[..];
        i := i + 1;
      }
      page := bytes;
    }

    method FreeSlot(slot: nat)
      requires Valid()
      modifies this`free
      ensures Valid()
      ensures Contents() == Paging.FreeSlot(old(Contents()), slot)
    {
      if slot < |free| { free := free[slot := true]; }
    }
  }
}
