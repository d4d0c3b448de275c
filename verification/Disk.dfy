/** The RAM disk with one checksum per sector, and the byte cursor the file system drives it with. */
module Disk {
  import opened Bits
  import opened Common
  import opened Crc

  datatype DiskResult = Ok | OutOfBounds | CrcMismatch

  /** `d` with the bytes from `at` on replaced by `s`. */
  function Splice(d: seq<byte>, at: nat, s: seq<byte>): (r: seq<byte>)
    requires at + |s| <= |d|
    ensures |r| == |d|
  {
    d[..at] + s + d[at + |s|..]
  }

  lemma SpliceSplice(d: seq<byte>, at: nat, s: seq<byte>, t: seq<byte>)
    requires at + |s| + |t| <= |d|
    ensures Splice(Splice(d, at, s), at + |s|, t) == Splice(d, at, s + t)
  {
  }

  /** Patching a slice and writing the slice back patches the whole. */
  lemma SpliceInner(d: seq<byte>, at: nat, n: nat, off: nat, s: seq<byte>)
    requires at + n <= |d| && off + |s| <= n
    ensures Splice(d, at, Splice(d[at..at + n], off, s)) == Splice(d, at + off, s)
  {
  }

  // ---------------------------------------------------------------- sectors of a byte region

  /** Byte offset of a sector: `lba` times the sector size. */
  function Start(lba: nat, size: nat): nat {
    if lba == 0 then 0 else Start(lba - 1, size) + size
  }

  lemma {:induction false} StartProduct(lba: nat, size: nat)
    ensures Start(lba, size) == lba * size
  {
    if lba > 0 {
      StartProduct(lba - 1, size);
      assert (lba - 1) * size == lba * size - size;
    }
  }

  lemma {:induction false} StartOrder(i: nat, j: nat, size: nat)
    requires i < j
    ensures Start(i, size) + size <= Start(j, size)
  {
    if i + 1 < j { StartOrder(i, j - 1, size); }
  }

  ghost predicate Shaped(data: seq<byte>, count: nat, size: nat) {
    size > 0 && |data| == Start(count, size)
  }

  function SectorOf(data: seq<byte>, size: nat, lba: nat): (s: seq<byte>)
    requires Start(lba, size) + size <= |data|
    ensures |s| == size
  {
    data[Start(lba, size)..Start(lba, size) + size]
  }

  /** Bounds test of the driver. */
  lemma InBounds(data: seq<byte>, count: nat, size: nat, lba: nat)
    requires Shaped(data, count, size)
    ensures lba < count <==> Start(lba, size) + size <= |data|
  {
    if lba < count {
      StartOrder(lba, count, size);
    } else if count < lba {
      StartOrder(count, lba, size);
    }
  }

  /** Checksum `lba` is that of sector `lba`. */
  ghost predicate CrcMatches(data: seq<byte>, crcs: seq<int>, size: nat, lba: nat)
    requires lba < |crcs|
  {
    Start(lba, size) + size <= |data| && crcs[lba] == Crc32(SectorOf(data, size, lba))
  }

  ghost predicate InStep(data: seq<byte>, crcs: seq<int>, size: nat) {
    Shaped(data, |crcs|, size) && forall lba: nat :: lba < |crcs| ==> CrcMatches(data, crcs, size, lba)
  }

  lemma SectorAfterWrite(data: seq<byte>, size: nat, lba: nat, buf: seq<byte>, i: nat)
    requires |buf| == size && Start(lba, size) + size <= |data| && Start(i, size) + size <= |data|
    ensures SectorOf(Splice(data, Start(lba, size), buf), size, i) == if i == lba then buf else SectorOf(data, size, i)
  {
    if i < lba {
      StartOrder(i, lba, size);
    } else if lba < i {
      StartOrder(lba, i, size);
    }
  }

  lemma WriteKeepsInStep(data: seq<byte>, crcs: seq<int>, size: nat, lba: nat, buf: seq<byte>)
    requires InStep(data, crcs, size) && lba < |crcs| && |buf| == size
    ensures Start(lba, size) + size <= |data|
    ensures InStep(Splice(data, Start(lba, size), buf), crcs[lba := Crc32(buf)], size)
  {
    InBounds(data, |crcs|, size, lba);
    var data', crcs' := Splice(data, Start(lba, size), buf), crcs[lba := Crc32(buf)];
    forall i: nat | i < |crcs'|
      ensures CrcMatches(data', crcs', size, i)
    {
      assert CrcMatches(data, crcs, size, i);
      SectorAfterWrite(data, size, lba, buf, i);
    }
  }

  ghost predicate AllZero(d: seq<byte>) { forall i :: 0 <= i < |d| ==> d[i] == 0 }

  lemma FreshInStep(data: seq<byte>, crcs: seq<int>, size: nat, zeros: seq<byte>)
    requires size > 0 && |zeros| == size && AllZero(zeros)
    requires Shaped(data, |crcs|, size) && AllZero(data)
    requires forall i :: 0 <= i < |crcs| ==> crcs[i] == Crc32(zeros)
    ensures InStep(data, crcs, size)
  {
    forall i: nat | i < |crcs|
      ensures CrcMatches(data, crcs, size, i)
    {
      StartOrder(i, |crcs|, size);
      assert SectorOf(data, size, i) == zeros;
    }
  }

  class RamDisk {
    const sectorSize: nat
    var data: seq<byte>
    var crcs: seq<int>

    ghost predicate Shape()
      reads this
    {
      Shaped(data, |crcs|, sectorSize)
    }

    /** Every stored checksum is that of the sector it stands for. */
    ghost predicate Valid()
      reads this
    {
      InStep(data, crcs, sectorSize)
    }

    constructor (sectorCount: nat, sectorSize: nat)
      requires sectorCount > 0 && sectorSize > 0
      ensures Valid() && this.sectorSize == sectorSize && |crcs| == sectorCount
      ensures AllZero(data)
    {
      this.sectorSize := sectorSize;
      StartProduct(sectorCount, sectorSize);
      data := ZeroBytes(sectorCount * sectorSize);
      var zeros := ZeroBytes(sectorSize);
      var zeroCrc := ComputeCrc(zeros);
      TableIsSerial(zeros);
      crcs := seq(sectorCount, _ => zeroCrc);
      new;
      FreshInStep(data, crcs, sectorSize, zeros);
    }

    /** What reading a sector reports. */
    ghost function ReadOutcome(lba: nat): DiskResult
      requires Shape()
      reads this
    {
      if lba >= |crcs| then OutOfBounds else if CrcMatches(data, crcs, sectorSize, lba) then Ok else CrcMismatch
    }

    method ReadSector(lba: nat, buf: array<byte>) returns (r: DiskResult)
      requires Shape() && buf.Length == sectorSize
      modifies buf
      ensures r == ReadOutcome(lba)
      ensures lba < |crcs| ==>
                Start(lba, sectorSize) + sectorSize <= |data| && buf[..] == SectorOf(data, sectorSize, lba)
      ensures r == OutOfBounds ==> buf[..] == old(buf[..])
    {
      var start := lba * sectorSize;
      StartProduct(lba, sectorSize);
      InBounds(data, |crcs|, sectorSize, lba);
      if start + sectorSize > |data| { return OutOfBounds; }
      forall i | 0 <= i < buf.Length { buf[i] := data[start + i]; }
      assert buf[..] == SectorOf(data, sectorSize, lba);
      var crc := ComputeCrc(buf[..]);
      TableIsSerial(buf[..]);
      r := if crc != crcs[lba] then CrcMismatch else Ok;
    }

    method WriteSector(lba: nat, buf: seq<byte>) returns (r: DiskResult)
      requires Valid() && |buf| == sectorSize
      modifies this
      ensures Valid() && |crcs| == old(|crcs|)
      ensures r == if lba < |crcs| then Ok else OutOfBounds
      ensures r == OutOfBounds ==> data == old(data) && crcs == old(crcs)
      ensures r == Ok ==>
              && Start(lba, sectorSize) + sectorSize <= |old(data)|
              && data == Splice(old(data), Start(lba, sectorSize), buf)
    {
      var start := lba * sectorSize;
      StartProduct(lba, sectorSize);
      InBounds(data, |crcs|, sectorSize, lba);
      if start + sectorSize > |data| { return OutOfBounds; }
      WriteKeepsInStep(data, crcs, sectorSize, lba, buf);
      var crc := ComputeCrc(buf);
      TableIsSerial(buf);
      crcs := crcs[lba := crc];
      data := Splice(data, start, buf);
      r := Ok;
    }

    /** Any change of a stored sector inside four consecutive bytes is reported by the next read. */
    lemma CorruptionReported(lba: nat, stored: seq<byte>, i: nat, n: nat)
      requires Shape() && lba < |crcs| && |stored| == sectorSize && crcs[lba] == Crc32(stored)
      requires Start(lba, sectorSize) + sectorSize <= |data|
      requires var now := SectorOf(data, sectorSize, lba);
               && i + n <= sectorSize && n <= 4 && now != stored
               && now[..i] == stored[..i] && now[i + n..] == stored[i + n..]
      ensures ReadOutcome(lba) == CrcMismatch
    {
      CrcDetectsBurst(SectorOf(data, sectorSize, lba), stored, i, n);
    }
  }

  // ---------------------------------------------------------------- byte cursor

  datatype SeekFrom = FromStart(n: nat) | FromEnd(d: int) | FromCurrent(d: int)

  /** How many of `n` bytes from `pos` lie below `total`. */
  function Reach(pos: nat, n: nat, total: nat): nat {
    if pos >= total then 0 else Min(n, total - pos)
  }

  /** The sector and offset of a position, and the bounds test on them. */
  lemma CursorSector(pos: nat, data: seq<byte>, count: nat, size: nat)
    requires Shaped(data, count, size)
    ensures Start(pos / size, size) + pos % size == pos
    ensures pos / size < count <==> pos < |data|
  {
    var lba := pos / size;
    assert pos == size * lba + pos % size;
    StartProduct(lba, size);
    InBounds(data, count, size, lba);
    if count < lba { StartOrder(count, lba, size); }
  }

  /** `now` is `before` with the first `n` bytes of `buf` written at `at`. */
  ghost predicate Written(before: seq<byte>, at: nat, buf: seq<byte>, n: nat, now: seq<byte>) {
    n <= |buf| && if n == 0 then now == before else at + n <= |before| && now == Splice(before, at, buf[..n])
  }

  lemma WrittenStep(before: seq<byte>, at: nat, buf: seq<byte>, done: nat, n: nat, now: seq<byte>, next: seq<byte>)
    requires Written(before, at, buf, done, now) && done + n <= |buf| && at + done + n <= |before|
    requires |now| == |before| && next == Splice(now, at + done, buf[done..done + n])
    ensures Written(before, at, buf, done + n, next)
  {
    assert buf[..done] + buf[done..done + n] == buf[..done + n];
    SpliceSplice(before, at, buf[..done], buf[done..done + n]);
  }

  class DiskIo {
    const dev: RamDisk
    const sectorBuf: array<byte>
    var pos: nat

    ghost predicate Valid()
      reads this, dev
    {
      dev.Valid() && sectorBuf.Length == dev.sectorSize
    }

    constructor (dev: RamDisk)
      requires dev.Valid()
      ensures Valid() && this.dev == dev && pos == 0 && fresh(sectorBuf)
    {
      this.dev := dev;
      sectorBuf := new byte[dev.sectorSize](_ => 0);
      pos := 0;
    }

    /** `lba` and `off` are the sector and the offset of the cursor. */
    ghost predicate At(lba: nat, off: nat)
      reads this, dev
    {
      && Start(lba, dev.sectorSize) + off == pos && off < dev.sectorSize
      && (lba < |dev.crcs| <==> pos < |dev.data|)
    }

    method Locate() returns (lba: nat, off: nat)
      requires Valid()
      ensures At(lba, off)
    {
      lba, off := pos / dev.sectorSize, pos % dev.sectorSize;
      CursorSector(pos, dev.data, |dev.crcs|, dev.sectorSize);
    }

    /** Fills the sector buffer with the sector under the cursor; in step, only the end can fail. */
    method Fetch(lba: nat, off: nat) returns (ok: bool)
      requires Valid() && At(lba, off)
      modifies sectorBuf
      ensures ok <==> pos < |dev.data|
      ensures ok ==> pos - off + sectorBuf.Length <= |dev.data|
                     && sectorBuf[..] == dev.data[pos - off..pos - off + sectorBuf.Length]
    {
      var r := dev.ReadSector(lba, sectorBuf);
      assert lba < |dev.crcs| ==> CrcMatches(dev.data, dev.crcs, dev.sectorSize, lba);
      ok := r == Ok;
    }

    /** Reads are slices of the flat contents; a read past the end fails after what was left. */
    method Read(buf: array<byte>) returns (ok: bool)
      requires Valid() && buf != sectorBuf
      modifies this, buf, sectorBuf
      ensures Valid()
      ensures var n := Reach(old(pos), buf.Length, |dev.data|);
              && (ok <==> n == buf.Length)
              && pos == old(pos) + n
              && (forall i :: 0 <= i < n ==> buf[i] == dev.data[old(pos) + i])
              && (forall i :: n <= i < buf.Length ==> buf[i] == old(buf[i]))
    {
      var size := dev.sectorSize;
      var done := 0;
      while done < buf.Length
        invariant 0 <= done <= Reach(old(pos), buf.Length, |dev.data|)
        invariant pos == old(pos) + done
        invariant forall i :: 0 <= i < done ==> buf[i] == dev.data[old(pos) + i]
        invariant forall i :: done <= i < buf.Length ==> buf[i] == old(buf[i])
      {
        var lba, off := Locate();
        var fetched := Fetch(lba, off);
        if !fetched { return false; }
        var n := Min(size - off, buf.Length - done);
        assert forall i :: off <= i < size ==> sectorBuf[i] == dev.data[pos - off..pos - off + size][i];
        forall i | done <= i < done + n { buf[i] := sectorBuf[off + i - done]; }
        done := done + n;
        pos := pos + n;
      }
      return true;
    }

    /** Writes splice the flat contents; a write past the end fails after filling what was left. */
    method Write(buf: seq<byte>) returns (ok: bool)
      requires Valid()
      modifies this, dev, sectorBuf
      ensures Valid() && |dev.data| == |old(dev.data)|
      ensures var n := Reach(old(pos), |buf|, |dev.data|);
              && (ok <==> n == |buf|)
              && pos == old(pos) + n
              && Written(old(dev.data), old(pos), buf, n, dev.data)
    {
      var done := 0;
      while done < |buf|
        invariant Valid() && |dev.data| == |old(dev.data)|
        invariant 0 <= done <= Reach(old(pos), |buf|, |dev.data|)
        invariant pos == old(pos) + done
        invariant Written(old(dev.data), old(pos), buf, done, dev.data)
      {
        var lba, off := Locate();
        var n := Min(dev.sectorSize - off, |buf| - done);
        ghost var before := dev.data;
        var stored := WriteChunk(lba, off, buf[done..done + n]);
        if !stored { return false; }
        WrittenStep(old(dev.data), old(pos), buf, done, n, before, dev.data);
        done := done + n;
        pos := pos + n;
      }
      return true;
    }

    /** One turn of the write loop, inside one sector: the whole-sector path and the
        read-modify-write path have the same effect on the flat contents. */
    method WriteChunk(lba: nat, off: nat, chunk: seq<byte>) returns (ok: bool)
      requires Valid() && At(lba, off) && off + |chunk| <= dev.sectorSize
      modifies dev, sectorBuf
      ensures Valid() && |dev.data| == |old(dev.data)|
      ensures ok <==> pos < |dev.data|
      ensures !ok ==> dev.data == old(dev.data)
      ensures ok ==> pos + |chunk| <= |old(dev.data)| && dev.data == Splice(old(dev.data), pos, chunk)
    {
      if off == 0 && |chunk| == dev.sectorSize {
        var r := dev.WriteSector(lba, chunk);
        ok := r == Ok;
      } else {
        ok := Fetch(lba, off);
        if ok { ReadModifyWrite(lba, off, chunk); }
      }
    }

    method ReadModifyWrite(lba: nat, off: nat, chunk: seq<byte>)
      requires Valid() && At(lba, off) && pos < |dev.data| && off + |chunk| <= dev.sectorSize
      requires pos - off + sectorBuf.Length <= |dev.data|
      requires sectorBuf[..] == dev.data[pos - off..pos - off + sectorBuf.Length]
      modifies dev
      ensures Valid() && |dev.data| == |old(dev.data)|
      ensures dev.data == Splice(old(dev.data), pos, chunk)
    {
      ghost var before, at := dev.data, pos - off;
      SpliceInner(before, at, sectorBuf.Length, off, chunk);
      var patched := Splice(sectorBuf[..], off, chunk);
      assert Splice(before, at, patched) == Splice(before, pos, chunk);
      var _ := dev.WriteSector(lba, patched);
      assert dev.data == Splice(before, at, patched);
    }

    method Seek(to: SeekFrom) returns (r: nat)
      requires Valid()
      modifies this`pos
      ensures pos == r
      ensures match to
              case FromStart(n) => r == n
              case FromEnd(d) => r == (|dev.data| + d) % U64
              case FromCurrent(d) => r == (old(pos) + d) % U64
    {
      StartProduct(|dev.crcs|, dev.sectorSize);
      match to {
        case FromStart(n) => pos := n;
        case FromEnd(d) => pos := (|dev.crcs| * dev.sectorSize + d) % U64;
        case FromCurrent(d) => pos := (pos + d) % U64;
      }
      r := pos;
    }
  }
}
