/** Whole runs of the byte cursor against a flat byte array that knows nothing of sectors or checksums. */
module DiskRuns {
  import opened Bits
  import opened Common
  import opened Disk

  datatype IoOp = SeekTo(to: SeekFrom) | ReadBytes(n: nat) | WriteBytes(bytes: seq<byte>)

  datatype Reply = Moved(pos: nat) | Got(bytes: seq<byte>, ok: bool) | Put(ok: bool)

  /** A flat byte array with a cursor. */
  datatype Flat = Flat(data: seq<byte>, pos: nat)

  function FlatSeek(f: Flat, to: SeekFrom): nat {
    match to
    case FromStart(n) => n
    case FromEnd(d) => (|f.data| + d) % U64
    case FromCurrent(d) => (f.pos + d) % U64
  }

  function FlatStep(f: Flat, op: IoOp): (Flat, Reply) {
    match op
    case SeekTo(to) => (f.(pos := FlatSeek(f, to)), Moved(FlatSeek(f, to)))
    case ReadBytes(n) =>
      var k := Reach(f.pos, n, |f.data|);
      (f.(pos := f.pos + k), Got(if k == 0 then [] else f.data[f.pos..f.pos + k], k == n))
    case WriteBytes(b) =>
      var k := Reach(f.pos, |b|, |f.data|);
      (Flat(if k == 0 then f.data else Splice(f.data, f.pos, b[..k]), f.pos + k), Put(k == |b|))
  }

  function FlatRun(f: Flat, ops: seq<IoOp>): (Flat, seq<Reply>) {
    if ops == [] then (f, [])
    else
      var (g, replies) := FlatRun(f, ops[..|ops| - 1]);
      var (h, reply) := FlatStep(g, ops[|ops| - 1]);
      (h, replies + [reply])
  }

  method Step(io: DiskIo, op: IoOp) returns (reply: Reply)
    requires io.Valid()
    modifies io, io.dev, io.sectorBuf
    ensures io.Valid()
    ensures (Flat(io.dev.data, io.pos), reply) == FlatStep(old(Flat(io.dev.data, io.pos)), op)
  {
    match op
    case SeekTo(to) =>
      var p := io.Seek(to);
      reply := Moved(p);
    case ReadBytes(n) =>
      reply := StepRead(io, n);
    case WriteBytes(b) =>
      var ok := io.Write(b);
      reply := Put(ok);
  }

  method StepRead(io: DiskIo, n: nat) returns (reply: Reply)
    requires io.Valid()
    modifies io, io.sectorBuf
    ensures io.Valid()
    ensures (Flat(io.dev.data, io.pos), reply) == FlatStep(old(Flat(io.dev.data, io.pos)), ReadBytes(n))
  {
    var buf := new byte[n](_ => 0);
    var at := io.pos;
    var ok := io.Read(buf);
    var k := io.pos - at;
    assert k > 0 ==> buf[..k] == io.dev.data[at..at + k];
    reply := Got(buf[..k], ok);
  }

  /** DISKIO REFINES A FLAT BYTE ARRAY: over any sequence of seeks, reads and writes, of any length and
      alignment, in bounds or not, every reply and the final contents are those of the flat array. */
  method Replay(io: DiskIo, ops: seq<IoOp>) returns (replies: seq<Reply>)
    requires io.Valid()
    modifies io, io.dev, io.sectorBuf
    ensures io.Valid()
    ensures (Flat(io.dev.data, io.pos), replies) == FlatRun(old(Flat(io.dev.data, io.pos)), ops)
  {
    replies := [];
    var i := 0;
    ghost var start := Flat(io.dev.data, io.pos);
    while i < |ops|
      invariant i <= |ops| && io.Valid()
      invariant (Flat(io.dev.data, io.pos), replies) == FlatRun(start, ops[..i])
    {
      assert ops[..i + 1][..i] == ops[..i];
      var reply := Step(io, ops[i]);
      replies := replies + [reply];
      i := i + 1;
    }
    assert ops[..i] == ops;
  }

  /** The request stays inside the device. */
  ghost predicate InBounds(f: Flat, op: IoOp) {
    match op
    case SeekTo(_) => true
    case ReadBytes(n) => n == 0 || f.pos + n <= |f.data|
    case WriteBytes(b) => b == [] || f.pos + |b| <= |f.data|
  }

  predicate Failed(r: Reply) { (r.Got? && !r.ok) || (r.Put? && !r.ok) }

  /** The device has one size for good, and a request fails exactly when it leaves the device: no run
      of requests can bring about a checksum error. */
  lemma {:induction false} FailsIffOutOfBounds(f: Flat, ops: seq<IoOp>, i: nat)
    requires i < |ops|
    ensures |FlatRun(f, ops).0.data| == |f.data| && |FlatRun(f, ops).1| == |ops|
    ensures Failed(FlatRun(f, ops).1[i]) <==> !InBounds(FlatRun(f, ops[..i]).0, ops[i])
    decreases |ops|
  {
    var before := ops[..|ops| - 1];
    if before == [] {
      assert FlatRun(f, before) == (f, []);
    } else {
      FailsIffOutOfBounds(f, before, if i < |before| then i else 0);
    }
    if i < |before| {
      assert before[..i] == ops[..i];
    } else {
      assert ops[..i] == before;
    }
  }

  /** What was written is read back, whatever ran in between elsewhere on the device. */
  lemma ReadBack(f: Flat, b: seq<byte>, ops: seq<IoOp>, at: nat)
    requires at + |b| <= |f.data| && b != [] && f.data[at..at + |b|] == b && Avoids(f, ops, at, |b|)
    ensures var g := FlatRun(f, ops).0;
            at + |b| <= |g.data| && FlatStep(g.(pos := at), ReadBytes(|b|)).1 == Got(b, true)
  {
    AvoidsKeeps(f, ops, at, |b|);
  }

  /** No write of the run touches the `n` bytes at `at`. */
  ghost predicate Avoids(f: Flat, ops: seq<IoOp>, at: nat, n: nat) {
    if ops == [] then true
    else
      var before, op := ops[..|ops| - 1], ops[|ops| - 1];
      var g := FlatRun(f, before).0;
      Avoids(f, before, at, n) && (op.WriteBytes? ==> g.pos + |op.bytes| <= at || at + n <= g.pos)
  }

  lemma {:induction false} AvoidsKeeps(f: Flat, ops: seq<IoOp>, at: nat, n: nat)
    requires at + n <= |f.data| && Avoids(f, ops, at, n)
    ensures var g := FlatRun(f, ops).0; |g.data| == |f.data| && g.data[at..at + n] == f.data[at..at + n]
  {
    if ops != [] {
      var before, op := ops[..|ops| - 1], ops[|ops| - 1];
      AvoidsKeeps(f, before, at, n);
      StepAvoids(FlatRun(f, before).0, op, at, n);
    }
  }

  lemma StepAvoids(g: Flat, op: IoOp, at: nat, n: nat)
    requires at + n <= |g.data| && (op.WriteBytes? ==> g.pos + |op.bytes| <= at || at + n <= g.pos)
    ensures var h := FlatStep(g, op).0; |h.data| == |g.data| && h.data[at..at + n] == g.data[at..at + n]
  {
    var h := FlatStep(g, op).0;
    forall i | at <= i < at + n
      ensures |h.data| == |g.data| && h.data[i] == g.data[i]
    {
    }
  }
}
