/** The blocking byte pipe: the parts of `send` and `recv` between wait points, and every
    interleaving of them. */
module Pipe {
  import opened Bits
  import opened Common

  const PIPE_BUF: nat := 4096

  // ---------------------------------------------------------------- one turn of a thread

  datatype SendResult = Sent | Refused | SendWaits

  datatype RecvResult = Got | Eof | RecvWaits

  /** How far a sender gets in one turn and how the turn ends. */
  function SendTurn(buf: seq<byte>, closed: bool, data: seq<byte>, written: nat): (nat, SendResult)
    requires written <= |data| && |buf| <= PIPE_BUF
  {
    if written == |data| then (written, Sent)
    else if closed then (written, Refused)
    else
      var n := Min(|data| - written, PIPE_BUF - |buf|);
      (written + n, if written + n == |data| then Sent else SendWaits)
  }

  class Pipe {
    var buf: seq<byte>
    var closed: bool

    ghost predicate Valid()
      reads this
    {
      |buf| <= PIPE_BUF
    }

    constructor ()
      ensures Valid() && buf == [] && !closed
    {
      buf := [];
      closed := false;
    }

    /** `send` from taking the lock to returning or waiting for room. */
    method SendUntilWait(data: seq<byte>, start: nat) returns (written: nat, r: SendResult)
      requires Valid() && start <= |data|
      modifies this`buf
      ensures Valid()
      ensures (written, r) == SendTurn(old(buf), closed, data, start)
      ensures start <= written <= |data| && buf == old(buf) + data[start..written]
      ensures r.Sent? <==> written == |data|
      ensures r.Refused? <==> closed && start < |data|
      ensures r.SendWaits? ==> |buf| == PIPE_BUF && written < |data| && !closed
      ensures closed ==> written == start
    {
      written := start;
      while written < |data|
        invariant Valid() && start <= written <= |data| && buf == old(buf) + data[start..written]
        invariant closed ==> written == start
        invariant written == start || written == start + Min(|data| - start, PIPE_BUF - |old(buf)|)
        decreases |data| - written
      {
        if closed { return written, Refused; }
        var space := PIPE_BUF - |buf|;
        if space == 0 { return written, SendWaits; }
        var n := Min(|data| - written, space);
        PushBack(data[written..written + n]);
        assert data[start..written] + data[written..written + n] == data[start..written + n];
        written := written + n;
      }
      r := Sent;
    }

    method PushBack(bytes: seq<byte>)
      requires |buf| + |bytes| <= PIPE_BUF
      modifies this`buf
      ensures buf == old(buf) + bytes
    {
      var i := 0;
      while i < |bytes|
        invariant 0 <= i <= |bytes| && buf == old(buf) + bytes[..i]
      {
        buf := buf + [bytes[i]];
        i := i + 1;
      }
    }

    /** `recv` from taking the lock to returning or waiting for data. */
    method RecvUntilWait(n: nat) returns (out: seq<byte>, r: RecvResult)
      requires Valid()
      modifies this`buf
      ensures Valid()
      ensures old(buf) == out + buf
      ensures r == if old(buf) != [] then Got else if closed then Eof else RecvWaits
      ensures r.Got? ==> |out| == Min(n, |old(buf)|)
      ensures !r.Got? ==> out == []
      // a count of zero tells the end of the stream, unless none was asked for
      ensures !r.RecvWaits? && n > 0 ==> (|out| == 0 <==> r.Eof?)
    {
      out := [];
      if buf == [] { return [], if closed then Eof else RecvWaits; }
      var toRead := Min(n, |buf|);
      while |out| < toRead
        invariant |out| <= toRead <= |old(buf)| && old(buf) == out + buf
      {
        out := out + [buf[0]];
        buf := buf[1..];
      }
      r := Got;
    }

    method Close()
      modifies this`closed
      ensures closed
    {
      closed := true;
    }
  }

  // ---------------------------------------------------------------- interleavings

  datatype Thread = Idle | Sending(data: seq<byte>, written: nat) | Receiving(n: nat)

  datatype Byte = Byte(sender: nat, value: byte)

  /** The pipe, its threads, and what has happened: bytes pushed and popped, and the bytes accepted
      from finished sends. */
  datatype System = System(buf: seq<byte>, closed: bool, threads: map<nat, Thread>,
                           pushed: seq<Byte>, popped: seq<byte>, accepted: map<nat, seq<byte>>)

  datatype Step = StartSend(t: nat, data: seq<byte>) | StartRecv(t: nat, n: nat) | Turn(t: nat) | DoClose

  function ThreadOf(s: System, t: nat): Thread { if t in s.threads then s.threads[t] else Idle }

  function Accepted(s: System, t: nat): seq<byte> { if t in s.accepted then s.accepted[t] else [] }

  function Mark(t: nat, bytes: seq<byte>): seq<Byte> {
    if bytes == [] then [] else [Byte(t, bytes[0])] + Mark(t, bytes[1..])
  }

  function Values(s: seq<Byte>): seq<byte> {
    if s == [] then [] else [s[0].value] + Values(s[1..])
  }

  /** The bytes of one sender, in order. */
  function From(s: seq<Byte>, t: nat): seq<byte> {
    if s == [] then [] else if s[0].sender == t then [s[0].value] + From(s[1..], t) else From(s[1..], t)
  }

  ghost predicate Enabled(s: System, step: Step) {
    match step
    case StartSend(t, _) => ThreadOf(s, t).Idle?
    case StartRecv(t, _) => ThreadOf(s, t).Idle?
    case _ => true
  }

  ghost predicate Sound(s: System) {
    && |s.buf| <= PIPE_BUF
    && forall t :: t in s.threads && s.threads[t].Sending? ==> s.threads[t].written <= |s.threads[t].data|
  }

  function AfterSend(s: System, t: nat, data: seq<byte>, piece: seq<byte>, w: nat, r: SendResult): System
    requires w <= |data|
  {
    System(s.buf + piece, s.closed, s.threads[t := if r.SendWaits? then Sending(data, w) else Idle],
           s.pushed + Mark(t, piece), s.popped,
           if r.SendWaits? then s.accepted else s.accepted[t := Accepted(s, t) + data[..w]])
  }

  function Apply(s: System, step: Step): System
    requires Sound(s)
  {
    match step
    case StartSend(t, data) => s.(threads := s.threads[t := Sending(data, 0)])
    case StartRecv(t, n) => s.(threads := s.threads[t := Receiving(n)])
    case DoClose => s.(closed := true)
    case Turn(t) =>
      match ThreadOf(s, t)
      case Idle => s
      case Sending(data, written) =>
        var (w, r) := SendTurn(s.buf, s.closed, data, written);
        AfterSend(s, t, data, data[written..w], w, r)
      case Receiving(n) =>
        if s.buf == [] then (if s.closed then s.(threads := s.threads[t := Idle]) else s)
        else
          var k := Min(n, |s.buf|);
          s.(buf := s.buf[k..], popped := s.popped + s.buf[..k], threads := s.threads[t := Idle])
  }

  function InFlight(s: System, t: nat): seq<byte>
    requires Sound(s)
  {
    match ThreadOf(s, t)
    case Sending(data, w) => data[..w]
    case _ => []
  }

  /** What was received, followed by the buffer, is what was pushed, in order; each sender's bytes
      are its accepted data in order. */
  ghost predicate Inv(s: System) {
    && Sound(s)
    && s.popped + s.buf == Values(s.pushed)
    && forall t: nat :: SenderOk(s, t)
  }

  ghost predicate SenderOk(s: System, t: nat)
    requires Sound(s)
  {
    From(s.pushed, t) == Accepted(s, t) + InFlight(s, t)
  }

  lemma {:induction false} ValuesAppend(a: seq<Byte>, b: seq<Byte>)
    ensures Values(a + b) == Values(a) + Values(b)
  {
    if a == [] {
      assert a + b == b;
    } else {
      assert (a + b)[1..] == a[1..] + b;
      ValuesAppend(a[1..], b);
    }
  }

  lemma {:induction false} ValuesMark(t: nat, bytes: seq<byte>)
    ensures Values(Mark(t, bytes)) == bytes
  {
    if bytes != [] {
      ValuesMark(t, bytes[1..]);
      assert Mark(t, bytes)[1..] == Mark(t, bytes[1..]);
    }
  }

  lemma FromCons(x: Byte, s: seq<Byte>, t: nat)
    ensures From([x] + s, t) == if x.sender == t then [x.value] + From(s, t) else From(s, t)
  {
    assert ([x] + s)[1..] == s;
  }

  lemma {:induction false} FromAppend(a: seq<Byte>, b: seq<Byte>, t: nat)
    ensures From(a + b, t) == From(a, t) + From(b, t)
  {
    if a == [] {
      assert a + b == b;
    } else {
      FromAppend(a[1..], b, t);
      FromCons(a[0], a[1..] + b, t);
      FromCons(a[0], a[1..], t);
      assert a + b == [a[0]] + (a[1..] + b) && a == [a[0]] + a[1..];
    }
  }

  lemma {:induction false} FromMark(t: nat, bytes: seq<byte>, u: nat)
    ensures From(Mark(t, bytes), u) == if u == t then bytes else []
  {
    if bytes != [] {
      assert Mark(t, bytes)[1..] == Mark(t, bytes[1..]);
      FromMark(t, bytes[1..], u);
    }
  }

  /** Pushing a piece extends the stream. */
  lemma PushPiece(pushed: seq<Byte>, t: nat, piece: seq<byte>)
    ensures Values(pushed + Mark(t, piece)) == Values(pushed) + piece
  {
    ValuesAppend(pushed, Mark(t, piece));
    ValuesMark(t, piece);
  }

  /** One sender's part of the stream after a piece is pushed. */
  lemma {:induction false} SenderPart(pushed: seq<Byte>, t: nat, piece: seq<byte>, u: nat,
                                      acc: seq<byte>, part: seq<byte>)
    requires From(pushed, u) == acc + part
    ensures From(pushed + Mark(t, piece), u) == acc + if u == t then part + piece else part
  {
    FromAppend(pushed, Mark(t, piece), u);
    FromMark(t, piece, u);
    assert (acc + part) + piece == acc + (part + piece);
  }

  lemma SendSound(s: System, t: nat, data: seq<byte>, written: nat)
    requires Sound(s) && written <= |data|
    ensures var (w, r) := SendTurn(s.buf, s.closed, data, written);
            && written <= w <= |data| && (s.closed ==> w == written)
            && Sound(AfterSend(s, t, data, data[written..w], w, r))
  {
  }

  lemma StreamAfter(popped: seq<byte>, buf: seq<byte>, pushed: seq<Byte>, t: nat, piece: seq<byte>)
    requires popped + buf == Values(pushed)
    ensures popped + (buf + piece) == Values(pushed + Mark(t, piece))
  {
    PushPiece(pushed, t, piece);
    assert popped + (buf + piece) == (popped + buf) + piece;
  }

  lemma SenderAfter(s: System, t: nat, data: seq<byte>, written: nat, w: nat, r: SendResult, u: nat)
    requires Sound(s) && SenderOk(s, u) && ThreadOf(s, t) == Sending(data, written) && written <= w <= |data|
    requires Sound(AfterSend(s, t, data, data[written..w], w, r))
    ensures SenderOk(AfterSend(s, t, data, data[written..w], w, r), u)
  {
    var piece := data[written..w];
    SenderPart(s.pushed, t, piece, u, Accepted(s, u), InFlight(s, u));
    if u == t { assert data[..written] + piece == data[..w]; }
  }

  lemma SendKeeps(s: System, t: nat, data: seq<byte>, written: nat, w: nat, r: SendResult)
    requires Inv(s) && ThreadOf(s, t) == Sending(data, written) && written <= w <= |data|
    requires Sound(AfterSend(s, t, data, data[written..w], w, r))
    ensures Inv(AfterSend(s, t, data, data[written..w], w, r))
  {
    StreamAfter(s.popped, s.buf, s.pushed, t, data[written..w]);
    forall u: nat
      ensures SenderOk(AfterSend(s, t, data, data[written..w], w, r), u)
    {
      assert SenderOk(s, u);
      SenderAfter(s, t, data, written, w, r, u);
    }
  }

  /** Steps that push nothing. */
  lemma QuietKeeps(s: System, s': System)
    requires Inv(s) && Sound(s') && s'.pushed == s.pushed && s'.popped + s'.buf == s.popped + s.buf
    requires forall u: nat :: Accepted(s', u) == Accepted(s, u) && InFlight(s', u) == InFlight(s, u)
    ensures Inv(s')
  {
    forall u: nat
      ensures SenderOk(s', u)
    {
      assert SenderOk(s, u);
    }
  }

  lemma StepKeeps(s: System, step: Step)
    requires Inv(s) && Enabled(s, step)
    ensures Inv(Apply(s, step))
    ensures s.closed ==> Apply(s, step).closed && Apply(s, step).pushed == s.pushed
  {
    if step.Turn? && ThreadOf(s, step.t).Sending? {
      var Sending(data, written) := ThreadOf(s, step.t);
      var (w, r) := SendTurn(s.buf, s.closed, data, written);
      SendSound(s, step.t, data, written);
      SendKeeps(s, step.t, data, written, w, r);
    } else if step.Turn? && ThreadOf(s, step.t).Receiving? {
      RecvKeeps(s, step.t);
    } else {
      QuietKeeps(s, Apply(s, step));
    }
  }

  lemma PopSplit(popped: seq<byte>, buf: seq<byte>, k: nat)
    requires k <= |buf|
    ensures (popped + buf[..k]) + buf[k..] == popped + buf
  {
  }

  lemma RecvKeeps(s: System, t: nat)
    requires Inv(s) && ThreadOf(s, t).Receiving?
    ensures Inv(Apply(s, Turn(t))) && Apply(s, Turn(t)).pushed == s.pushed && Apply(s, Turn(t)).closed == s.closed
  {
    var s' := Apply(s, Turn(t));
    if s.buf != [] { PopSplit(s.popped, s.buf, Min(s.threads[t].n, |s.buf|)); }
    QuietKeeps(s, s');
  }

  ghost predicate RunOk(s: System, steps: seq<Step>)
    decreases |steps|
  {
    steps == [] || (Sound(s) && Enabled(s, steps[0]) && RunOk(Apply(s, steps[0]), steps[1..]))
  }

  ghost function Final(s: System, steps: seq<Step>): System
    requires RunOk(s, steps)
    decreases |steps|
  {
    if steps == [] then s else Final(Apply(s, steps[0]), steps[1..])
  }

  /** STREAM CORRECTNESS: over every interleaving the pipe is one ordered, bounded stream; once it
      is closed nothing more is pushed. */
  lemma {:induction false} PipeIsAStream(s: System, steps: seq<Step>)
    requires Inv(s) && RunOk(s, steps)
    ensures Inv(Final(s, steps))
    ensures s.closed ==> Final(s, steps).closed && Final(s, steps).pushed == s.pushed
    decreases |steps|
  {
    if steps != [] {
      StepKeeps(s, steps[0]);
      PipeIsAStream(Apply(s, steps[0]), steps[1..]);
    }
  }

  /** A receiver that is told end-of-file has been preceded by every byte ever pushed, and no later
      run adds one. */
  lemma EofMeansDrained(s: System, t: nat, steps: seq<Step>)
    requires Inv(s) && s.closed && ThreadOf(s, t).Receiving? && s.buf == []
    requires RunOk(Apply(s, Turn(t)), steps)
    ensures var end := Final(Apply(s, Turn(t)), steps);
            s.popped == Values(s.pushed) && end.pushed == s.pushed && end.popped == s.popped && end.buf == []
  {
    StepKeeps(s, Turn(t));
    PipeIsAStream(Apply(s, Turn(t)), steps);
    DrainedStays(Apply(s, Turn(t)), steps);
  }

  lemma {:induction false} DrainedStays(s: System, steps: seq<Step>)
    requires Inv(s) && s.closed && s.buf == [] && RunOk(s, steps)
    ensures Final(s, steps).buf == [] && Final(s, steps).popped == s.popped
    decreases |steps|
  {
    if steps != [] {
      StepKeeps(s, steps[0]);
      DrainedStays(Apply(s, steps[0]), steps[1..]);
    }
  }

  /** After a close no thread waits: a turn always ends the call. */
  lemma ClosedNeverWaits(s: System, t: nat)
    requires Inv(s) && s.closed
    ensures ThreadOf(Apply(s, Turn(t)), t).Idle?
  {
  }

  /** A call starts with nothing written; a close marks the pipe closed; neither moves a byte. */
  lemma CallsStart(s: System, t: nat, data: seq<byte>, n: nat)
    requires Sound(s)
    ensures Apply(s, StartSend(t, data)) == s.(threads := Apply(s, StartSend(t, data)).threads)
    ensures Apply(s, StartRecv(t, n)) == s.(threads := Apply(s, StartRecv(t, n)).threads)
    ensures forall u: nat ::
              ThreadOf(Apply(s, StartSend(t, data)), u) == if u == t then Sending(data, 0) else ThreadOf(s, u)
    ensures forall u: nat ::
              ThreadOf(Apply(s, StartRecv(t, n)), u) == if u == t then Receiving(n) else ThreadOf(s, u)
    ensures Apply(s, DoClose) == s.(closed := true)
  {
  }

  /** What a sender's turn does: it pushes as many of its next bytes as there is room for, none once the pipe is
      closed, and goes on waiting exactly when bytes are left and the pipe is open. */
  lemma SenderTurn(s: System, t: nat)
    requires Sound(s) && ThreadOf(s, t).Sending?
    ensures var Sending(data, w) := ThreadOf(s, t);
            var n := if s.closed then 0 else Min(|data| - w, 4096 - |s.buf|);
            var s' := Apply(s, Turn(t));
            && w + n <= |data| && s'.buf == s.buf + data[w..w + n] && s'.popped == s.popped && s'.closed == s.closed
            && ThreadOf(s', t) == (if w + n < |data| && !s.closed then Sending(data, w + n) else Idle)
            && forall u :: u != t ==> ThreadOf(s', u) == ThreadOf(s, u)
  {
  }

  /** What a receiver's turn does: it takes as many bytes as it asked for and are there, and goes on waiting exactly
      when the pipe is empty and open. */
  lemma ReceiverTurn(s: System, t: nat)
    requires Sound(s) && ThreadOf(s, t).Receiving?
    ensures var n := Min(ThreadOf(s, t).n, |s.buf|);
            var s' := Apply(s, Turn(t));
            && s'.buf == s.buf[n..] && s'.popped == s.popped + s.buf[..n] && s'.closed == s.closed
            && ThreadOf(s', t) == (if s.buf == [] && !s.closed then ThreadOf(s, t) else Idle)
            && forall u :: u != t ==> ThreadOf(s', u) == ThreadOf(s, u)
  {
    var s' := Apply(s, Turn(t));
    if s.buf == [] {
      assert s.buf[0..] == [] && s.popped + s.buf[..0] == s.popped;
      assert s' == if s.closed then s.(threads := s.threads[t := Idle]) else s;
    } else {
      var n := Min(ThreadOf(s, t).n, |s.buf|);
      assert s' == s.(buf := s.buf[n..], popped := s.popped + s.buf[..n], threads := s.threads[t := Idle]);
    }
  }

  /** The turn of receiver `t` ends its call with a count of `k`. */
  ghost predicate Returns(s: System, t: nat, k: nat)
    requires Sound(s)
  {
    && ThreadOf(s, t).Receiving? && ThreadOf(Apply(s, Turn(t)), t).Idle?
    && |Apply(s, Turn(t)).popped| == |s.popped| + k
  }

  ghost predicate Drained(s: System) { s.closed && s.popped == Values(s.pushed) }

  /** An open pipe with one byte in it and a receiver that asks for none. */
  function EmptyRead(): System {
    System([1], false, map[0 := Receiving(0)], [Byte(1, 1)], [], map[1 := [1]])
  }

  lemma EmptyReadReturnsZero()
    ensures Inv(EmptyRead()) && Returns(EmptyRead(), 0, 0) && !Drained(EmptyRead())
  {
    var s := EmptyRead();
    assert s.pushed[1..] == [];
    forall t: nat
      ensures SenderOk(s, t)
    {
      assert From(s.pushed, t) == if t == 1 then [1] else [];
    }
  }

  /** A count of zero from a receiver that asked for `n` bytes means a closed and drained pipe, in every state,
      exactly when `n` is not zero. */
  lemma ZeroMeansDrainedIff(n: nat)
    ensures (forall s: System, t: nat :: Inv(s) && ThreadOf(s, t) == Receiving(n) && Returns(s, t, 0) ==> Drained(s))
            <==> n > 0
  {
    if n == 0 {
      EmptyReadReturnsZero();
      assert ThreadOf(EmptyRead(), 0) == Receiving(0);
    } else {
      forall s: System, t: nat | Inv(s) && ThreadOf(s, t) == Receiving(n) && Returns(s, t, 0)
        ensures Drained(s)
      {
        assert s.buf != [] ==> |Apply(s, Turn(t)).popped| == |s.popped| + Min(n, |s.buf|);
        assert s.popped + s.buf == s.popped;
      }
    }
  }
}
