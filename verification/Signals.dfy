/** Signal delivery on the user stack and its undoing by `sigreturn`. */
module Signals {
  import opened Bits
  import opened Common
  import opened LittleEndian

  // ---------------------------------------------------------------- the pending mask

  const MAX_SIGNALS: nat := 32

  function TrailingZeros(p: nat): nat
    requires p > 0
  {
    if p % 2 == 1 then 0 else 1 + TrailingZeros(p / 2)
  }

  lemma {:induction false} LowestBit(p: nat)
    requires p > 0
    ensures Bit(p, TrailingZeros(p)) && forall j: nat :: j < TrailingZeros(p) ==> !Bit(p, j)
  {
    if p % 2 == 0 {
      LowestBit(p / 2);
      forall j: nat | j < TrailingZeros(p)
        ensures !Bit(p, j)
      {
        if j > 0 { assert !Bit(p / 2, j - 1); }
      }
    }
  }

  lemma {:induction false} AndNotShrinks(a: nat, k: nat)
    ensures AndNot(a, Pow2(k)) <= a && (Bit(a, k) ==> AndNot(a, Pow2(k)) < a)
    decreases k
  {
    if a == 0 {
      BitOfZero(k);
    } else {
      if k == 0 {
        AndNotZero(a / 2);
      } else {
        AndNotShrinks(a / 2, k - 1);
        assert Pow2(k) / 2 == Pow2(k - 1);
      }
    }
  }

  lemma {:induction false} AndNotZero(a: nat)
    ensures AndNot(a, 0) == a
  {
    if a > 0 { AndNotZero(a / 2); }
  }

  /** The order in which pending signals are taken when none is raised in between. */
  function TakeOrder(p: nat): seq<nat>
    decreases p
  {
    if p == 0 then []
    else
      LowestBit(p);
      AndNotShrinks(p, TrailingZeros(p));
      [TrailingZeros(p)] + TakeOrder(AndNot(p, Pow2(TrailingZeros(p))))
  }

  /** Every pending signal is taken exactly once, lowest number first. */
  lemma {:induction false} TakenOnceAscending(p: nat)
    ensures forall i, j :: 0 <= i < j < |TakeOrder(p)| ==> TakeOrder(p)[i] < TakeOrder(p)[j]
    ensures forall s: nat :: s in TakeOrder(p) <==> Bit(p, s)
    decreases p
  {
    if p == 0 {
      forall s: nat
        ensures !Bit(p, s)
      {
        BitOfZero(s);
      }
    } else {
      var t := TrailingZeros(p);
      var p' := AndNot(p, Pow2(t));
      LowestBit(p);
      AndNotShrinks(p, t);
      TakenOnceAscending(p');
      forall s: nat
        ensures Bit(p', s) <==> Bit(p, s) && s != t
      {
        BitOfAndNot(p, Pow2(t), s);
        BitOfPow(t, s);
      }
      var rest := TakeOrder(p');
      forall i | 0 <= i < |rest|
        ensures t < rest[i]
      {
        assert rest[i] in rest;
      }
    }
  }

  // ---------------------------------------------------------------- trap frames in user memory

  type Word = w: nat | w < U64

  /** The registers in the order they lie in memory. */
  datatype TrapFrame = TrapFrame(
    r15: Word, r14: Word, r13: Word, r12: Word, rbp: Word, rbx: Word, r11: Word, r10: Word,
    r9: Word, r8: Word, rdi: Word, rsi: Word, rdx: Word, rcx: Word, rax: Word, userRsp: Word)

  function Words(f: TrapFrame): seq<nat> {
    [f.r15, f.r14, f.r13, f.r12, f.rbp, f.rbx, f.r11, f.r10, f.r9, f.r8, f.rdi, f.rsi, f.rdx, f.rcx, f.rax, f.userRsp]
  }

  function WordAt(ws: seq<nat>, i: nat): Word { if i < |ws| && ws[i] < U64 then ws[i] else 0 }

  function FromWords(ws: seq<nat>): TrapFrame {
    TrapFrame(WordAt(ws, 0), WordAt(ws, 1), WordAt(ws, 2), WordAt(ws, 3), WordAt(ws, 4), WordAt(ws, 5), WordAt(ws, 6),
              WordAt(ws, 7), WordAt(ws, 8), WordAt(ws, 9), WordAt(ws, 10), WordAt(ws, 11), WordAt(ws, 12),
              WordAt(ws, 13), WordAt(ws, 14), WordAt(ws, 15))
  }

  const FRAME_SIZE: nat := 128
  const TRAMPOLINE_PAD: nat := 16

  function EncodeFrame(f: TrapFrame): (s: seq<byte>)
    ensures |s| == FRAME_SIZE
  {
    ManyToBytes(Words(f), 8)
  }

  function DecodeFrame(s: seq<byte>): TrapFrame
    requires |s| == FRAME_SIZE
  {
    FromWords(ManyFromBytes(s, 8, 16))
  }

  lemma FrameRoundTrip(f: TrapFrame)
    ensures DecodeFrame(EncodeFrame(f)) == f
  {
    WidthOfWord();
    var ws := Words(f);
    ManyDecodeEncode(ws, 8);
    assert ManyFromBytes(EncodeFrame(f), 8, |ws|) == ws;
    WordsRoundTrip(f);
  }

  /** Where the registers lie that the kernel entry and delivery use: `rdi` at byte 80, `rcx` at 104, `rax` at 112
      and the stack pointer at 120. */
  lemma FrameLayout(f: TrapFrame)
    ensures var s := EncodeFrame(f);
            && FromBytes(s[0..8]) == f.r15 && FromBytes(s[80..88]) == f.rdi && FromBytes(s[104..112]) == f.rcx
            && FromBytes(s[112..120]) == f.rax && FromBytes(s[120..128]) == f.userRsp
  {
    var ws := [f.r15, f.r14, f.r13, f.r12, f.rbp, f.rbx, f.r11, f.r10,
               f.r9, f.r8, f.rdi, f.rsi, f.rdx, f.rcx, f.rax, f.userRsp];
    WidthOfWord();
    WordLies(ws, 0);
    WordLies(ws, 10);
    WordLies(ws, 13);
    WordLies(ws, 14);
    WordLies(ws, 15);
  }

  /** Word `i` of a record lies at byte `8 * i`. */
  lemma {:induction false} WordLies(ws: seq<nat>, i: nat)
    requires i < |ws| && ws[i] < Width(8)
    ensures FromBytes(ManyToBytes(ws, 8)[8 * i..8 * i + 8]) == ws[i]
  {
    var s := ManyToBytes(ws, 8);
    if i == 0 {
      DecodeEncode(ws[0], 8);
      assert s[0..8] == ToBytes(ws[0], 8);
    } else {
      WordLies(ws[1..], i - 1);
      assert s[8 * i..8 * i + 8] == ManyToBytes(ws[1..], 8)[8 * (i - 1)..8 * (i - 1) + 8];
    }
  }

  lemma FrameBytesRoundTrip(s: seq<byte>)
    requires |s| == FRAME_SIZE
    ensures EncodeFrame(DecodeFrame(s)) == s
  {
    WidthOfWord();
    ManyEncodeDecode(s, 8, 16);
    WordsOfFrame(ManyFromBytes(s, 8, 16));
  }

  lemma WordsOfFrame(ws: seq<nat>)
    requires |ws| == 16 && forall i :: 0 <= i < 16 ==> ws[i] < U64
    ensures Words(FromWords(ws)) == ws
  {
  }

  lemma WordsRoundTrip(f: TrapFrame)
    ensures FromWords(Words(f)) == f
  {
  }

  type Memory = map<nat, byte>

  function ByteAt(mem: Memory, a: nat): byte { if a in mem then mem[a] else 0 }

  function Read(mem: Memory, at: nat, n: nat): (s: seq<byte>)
    ensures |s| == n && forall i :: 0 <= i < n ==> s[i] == ByteAt(mem, at + i)
    decreases n, at
  {
    if n == 0 then [] else [ByteAt(mem, at)] + Read(mem, at + 1, n - 1)
  }

  function Write(mem: Memory, at: nat, s: seq<byte>): Memory
    decreases |s|
  {
    if s == [] then mem else Write(mem[at := s[0]], at + 1, s[1..])
  }

  lemma {:induction false} WrittenAt(mem: Memory, at: nat, s: seq<byte>, a: nat)
    ensures ByteAt(Write(mem, at, s), a) == if at <= a < at + |s| then s[a - at] else ByteAt(mem, a)
    decreases |s|
  {
    if s != [] { WrittenAt(mem[at := s[0]], at + 1, s[1..], a); }
  }

  // ---------------------------------------------------------------- delivery and return

  const TRAMPOLINE: seq<byte> := [0xB8, 54, 0, 0, 0, 0x0F, 0x05, 0xEB, 0xFE, 0x90]

  /** Total size of what delivery writes: return address, trampoline and saved frame. */
  const SIGNAL_FRAME: nat := 8 + TRAMPOLINE_PAD + FRAME_SIZE

  datatype SignalState = SignalState(pending: nat, handlers: seq<Word>)

  datatype Process = Process(frame: TrapFrame, mem: Memory, signals: SignalState)

  /** The stack pointer handed to the handler, 16-byte aligned below the signal frame. */
  function NewRsp(rsp: nat): nat
    requires rsp >= SIGNAL_FRAME
  {
    var x := rsp - SIGNAL_FRAME;
    x - x % 16
  }

  function SignalFrame(f: TrapFrame, base: nat): (s: seq<byte>)
    ensures |s| == SIGNAL_FRAME
  {
    ToBytes(base + 8, 8) + (TRAMPOLINE + seq(TRAMPOLINE_PAD - |TRAMPOLINE|, _ => 0x90)) + EncodeFrame(f)
  }

  function Signum(p: Process): nat
    requires p.signals.pending > 0
  {
    TrailingZeros(p.signals.pending)
  }

  function Handler(p: Process): Word
    requires p.signals.pending > 0
  {
    if Signum(p) < |p.signals.handlers| then p.signals.handlers[Signum(p)] else 0
  }

  /** A pending signal with a handler, and room on the stack. */
  ghost predicate CanDeliver(p: Process) {
    && p.signals.pending > 0 && Handler(p) != 0 && Signum(p) < MAX_SIGNALS
    && p.frame.userRsp >= SIGNAL_FRAME
  }

  /** `n` is the lowest set bit. */
  ghost predicate Lowest(pending: nat, n: nat) { Bit(pending, n) && forall j: nat :: j < n ==> !Bit(pending, j) }

  /** A signal can be delivered exactly when the lowest pending one has a handler and the stack has 152 bytes left. */
  lemma CanDeliverIff(p: Process)
    requires |p.signals.handlers| == MAX_SIGNALS
    ensures CanDeliver(p) <==> && p.frame.userRsp >= 152
                               && exists n: nat :: n < 32 && Lowest(p.signals.pending, n) && p.signals.handlers[n] != 0
  {
    if p.signals.pending > 0 { LowestBit(p.signals.pending); }
    if n: nat :| n < 32 && Lowest(p.signals.pending, n) && p.signals.handlers[n] != 0 {
      BitOfZero(n);
      SameLowest(p.signals.pending, n);
    }
  }

  function Deliver(p: Process): Process
    requires CanDeliver(p)
  {
    var base := NewRsp(p.frame.userRsp);
    var signum := Signum(p);
    Process(p.frame.(rcx := Handler(p), userRsp := base, rdi := signum),
            Write(p.mem, base, SignalFrame(p.frame, base)),
            p.signals.(pending := AndNot(p.signals.pending, Pow2(signum))))
  }

  /** The frame saved in the signal frame at `base`. */
  function SavedAt(mem: Memory, base: nat): TrapFrame { DecodeFrame(Read(mem, base + 24, FRAME_SIZE)) }

  /** The trampoline enters the kernel with the return address popped. */
  function SigReturn(p: Process): Process {
    p.(frame := DecodeFrame(Read(p.mem, p.frame.userRsp + 16, FRAME_SIZE)))
  }

  // ---------------------------------------------------------------- nesting

  /** A handler that has not returned: where its signal frame lies and the frame it interrupted. */
  datatype Active = Active(base: nat, saved: TrapFrame)

  /** The part of a signal frame that handlers must leave alone: trampoline and saved frame. */
  ghost predicate Guarded(stack: seq<Active>, a: nat) {
    exists i :: 0 <= i < |stack| && stack[i].base + 8 <= a < stack[i].base + SIGNAL_FRAME
  }

  ghost predicate SameGuarded(stack: seq<Active>, mem: Memory, mem': Memory) {
    forall a: nat :: Guarded(stack, a) ==> ByteAt(mem', a) == ByteAt(mem, a)
  }

  /** The stack stays below the innermost signal frame. */
  ghost predicate Below(stack: seq<Active>, rsp: nat) {
    stack != [] ==> rsp <= stack[|stack| - 1].base + 8
  }

  ghost predicate Inv(p: Process, stack: seq<Active>) {
    && Below(stack, p.frame.userRsp)
    && (forall i :: 0 <= i < |stack| ==>
          SavedAt(p.mem, stack[i].base) == stack[i].saved
          && Below(stack[..i], stack[i].saved.userRsp)
          && stack[i].base + SIGNAL_FRAME <= stack[i].saved.userRsp)
  }

  /** `Work` is user code: any registers and memory that keep to the stack discipline. `Install` sets a handler. */
  datatype Step =
    | DoDeliver
    | Work(frame: TrapFrame, mem: Memory)
    | Raise(signum: nat)
    | Install(signum: nat, handler: Word)
    | DoReturn

  ghost predicate Enabled(p: Process, stack: seq<Active>, s: Step) {
    match s
    case DoDeliver => CanDeliver(p)
    case Work(f, mem) => Below(stack, f.userRsp) && SameGuarded(stack, p.mem, mem)
    case Raise(_) => true
    case Install(_, _) => true
    case DoReturn => stack != [] && p.frame.userRsp == stack[|stack| - 1].base + 8
  }

  function RaiseSignal(s: SignalState, signum: nat): SignalState {
    if signum < MAX_SIGNALS then s.(pending := Or(s.pending, Pow2(signum))) else s
  }

  function InstallHandler(s: SignalState, signum: nat, handler: Word): SignalState {
    if signum < MAX_SIGNALS && signum < |s.handlers| then s.(handlers := s.handlers[signum := handler]) else s
  }

  ghost function Apply(p: Process, stack: seq<Active>, s: Step): (Process, seq<Active>)
    requires Enabled(p, stack, s)
  {
    match s
    case DoDeliver => (Deliver(p), stack + [Active(NewRsp(p.frame.userRsp), p.frame)])
    case Work(f, mem) => (p.(frame := f, mem := mem), stack)
    case Raise(n) => (p.(signals := RaiseSignal(p.signals, n)), stack)
    case Install(n, h) => (p.(signals := InstallHandler(p.signals, n, h)), stack)
    case DoReturn => (SigReturn(p), stack[..|stack| - 1])
  }

  /** The handler's stack pointer is aligned and the whole signal frame lies below the old one. */
  lemma RspBounds(rsp: nat)
    requires rsp >= SIGNAL_FRAME
    ensures NewRsp(rsp) % 16 == 0 && NewRsp(rsp) + SIGNAL_FRAME <= rsp < NewRsp(rsp) + SIGNAL_FRAME + 16
  {
  }

  /** A signal frame lies at `base`: the return address to the trampoline, the trampoline, its filler and the
      saved frame. */
  ghost predicate SignalFrameAt(mem: Memory, f: TrapFrame, base: nat) {
    && FromBytes(Read(mem, base, 8)) == base + 8
    && Read(mem, base + 8, |TRAMPOLINE|) == TRAMPOLINE
    && Read(mem, base + 18, 6) == [0x90, 0x90, 0x90, 0x90, 0x90, 0x90]
    && SavedAt(mem, base) == f
  }

  lemma SignalFrameReads(mem: Memory, f: TrapFrame, base: nat)
    requires base + 8 < U64
    ensures SignalFrameAt(Write(mem, base, SignalFrame(f, base)), f, base)
  {
    var s := SignalFrame(f, base);
    SignalFrameParts(f, base);
    WriteThenRead(mem, base, s, 0, 8);
    WriteThenRead(mem, base, s, 8, |TRAMPOLINE|);
    WriteThenRead(mem, base, s, 18, 6);
    WriteThenRead(mem, base, s, 24, FRAME_SIZE);
  }

  /** What delivery leaves in memory: a signal frame in adjoining regions below the old stack pointer; nothing
      outside it changes. */
  lemma DeliverWrites(p: Process)
    requires CanDeliver(p)
    ensures var q, base := Deliver(p), NewRsp(p.frame.userRsp);
            && SignalFrameAt(q.mem, p.frame, base) && base + SIGNAL_FRAME <= p.frame.userRsp
            && (forall a: nat :: a < base || a >= base + SIGNAL_FRAME ==> ByteAt(q.mem, a) == ByteAt(p.mem, a))
  {
    var base := NewRsp(p.frame.userRsp);
    RspBounds(p.frame.userRsp);
    SignalFrameReads(p.mem, p.frame, base);
    WriteOutside(p.mem, base, SignalFrame(p.frame, base));
  }

  /** Which signal delivery takes: the lowest pending one, told to its own handler and to no other,
      and no longer pending afterwards. */
  lemma DeliverTakesLowest(p: Process)
    requires CanDeliver(p)
    ensures var q, n := Deliver(p), Deliver(p).frame.rdi;
            && Bit(p.signals.pending, n) && (forall j: nat :: j < n ==> !Bit(p.signals.pending, j))
            && n < |p.signals.handlers| && q.frame.rcx == p.signals.handlers[n]
            && q.signals.handlers == p.signals.handlers
            && (forall j: nat :: Bit(q.signals.pending, j) <==> Bit(p.signals.pending, j) && j != n)
  {
    var n := Signum(p);
    LowestBit(p.signals.pending);
    forall j: nat
      ensures Bit(Deliver(p).signals.pending, j) <==> Bit(p.signals.pending, j) && j != n
    {
      BitOfAndNot(p.signals.pending, Pow2(n), j);
      BitOfPow(n, j);
    }
  }

  /** HOW THE HANDLER IS ENTERED: on an aligned stack whose first word is the address of the trampoline right
      above it, `mov eax, 54; syscall`, with no other register changed. Popping that word and entering the kernel
      from the trampoline gives the interrupted frame back. */
  lemma DeliverEnters(p: Process)
    requires CanDeliver(p)
    ensures var q := Deliver(p);
            var rsp := q.frame.userRsp;
            && rsp % 16 == 0 && rsp + 152 <= p.frame.userRsp < rsp + 168
            && FromBytes(Read(q.mem, rsp, 8)) == rsp + 8
            && Read(q.mem, rsp + 8, 10) == [0xB8, 54, 0, 0, 0, 0x0F, 0x05, 0xEB, 0xFE, 0x90]
            && q.frame == p.frame.(rcx := q.frame.rcx, rdi := q.frame.rdi, userRsp := rsp)
            && SigReturn(q.(frame := q.frame.(userRsp := rsp + 8))).frame == p.frame
  {
    RspBounds(p.frame.userRsp);
    DeliverWrites(p);
  }

  lemma WriteOutside(mem: Memory, at: nat, s: seq<byte>)
    ensures forall a: nat :: a < at || at + |s| <= a ==> ByteAt(Write(mem, at, s), a) == ByteAt(mem, a)
  {
    forall a: nat | a < at || at + |s| <= a
      ensures ByteAt(Write(mem, at, s), a) == ByteAt(mem, a)
    {
      WrittenAt(mem, at, s, a);
    }
  }

  lemma SignalFrameParts(f: TrapFrame, base: nat)
    requires base + 8 < U64
    ensures var s := SignalFrame(f, base);
            && FromBytes(s[0..8]) == base + 8 && s[8..18] == TRAMPOLINE
            && s[18..24] == [0x90, 0x90, 0x90, 0x90, 0x90, 0x90] && DecodeFrame(s[24..24 + FRAME_SIZE]) == f
  {
    var s := SignalFrame(f, base);
    assert s[0..8] == ToBytes(base + 8, 8);
    assert s[24..24 + FRAME_SIZE] == EncodeFrame(f);
    WidthOfWord();
    DecodeEncode(base + 8, 8);
    FrameRoundTrip(f);
  }

  lemma WriteThenRead(mem: Memory, at: nat, s: seq<byte>, off: nat, n: nat)
    requires off + n <= |s|
    ensures Read(Write(mem, at, s), at + off, n) == s[off..off + n]
  {
    var r := Read(Write(mem, at, s), at + off, n);
    forall i | 0 <= i < n
      ensures r[i] == s[off..off + n][i]
    {
      WrittenAt(mem, at, s, at + off + i);
    }
  }

  lemma ReadSame(mem: Memory, mem': Memory, at: nat, n: nat)
    requires forall a: nat :: at <= a < at + n ==> ByteAt(mem', a) == ByteAt(mem, a)
    ensures Read(mem', at, n) == Read(mem, at, n)
  {
  }

  lemma {:induction false} BasesDescend(p: Process, stack: seq<Active>, i: nat)
    requires Inv(p, stack) && i < |stack|
    ensures stack[|stack| - 1].base <= stack[i].base
    decreases |stack| - i
  {
    if i < |stack| - 1 {
      assert stack[..i + 1][i] == stack[i];
      assert Below(stack[..i + 1], stack[i + 1].saved.userRsp);
      BasesDescend(p, stack, i + 1);
    }
  }

  /** A saved frame is intact as long as the guarded bytes are. */
  lemma SavedIntact(stack: seq<Active>, mem: Memory, mem': Memory, i: nat)
    requires i < |stack| && SameGuarded(stack, mem, mem')
    ensures SavedAt(mem', stack[i].base) == SavedAt(mem, stack[i].base)
  {
    forall a: nat | stack[i].base + 24 <= a < stack[i].base + 24 + FRAME_SIZE
      ensures ByteAt(mem', a) == ByteAt(mem, a)
    {
      assert Guarded(stack, a);
    }
    ReadSame(mem, mem', stack[i].base + 24, FRAME_SIZE);
  }

  lemma DeliverKeeps(p: Process, stack: seq<Active>)
    requires Inv(p, stack) && CanDeliver(p)
    ensures var (q, stack') := Apply(p, stack, DoDeliver); Inv(q, stack')
  {
    var (q, stack') := Apply(p, stack, DoDeliver);
    DeliverWrites(p);
    RspBounds(p.frame.userRsp);
    assert SameGuarded(stack, p.mem, q.mem) by {
      forall a: nat | Guarded(stack, a)
        ensures ByteAt(q.mem, a) == ByteAt(p.mem, a)
      {
        var i :| 0 <= i < |stack| && stack[i].base + 8 <= a < stack[i].base + SIGNAL_FRAME;
        BasesDescend(p, stack, i);
      }
    }
    forall i | 0 <= i < |stack'|
      ensures SavedAt(q.mem, stack'[i].base) == stack'[i].saved
      ensures Below(stack'[..i], stack'[i].saved.userRsp) && stack'[i].base + SIGNAL_FRAME <= stack'[i].saved.userRsp
    {
      if i < |stack| {
        SavedIntact(stack, p.mem, q.mem, i);
        assert stack'[..i] == stack[..i];
      } else {
        assert stack'[..i] == stack;
      }
    }
  }

  /** Each step keeps every saved frame intact, and `sigreturn` restores the innermost one exactly. */
  lemma StepKeeps(p: Process, stack: seq<Active>, s: Step)
    requires Inv(p, stack) && Enabled(p, stack, s)
    ensures var (q, stack') := Apply(p, stack, s); Inv(q, stack')
    ensures s.DoReturn? ==> Apply(p, stack, s).0.frame == stack[|stack| - 1].saved
  {
    var (q, stack') := Apply(p, stack, s);
    match s
    case DoDeliver => DeliverKeeps(p, stack);
    case Work(f, mem) =>
      forall i | 0 <= i < |stack|
        ensures SavedAt(mem, stack[i].base) == SavedAt(p.mem, stack[i].base)
      {
        SavedIntact(stack, p.mem, mem, i);
      }
    case Raise(_) =>
    case Install(_, _) =>
    case DoReturn =>
      var n := |stack| - 1;
      assert stack[..n] == stack';
      forall i | 0 <= i < |stack'|
        ensures stack'[..i] == stack[..i] && stack'[i] == stack[i]
      {
      }
  }

  ghost predicate RunOk(p: Process, stack: seq<Active>, steps: seq<Step>)
    decreases |steps|
  {
    steps == [] || (Enabled(p, stack, steps[0])
                    && var (q, stack') := Apply(p, stack, steps[0]); RunOk(q, stack', steps[1..]))
  }

  ghost function Final(p: Process, stack: seq<Active>, steps: seq<Step>): (Process, seq<Active>)
    requires RunOk(p, stack, steps)
    decreases |steps|
  {
    if steps == [] then (p, stack)
    else var (q, stack') := Apply(p, stack, steps[0]); Final(q, stack', steps[1..])
  }

  /** At least `d` handlers are active all along the run. */
  ghost predicate DepthAtLeast(p: Process, stack: seq<Active>, steps: seq<Step>, d: nat)
    requires RunOk(p, stack, steps)
    decreases |steps|
  {
    && |stack| >= d
    && (steps == [] || var (q, stack') := Apply(p, stack, steps[0]); DepthAtLeast(q, stack', steps[1..], d))
  }

  lemma StepPrefix(p: Process, stack: seq<Active>, s: Step, d: nat)
    requires Enabled(p, stack, s) && |stack| >= d && |Apply(p, stack, s).1| >= d
    ensures Apply(p, stack, s).1[..d] == stack[..d]
  {
  }

  lemma {:induction false} RunKeeps(p: Process, stack: seq<Active>, steps: seq<Step>, d: nat)
    requires Inv(p, stack) && RunOk(p, stack, steps) && DepthAtLeast(p, stack, steps, d)
    ensures var (q, stack') := Final(p, stack, steps);
            Inv(q, stack') && |stack'| >= d && stack'[..d] == stack[..d]
    decreases |steps|
  {
    if steps != [] {
      var (q, stack') := Apply(p, stack, steps[0]);
      StepKeeps(p, stack, steps[0]);
      RunKeeps(q, stack', steps[1..], d);
      StepPrefix(p, stack, steps[0], d);
    }
  }

  /** A run that never goes below the handlers it started with, and ends with as many, ends with the same. */
  lemma SameHandlers(p: Process, stack: seq<Active>, steps: seq<Step>)
    requires Inv(p, stack) && RunOk(p, stack, steps) && DepthAtLeast(p, stack, steps, |stack|)
    requires |Final(p, stack, steps).1| == |stack|
    ensures Final(p, stack, steps).1 == stack && Inv(Final(p, stack, steps).0, stack)
  {
    RunKeeps(p, stack, steps, |stack|);
    var end := Final(p, stack, steps).1;
    assert end[..|stack|] == end && stack[..|stack|] == stack;
  }

  /** The handler delivered first is the one that returns: all that runs in between stays above it. */
  ghost predicate Nested(p: Process, stack: seq<Active>, steps: seq<Step>)
    requires CanDeliver(p)
  {
    var (q, stack') := Apply(p, stack, DoDeliver);
    && RunOk(q, stack', steps) && DepthAtLeast(q, stack', steps, |stack'|)
    && var (r, end) := Final(q, stack', steps); |end| == |stack'| && Enabled(r, end, DoReturn)
  }

  /** ROUND TRIP UNDER NESTING: whatever is delivered, raised, installed, run and returned from in between,
      the `sigreturn` that ends a handler restores the exact trap frame its signal interrupted. */
  lemma SigReturnRestores(p: Process, stack: seq<Active>, steps: seq<Step>)
    requires Inv(p, stack) && CanDeliver(p) && Nested(p, stack, steps)
    ensures var (q, stack') := Apply(p, stack, DoDeliver);
            var (r, end) := Final(q, stack', steps);
            var (back, rest) := Apply(r, end, DoReturn);
            back.frame == p.frame && rest == stack && Inv(back, rest)
  {
    var (q, stack') := Apply(p, stack, DoDeliver);
    StepKeeps(p, stack, DoDeliver);
    SameHandlers(q, stack', steps);
    StepKeeps(Final(q, stack', steps).0, stack', DoReturn);
  }

  // ---------------------------------------------------------------- which signals a run delivers

  /** The numbers of the signals delivered along a run, in order. */
  ghost function Deliveries(p: Process, stack: seq<Active>, steps: seq<Step>): seq<nat>
    requires RunOk(p, stack, steps)
    decreases |steps|
  {
    if steps == [] then []
    else
      var (q, stack') := Apply(p, stack, steps[0]);
      (if steps[0].DoDeliver? then [Signum(p)] else []) + Deliveries(q, stack', steps[1..])
  }

  ghost predicate NoRaise(steps: seq<Step>) { forall i :: 0 <= i < |steps| ==> !steps[i].Raise? }

  /** A step that raises nothing takes the lowest pending signal or none. */
  lemma StepTakes(p: Process, stack: seq<Active>, s: Step)
    requires Enabled(p, stack, s) && !s.Raise?
    ensures var left := TakeOrder(Apply(p, stack, s).0.signals.pending);
            TakeOrder(p.signals.pending) == if s.DoDeliver? then [Signum(p)] + left else left
  {
  }

  /** ONCE EACH, LOWEST FIRST: over every run without new signals, what has been delivered, followed by what is
      still pending in ascending order, is what was pending at first in ascending order. */
  lemma {:induction false} DeliveredOnceAscending(p: Process, stack: seq<Active>, steps: seq<Step>)
    requires RunOk(p, stack, steps) && NoRaise(steps)
    ensures var left := Final(p, stack, steps).0.signals.pending;
            Deliveries(p, stack, steps) + TakeOrder(left) == TakeOrder(p.signals.pending)
    decreases |steps|
  {
    if steps != [] {
      var (q, stack') := Apply(p, stack, steps[0]);
      var rest := steps[1..];
      StepTakes(p, stack, steps[0]);
      DeliveredOnceAscending(q, stack', rest);
      if steps[0].DoDeliver? {
        Regroup([Signum(p)], Deliveries(q, stack', rest), TakeOrder(Final(q, stack', rest).0.signals.pending));
      }
    }
  }

  /** What a step does to one pending bit. */
  lemma PendingAfter(p: Process, stack: seq<Active>, s: Step, n: nat)
    requires Enabled(p, stack, s)
    ensures Bit(Apply(p, stack, s).0.signals.pending, n) <==>
            || (Bit(p.signals.pending, n) && !(s.DoDeliver? && Signum(p) == n))
            || (s == Raise(n) && n < MAX_SIGNALS)
  {
    match s
    case DoDeliver =>
      BitOfAndNot(p.signals.pending, Pow2(Signum(p)), n);
      BitOfPow(Signum(p), n);
    case Raise(k) =>
      BitOfOr(p.signals.pending, Pow2(k), n);
      BitOfPow(k, n);
    case Work(_, _) =>
    case Install(_, _) =>
    case DoReturn =>
  }

  /** The state before step `i`. */
  ghost function StateAt(p: Process, stack: seq<Active>, steps: seq<Step>, i: nat): Process
    requires RunOk(p, stack, steps) && i <= |steps|
    decreases |steps|
  {
    if i == 0 then p else var (q, stack') := Apply(p, stack, steps[0]); StateAt(q, stack', steps[1..], i - 1)
  }

  /** Step `i` of the run delivers signal `n`. */
  ghost predicate DeliversAt(p: Process, stack: seq<Active>, steps: seq<Step>, i: nat, n: nat)
    requires RunOk(p, stack, steps)
  {
    && i < |steps| && steps[i].DoDeliver?
    && StateAt(p, stack, steps, i).signals.pending > 0 && Signum(StateAt(p, stack, steps, i)) == n
  }

  ghost predicate RaisedIn(steps: seq<Step>, i: nat, j: nat, n: nat) {
    exists k :: i <= k < j && k < |steps| && steps[k] == Raise(n)
  }

  /** A signal that is not pending is delivered only after it is raised. */
  lemma {:induction false} RaisedBefore(p: Process, stack: seq<Active>, steps: seq<Step>, j: nat, n: nat)
    requires RunOk(p, stack, steps) && DeliversAt(p, stack, steps, j, n) && !Bit(p.signals.pending, n)
    ensures RaisedIn(steps, 0, j, n)
    decreases |steps|
  {
    if j == 0 {
      LowestBit(p.signals.pending);
    } else if steps[0] != Raise(n) {
      var (q, stack') := Apply(p, stack, steps[0]);
      PendingAfter(p, stack, steps[0], n);
      RaisedBefore(q, stack', steps[1..], j - 1, n);
      var k :| 0 <= k < j - 1 && k < |steps[1..]| && steps[1..][k] == Raise(n);
      assert steps[k + 1] == Raise(n);
    }
  }

  /** NEVER TWICE FOR ONE RAISE: over every run, between two deliveries of a signal it is raised again. */
  lemma {:induction false} RaisedBetween(p: Process, stack: seq<Active>, steps: seq<Step>, i: nat, j: nat, n: nat)
    requires RunOk(p, stack, steps) && i < j && DeliversAt(p, stack, steps, i, n) && DeliversAt(p, stack, steps, j, n)
    ensures RaisedIn(steps, i + 1, j, n)
    decreases |steps|
  {
    var (q, stack') := Apply(p, stack, steps[0]);
    var from;
    if i == 0 {
      PendingAfter(p, stack, steps[0], n);
      RaisedBefore(q, stack', steps[1..], j - 1, n);
      from := 0;
    } else {
      RaisedBetween(q, stack', steps[1..], i - 1, j - 1, n);
      from := i;
    }
    var k :| from <= k < j - 1 && k < |steps[1..]| && steps[1..][k] == Raise(n);
    assert steps[k + 1] == Raise(n);
  }

  /** NEVER LOST: over every run a pending signal is delivered or still pending at the end. */
  lemma {:induction false} PendingNotLost(p: Process, stack: seq<Active>, steps: seq<Step>, n: nat)
    requires RunOk(p, stack, steps) && Bit(p.signals.pending, n)
    ensures n in Deliveries(p, stack, steps) || Bit(Final(p, stack, steps).0.signals.pending, n)
    decreases |steps|
  {
    if steps != [] && !(steps[0].DoDeliver? && Signum(p) == n) {
      var (q, stack') := Apply(p, stack, steps[0]);
      PendingAfter(p, stack, steps[0], n);
      PendingNotLost(q, stack', steps[1..], n);
    }
  }

  // ---------------------------------------------------------------- which handler is entered

  /** The handler of signal `n` that was installed last in a run, or the one before it. */
  function LastInstalled(steps: seq<Step>, n: nat, before: Word): Word {
    if steps == [] then before
    else LastInstalled(steps[1..], n, if steps[0].Install? && steps[0].signum == n then steps[0].handler else before)
  }

  /** Over every run the handler of a signal is the one installed last. */
  lemma {:induction false} HandlerIsLast(p: Process, stack: seq<Active>, steps: seq<Step>, n: nat)
    requires RunOk(p, stack, steps) && n < MAX_SIGNALS == |p.signals.handlers|
    ensures var end := Final(p, stack, steps).0.signals.handlers;
            |end| == MAX_SIGNALS && end[n] == LastInstalled(steps, n, p.signals.handlers[n])
    decreases |steps|
  {
    if steps != [] {
      var (q, stack') := Apply(p, stack, steps[0]);
      HandlerIsLast(q, stack', steps[1..], n);
    }
  }

  /** A delivery at the end of a run enters the handler installed last for its signal. */
  lemma EntersLastInstalled(p: Process, stack: seq<Active>, steps: seq<Step>)
    requires RunOk(p, stack, steps) && |p.signals.handlers| == MAX_SIGNALS
    requires CanDeliver(Final(p, stack, steps).0)
    ensures var q := Deliver(Final(p, stack, steps).0);
            q.frame.rdi < MAX_SIGNALS
            && q.frame.rcx == LastInstalled(steps, q.frame.rdi, p.signals.handlers[q.frame.rdi])
  {
    var e := Final(p, stack, steps).0;
    DeliverTakesLowest(e);
    HandlerIsLast(p, stack, steps, Signum(e));
  }

  // ---------------------------------------------------------------- the objects

  lemma {:induction false} WrittenMap(mem: Memory, at: nat, s: seq<byte>, a: nat)
    ensures a in Write(mem, at, s) <==> a in mem || at <= a < at + |s|
    decreases |s|
  {
    if s != [] { WrittenMap(mem[at := s[0]], at + 1, s[1..], a); }
  }

  /** Writing the pieces of a string from the last to the first writes the string. */
  lemma WriteTwice(mem: Memory, at: nat, s: seq<byte>, t: seq<byte>)
    ensures Write(Write(mem, at + |s|, t), at, s) == Write(mem, at, s + t)
  {
    var l, r := Write(Write(mem, at + |s|, t), at, s), Write(mem, at, s + t);
    forall a: nat
      ensures (a in l <==> a in r) && ByteAt(l, a) == ByteAt(r, a)
    {
      WrittenMap(Write(mem, at + |s|, t), at, s, a);
      WrittenMap(mem, at + |s|, t, a);
      WrittenMap(mem, at, s + t, a);
      WrittenAt(Write(mem, at + |s|, t), at, s, a);
      WrittenAt(mem, at + |s|, t, a);
      WrittenAt(mem, at, s + t, a);
    }
    assert forall a: nat :: a in l ==> l[a] == ByteAt(l, a) && r[a] == ByteAt(r, a);
  }

  lemma WriteThree(mem: Memory, base: nat, f: TrapFrame, tramp: seq<byte>)
    requires tramp == TRAMPOLINE + seq(TRAMPOLINE_PAD - |TRAMPOLINE|, _ => 0x90)
    ensures Write(Write(Write(mem, base + 24, EncodeFrame(f)), base + 8, tramp), base, ToBytes(base + 8, 8))
         == Write(mem, base, SignalFrame(f, base))
  {
    WriteTwice(mem, base + 8, tramp, EncodeFrame(f));
    WriteTwice(mem, base, ToBytes(base + 8, 8), tramp + EncodeFrame(f));
    assert ToBytes(base + 8, 8) + (tramp + EncodeFrame(f)) == SignalFrame(f, base);
  }

  lemma SameLowest(p: nat, signum: nat)
    requires p > 0 && Bit(p, signum) && forall j: nat :: j < signum ==> !Bit(p, j)
    ensures TrailingZeros(p) == signum
  {
    LowestBit(p);
  }

  datatype Outcome = Nothing | Killed(signum: nat) | Delivered

  /** The user side of a process during a system call: trap frame and memory. */
  class UserContext {
    var frame: TrapFrame
    var mem: Memory

    constructor (frame: TrapFrame, mem: Memory)
      ensures this.frame == frame && this.mem == mem
    {
      this.frame := frame;
      this.mem := mem;
    }

    method SigReturn() returns (rax: Word)
      modifies this`frame
      ensures rax == frame.rax && EncodeFrame(frame) == Read(old(mem), old(frame.userRsp) + 16, FRAME_SIZE)
      ensures forall base: nat :: base + 8 == old(frame.userRsp) ==> frame == SavedAt(old(mem), base)
    {
      var saved := frame.userRsp + 16;
      FrameBytesRoundTrip(Read(mem, saved, FRAME_SIZE));
      frame := DecodeFrame(Read(mem, saved, FRAME_SIZE));
      rax := frame.rax;
    }
  }

  class SignalTable {
    var pending: nat
    var handlers: seq<Word>

    ghost predicate Valid()
      reads this
    {
      |handlers| == MAX_SIGNALS && forall j: nat :: Bit(pending, j) ==> j < MAX_SIGNALS
    }

    constructor ()
      ensures Valid() && pending == 0 && handlers == seq(MAX_SIGNALS, _ => 0)
    {
      pending := 0;
      handlers := seq(MAX_SIGNALS, _ => 0);
      new;
      forall j: nat
        ensures !Bit(0, j)
      {
        BitOfZero(j);
      }
    }

    method SetPending(signum: nat)
      requires Valid()
      modifies this`pending
      ensures Valid()
      ensures forall j: nat :: Bit(pending, j) <==> old(Bit(pending, j)) || (j == signum && signum < MAX_SIGNALS)
    {
      if signum < MAX_SIGNALS {
        forall j: nat
          ensures Bit(Or(pending, Pow2(signum)), j) <==> Bit(pending, j) || j == signum
        {
          BitOfOr(pending, Pow2(signum), j);
          BitOfPow(signum, j);
        }
        pending := Or(pending, Pow2(signum));
      }
    }

    method ClearPending(signum: nat)
      requires Valid()
      modifies this`pending
      ensures Valid()
      ensures forall j: nat :: Bit(pending, j) <==> old(Bit(pending, j)) && j != signum
      ensures signum < MAX_SIGNALS ==> pending == AndNot(old(pending), Pow2(signum))
    {
      if signum < MAX_SIGNALS {
        forall j: nat
          ensures Bit(AndNot(pending, Pow2(signum)), j) <==> Bit(pending, j) && j != signum
        {
          BitOfAndNot(pending, Pow2(signum), j);
          BitOfPow(signum, j);
        }
        pending := AndNot(pending, Pow2(signum));
      }
    }

    method SetHandler(signum: nat, handler: Word)
      requires Valid()
      modifies this`handlers
      ensures Valid()
      ensures SignalState(pending, handlers) == InstallHandler(SignalState(pending, old(handlers)), signum, handler)
      ensures forall n :: 0 <= n < MAX_SIGNALS ==> handlers[n] == if n == signum then handler else old(handlers[n])
    {
      if signum < MAX_SIGNALS {
        handlers := handlers[signum := handler];
      }
    }

    ghost function Value(ctx: UserContext): Process
      reads this, ctx
    {
      Process(ctx.frame, ctx.mem, SignalState(pending, handlers))
    }

    /** Delivers the lowest pending signal; without a handler the process ends. */
    method DeliverPending(ctx: UserContext) returns (outcome: Outcome)
      requires Valid() && ctx.frame.userRsp >= SIGNAL_FRAME
      modifies this`pending, ctx
      ensures Valid()
      ensures outcome.Nothing? <==> old(pending) == 0
      ensures outcome.Nothing? ==> Value(ctx) == old(Value(ctx))
      ensures outcome.Killed? ==> && old(pending) > 0 && outcome.signum == old(Signum(Value(ctx)))
                                  && old(Handler(Value(ctx))) == 0
      ensures outcome.Killed? ==> && ctx.frame == old(ctx.frame) && ctx.mem == old(ctx.mem)
                                  && pending == AndNot(old(pending), Pow2(outcome.signum))
      ensures outcome.Delivered? ==> old(CanDeliver(Value(ctx))) && Value(ctx) == Deliver(old(Value(ctx)))
      // which of the three: the handler of the lowest pending signal decides
      ensures forall n: nat :: n < MAX_SIGNALS && Lowest(old(pending), n) ==>
                outcome == if handlers[n] == 0 then Killed(n) else Delivered
    {
      var found, signum, handler := NextPending();
      if !found { return Nothing; }
      SameLowest(pending, signum);
      ClearPending(signum);
      if handler == 0 { return Killed(signum); }
      var base := NewRsp(ctx.frame.userRsp);
      var tramp := TRAMPOLINE + seq(TRAMPOLINE_PAD - |TRAMPOLINE|, _ => 0x90);
      WriteThree(ctx.mem, base, ctx.frame, tramp);
      ctx.mem := Write(ctx.mem, base + 24, EncodeFrame(ctx.frame));
      ctx.mem := Write(ctx.mem, base + 8, tramp);
      ctx.mem := Write(ctx.mem, base, ToBytes(base + 8, 8));
      ctx.frame := ctx.frame.(rcx := handler, userRsp := base, rdi := signum);
      return Delivered;
    }

    /** The lowest pending signal and its handler. */
    method NextPending() returns (found: bool, signum: nat, handler: Word)
      requires Valid()
      ensures found <==> pending != 0
      ensures found ==> signum < MAX_SIGNALS && Bit(pending, signum) && handler == handlers[signum]
      ensures found ==> forall j: nat :: j < signum ==> !Bit(pending, j)
      ensures !found ==> forall j: nat :: !Bit(pending, j)
    {
      if pending == 0 {
        forall j: nat
          ensures !Bit(0, j)
        {
          BitOfZero(j);
        }
        return false, 0, 0;
      }
      LowestBit(pending);
      signum := TrailingZeros(pending);
      return true, signum, handlers[signum];
    }
  }
}
