/** CRC-32 with the reflected Ethernet polynomial: the table-driven form against the bit-serial
    shift register, and the error patterns it detects. Words are natural numbers below `2^32`. */
module Crc {
  import opened Bits

  const POLY: nat := 0xEDB8_8320
  const ONES: nat := 0xFFFF_FFFF

  /** One shift of the register. */
  function Shift(c: nat): nat {
    if c % 2 == 1 then Xor(c / 2, POLY) else c / 2
  }

  function Shifts(c: nat, n: nat): nat
    decreases n, c
  {
    if n == 0 then c else Shifts(Shift(c), n - 1)
  }

  // ---------------------------------------------------------------- bit-serial reference

  /** The low `n` bits of a word, least significant first. */
  function BitsOf(w: nat, n: nat): (s: seq<nat>)
    ensures |s| == n && forall i :: 0 <= i < n ==> s[i] < 2
  {
    if n == 0 then [] else [w % 2] + BitsOf(w / 2, n - 1)
  }

  function MessageBits(data: seq<byte>): (s: seq<nat>)
    ensures |s| == 8 * |data| && forall i :: 0 <= i < |s| ==> s[i] < 2
  {
    if data == [] then [] else BitsOf(data[0], 8) + MessageBits(data[1..])
  }

  /** The shift register fed with one message bit. */
  function Feed(c: nat, b: nat): nat { Shift(Xor(c, b)) }

  function Serial(c: nat, s: seq<nat>): nat
    decreases |s|
  {
    if s == [] then c else Serial(Feed(c, s[0]), s[1..])
  }

  function SerialCrc(data: seq<byte>): int { ONES - Serial(ONES, MessageBits(data)) }

  // ---------------------------------------------------------------- table-driven form

  function TableStep(c: nat, b: byte): nat {
    Xor(c / 256, Shifts(Xor(c, b) % 256, 8))
  }

  function Fold(c: nat, data: seq<byte>): nat
    decreases |data|
  {
    if data == [] then c else Fold(TableStep(c, data[0]), data[1..])
  }

  function Crc32(data: seq<byte>): int { ONES - Fold(ONES, data) }

  method BuildTable() returns (table: seq<nat>)
    ensures |table| == 256 && forall i :: 0 <= i < 256 ==> table[i] == Shifts(i, 8)
  {
    table := [];
    var i := 0;
    while i < 256
      invariant 0 <= i == |table| <= 256
      invariant forall k :: 0 <= k < i ==> table[k] == Shifts(k, 8)
    {
      var crc := i;
      var j := 0;
      while j < 8
        invariant 0 <= j <= 8 && 0 <= crc && Shifts(crc, 8 - j) == Shifts(i, 8)
      {
        if crc % 2 != 0 {
          crc := Xor(crc / 2, POLY);
        } else {
          crc := crc / 2;
        }
        j := j + 1;
      }
      table := table + [crc];
      i := i + 1;
    }
  }

  method ComputeCrc(data: seq<byte>) returns (r: int)
    ensures r == SerialCrc(data)
    ensures 0 <= r <= ONES
  {
    var table := BuildTable();
    var crc := ONES;
    var i := 0;
    while i < |data|
      invariant 0 <= i <= |data| && 0 <= crc
      invariant Fold(crc, data[i..]) == Fold(ONES, data)
    {
      assert data[i..][1..] == data[i + 1..];
      crc := Xor(crc / 256, table[Xor(crc, data[i]) % 256]);
      i := i + 1;
    }
    assert data[|data|..] == [];
    r := ONES - crc;
    TableIsSerial(data);
  }

  // ---------------------------------------------------------------- the two forms agree

  lemma XorGroup(a: nat, b: nat, p: nat)
    ensures Xor(Xor(a, p), b) == Xor(Xor(a, b), p) == Xor(a, Xor(b, p))
    ensures Xor(Xor(a, p), Xor(b, p)) == Xor(a, b)
  {
    XorAssoc(a, p, b);
    XorComm(p, b);
    XorAssoc(a, b, p);
    XorAssoc(Xor(a, p), b, p);
    XorAssoc(Xor(a, b), p, p);
    XorSelf(p);
    XorZero(Xor(a, b));
  }

  /** The shift is linear over exclusive OR. */
  lemma ShiftLinear(x: nat, y: nat)
    ensures Shift(Xor(x, y)) == Xor(Shift(x), Shift(y))
  {
    XorDigit(x, y);
    XorGroup(x / 2, y / 2, POLY);
  }

  function Up(h: nat, n: nat): nat {
    if n == 0 then h else 2 * Up(h, n - 1)
  }

  /** `n` shifts look only at the low `n` bits; the rest moves down unchanged. */
  lemma {:induction false} HighPart(l: nat, h: nat, n: nat)
    ensures Shifts(Xor(l, Up(h, n)), n) == Xor(Shifts(l, n), h)
    decreases n
  {
    if n > 0 {
      ShiftLinear(l, Up(h, n));
      HighPart(Shift(l), h, n - 1);
    }
  }

  lemma {:induction false} XorUp(l: nat, h: nat, n: nat)
    requires l < Pow2(n)
    ensures Xor(l, Up(h, n)) == l + Up(h, n)
    decreases n
  {
    if n == 0 {
      XorComm(0, h);
      XorZero(h);
    } else {
      var u := Up(h, n - 1);
      XorUp(l / 2, h, n - 1);
      XorDigit(l, 2 * u);
      assert (2 * u) / 2 == u;
    }
  }

  lemma XorHighBytes(c: nat, b: byte)
    ensures Xor(c, b) / 256 == c / 256
  {
    XorShiftRight(c, b, 8);
    ShiftRight8(c);
    ShiftRight8(b);
    ShiftRight8(Xor(c, b));
    XorZero(c / 256);
  }

  lemma Up8(h: nat)
    ensures Up(h, 8) == 256 * h
  {
    assert Up(h, 1) == 2 * h;
    assert Up(h, 3) == 8 * h;
    assert Up(h, 5) == 32 * h;
    assert Up(h, 7) == 128 * h;
  }

  lemma ShiftsSplit(l: nat, h: nat, n: nat)
    requires l < Pow2(n)
    ensures Shifts(l + Up(h, n), n) == Xor(h, Shifts(l, n))
  {
    XorUp(l, h, n);
    HighPart(l, h, n);
    XorComm(h, Shifts(l, n));
  }

  lemma {:induction false} TableStepIsShifts(c: nat, b: byte)
    ensures TableStep(c, b) == Shifts(Xor(c, b), 8)
  {
    XorHighBytes(c, b);
    var x := Xor(c, b);
    assert x == x % 256 + Up(x / 256, 8) by { Up8(x / 256); }
    assert x % 256 < Pow2(8) by { Pow2Words(); }
    ShiftsSplit(x % 256, x / 256, 8);
  }

  /** Feeding a word bit by bit is one exclusive OR and `n` shifts. */
  lemma {:induction false} WordIsSerial(c: nat, w: nat, n: nat)
    requires w < Pow2(n)
    ensures Shifts(Xor(c, w), n) == Serial(c, BitsOf(w, n))
    decreases n
  {
    if n == 0 {
      XorZero(c);
    } else {
      var l, h := w % 2, w / 2;
      var d := Xor(c, l);
      assert Xor(c, w) == Xor(d, 2 * h) by { XorDisjoint(l, h); XorAssoc(c, l, 2 * h); }
      assert Shift(Xor(d, 2 * h)) == Xor(Shift(d), h) by { ShiftLinear(d, 2 * h); }
      WordIsSerial(Shift(d), h, n - 1);
      assert BitsOf(w, n)[1..] == BitsOf(h, n - 1);
    }
  }

  lemma {:induction false} SerialAppend(c: nat, s: seq<nat>, t: seq<nat>)
    ensures Serial(c, s + t) == Serial(Serial(c, s), t)
    decreases |s|
  {
    if s == [] {
      assert s + t == t;
    } else {
      assert (s + t)[1..] == s[1..] + t;
      SerialAppend(Shift(Xor(c, s[0])), s[1..], t);
    }
  }

  lemma {:induction false} FoldIsSerial(c: nat, data: seq<byte>)
    ensures Fold(c, data) == Serial(c, MessageBits(data))
    decreases |data|
  {
    if data != [] {
      Pow2Words();
      TableStepIsShifts(c, data[0]);
      WordIsSerial(c, data[0], 8);
      FoldIsSerial(TableStep(c, data[0]), data[1..]);
      SerialAppend(c, BitsOf(data[0], 8), MessageBits(data[1..]));
    }
  }

  lemma {:induction false} SerialBound(c: nat, s: seq<nat>)
    requires c <= ONES && forall i :: 0 <= i < |s| ==> s[i] < 2
    ensures Serial(c, s) <= ONES
    decreases |s|
  {
    Pow2Words();
    if s != [] {
      XorBound(c, s[0], 32);
      var x := Xor(c, s[0]);
      XorBound(x / 2, POLY, 32);
      SerialBound(Shift(x), s[1..]);
    }
  }

  /** The table-driven checksum is the bit-serial one, for every input, and fits 32 bits. */
  lemma TableIsSerial(data: seq<byte>)
    ensures Crc32(data) == SerialCrc(data) && 0 <= Crc32(data) <= ONES
  {
    FoldIsSerial(ONES, data);
    SerialBound(ONES, MessageBits(data));
  }

  // ---------------------------------------------------------------- error detection

  ghost predicate IsBits(s: seq<nat>) { forall i :: 0 <= i < |s| ==> s[i] < 2 }

  /** Whether two bits differ. */
  function Flip(a: nat, b: nat): nat { if a == b then 0 else 1 }

  /** Where two bit strings differ. */
  ghost function Difference(s: seq<nat>, t: seq<nat>): (d: seq<nat>)
    requires |s| == |t|
    ensures |d| == |s| && forall i :: 0 <= i < |s| ==> d[i] == Flip(s[i], t[i])
  {
    if s == [] then [] else [Flip(s[0], t[0])] + Difference(s[1..], t[1..])
  }

  lemma DifferenceTwice(s: seq<nat>, g: seq<nat>)
    requires |s| == |g| && IsBits(s) && IsBits(g)
    ensures Difference(s, Difference(s, g)) == g
  {
    var d := Difference(s, Difference(s, g));
    forall i | 0 <= i < |g|
      ensures d[i] == g[i]
    {
      assert s[i] < 2 && g[i] < 2;
    }
  }

  lemma XorOfBits(a: nat, b: nat)
    requires a < 2 && b < 2
    ensures Xor(a, b) == Flip(a, b)
  {
  }

  lemma FeedLinear(c: nat, b: nat, c': nat, b': nat)
    requires b < 2 && b' < 2
    ensures Xor(Feed(c, b), Feed(c', b')) == Feed(Xor(c, c'), Flip(b, b'))
  {
    XorOfBits(b, b');
    FourWay(c, b, c', b');
    ShiftLinear(Xor(c, b), Xor(c', b'));
  }

  /** The registers of two messages differ by the register of their difference. */
  lemma {:induction false} SerialLinear(c: nat, s: seq<nat>, c': nat, s': seq<nat>)
    requires |s| == |s'| && IsBits(s) && IsBits(s')
    ensures Xor(Serial(c, s), Serial(c', s')) == Serial(Xor(c, c'), Difference(s, s'))
    decreases |s|
  {
    if s != [] {
      var x, x' := Feed(c, s[0]), Feed(c', s'[0]);
      var d := Difference(s, s');
      assert Xor(x, x') == Feed(Xor(c, c'), d[0]) by { FeedLinear(c, s[0], c', s'[0]); }
      SerialLinear(x, s[1..], x', s'[1..]);
      assert d[1..] == Difference(s[1..], s'[1..]);
    }
  }

  lemma FourWay(a: nat, b: nat, c: nat, d: nat)
    ensures Xor(Xor(a, b), Xor(c, d)) == Xor(Xor(a, c), Xor(b, d))
  {
    XorAssoc(a, b, Xor(c, d));
    XorAssoc(b, c, d);
    XorComm(b, c);
    XorAssoc(c, b, d);
    XorAssoc(a, c, Xor(b, d));
  }

  lemma {:induction false} XorTop(a: nat, b: nat, k: nat)
    requires a < Pow2(k) <= b < Pow2(k + 1)
    ensures Xor(a, b) >= Pow2(k)
  {
    XorDigit(a, b);
    if k > 0 { XorTop(a / 2, b / 2, k - 1); }
  }

  /** The top bit of the register tells which way the last shift went. */
  lemma ShiftTop(e: nat)
    requires e <= ONES
    ensures Shift(e) <= ONES && (Shift(e) >= 0x8000_0000 <==> e % 2 == 1)
  {
    Pow2Words();
    XorBound(e / 2, POLY, 32);
    XorTop(e / 2, POLY, 31);
  }

  lemma ShiftInjective(x: nat, y: nat)
    requires x <= ONES && y <= ONES && Shift(x) == Shift(y)
    ensures x == y
  {
    ShiftTop(x);
    ShiftTop(y);
    if x % 2 == 1 { XorCancel(x / 2, y / 2, POLY); }
  }

  lemma FeedBound(c: nat, b: nat)
    requires c <= ONES && b < 2
    ensures Xor(c, b) <= ONES
  {
    Pow2Words();
    XorBound(c, b, 32);
  }

  /** Equal later bits never make two different registers meet. */
  lemma {:induction false} SerialInjective(c: nat, c': nat, s: seq<nat>)
    requires c <= ONES && c' <= ONES && IsBits(s) && Serial(c, s) == Serial(c', s)
    ensures c == c'
    decreases |s|
  {
    if s != [] {
      FeedBound(c, s[0]);
      FeedBound(c', s[0]);
      ShiftTop(Xor(c, s[0]));
      ShiftTop(Xor(c', s[0]));
      SerialInjective(Shift(Xor(c, s[0])), Shift(Xor(c', s[0])), s[1..]);
      ShiftInjective(Xor(c, s[0]), Xor(c', s[0]));
      XorCancel(c, c', s[0]);
    }
  }

  ghost function Pack(s: seq<nat>): nat {
    if s == [] then 0 else s[0] + 2 * Pack(s[1..])
  }

  lemma {:induction false} PackBound(s: seq<nat>)
    requires IsBits(s)
    ensures Pack(s) < Pow2(|s|)
    ensures Pack(s) == 0 ==> forall i :: 0 <= i < |s| ==> s[i] == 0
  {
    if s != [] {
      PackBound(s[1..]);
      assert forall i :: 0 < i < |s| ==> s[i] == s[1..][i - 1];
    }
  }

  /** Running backwards: at most 32 bits that clear the register spell out what it held. */
  lemma {:induction false} ClearedBy(d: nat, s: seq<nat>)
    requires d <= ONES && IsBits(s) && |s| <= 32 && Serial(d, s) == 0
    ensures d == Pack(s)
    decreases |s|
  {
    if s != [] {
      var e := Xor(d, s[0]);
      FeedBound(d, s[0]);
      ShiftTop(e);
      ClearedBy(Shift(e), s[1..]);
      PackBound(s[1..]);
      Pow2Words();
      if |s[1..]| < 31 { Pow2Grows(|s[1..]|, 31); }
      assert e == 2 * Pack(s[1..]);
      XorAssoc(d, s[0], s[0]);
      XorSelf(s[0]);
      XorZero(d);
      XorComm(e, s[0]);
      XorDisjoint(s[0], Pack(s[1..]));
    }
  }

  lemma WindowDiffers(d: nat, w: seq<nat>, w': seq<nat>)
    requires IsBits(w) && IsBits(w') && |w| == |w'| <= 32 && Serial(d, w) == Serial(d, w')
    ensures w == w'
  {
    SerialLinear(d, w, d, w');
    XorSelf(d);
    XorSelf(Serial(d, w));
    ClearedBy(0, Difference(w, w'));
    PackBound(Difference(w, w'));
    forall i | 0 <= i < |w|
      ensures w[i] == w'[i]
    {
      assert Difference(w, w')[i] == 0;
    }
  }

  /** BURST DETECTION, in bits: equal-length messages that differ only inside a window of at most
      32 consecutive bits never leave the same register. */
  lemma BurstDetected(c: nat, pre: seq<nat>, w: seq<nat>, w': seq<nat>, post: seq<nat>)
    requires c <= ONES && IsBits(pre) && IsBits(w) && IsBits(w') && IsBits(post)
    requires |w| == |w'| <= 32 && w != w'
    ensures Serial(c, pre + w + post) != Serial(c, pre + w' + post)
  {
    SerialAppend(c, pre + w, post);
    SerialAppend(c, pre, w);
    SerialAppend(c, pre + w', post);
    SerialAppend(c, pre, w');
    var d := Serial(c, pre);
    SerialBound(c, pre);
    SerialBound(d, w);
    SerialBound(d, w');
    if Serial(Serial(d, w), post) == Serial(Serial(d, w'), post) {
      SerialInjective(Serial(d, w), Serial(d, w'), post);
      WindowDiffers(d, w, w');
    }
  }

  lemma {:induction false} MessageAppend(a: seq<byte>, b: seq<byte>)
    ensures MessageBits(a + b) == MessageBits(a) + MessageBits(b)
    decreases |a|
  {
    if a == [] {
      assert a + b == b;
    } else {
      assert (a + b)[1..] == a[1..] + b;
      MessageAppend(a[1..], b);
    }
  }

  lemma {:induction false} BitsInjective(v: nat, w: nat, n: nat)
    requires v < Pow2(n) && w < Pow2(n) && BitsOf(v, n) == BitsOf(w, n)
    ensures v == w
  {
    if n > 0 {
      assert BitsOf(v, n)[0] == BitsOf(w, n)[0];
      assert BitsOf(v, n)[1..] == BitsOf(v / 2, n - 1) && BitsOf(w, n)[1..] == BitsOf(w / 2, n - 1);
      BitsInjective(v / 2, w / 2, n - 1);
    }
  }

  lemma {:induction false} MessageInjective(a: seq<byte>, b: seq<byte>)
    requires |a| == |b| && MessageBits(a) == MessageBits(b)
    ensures a == b
    decreases |a|
  {
    if a != [] {
      Pow2Words();
      assert BitsOf(a[0], 8) == MessageBits(a)[..8] == MessageBits(b)[..8] == BitsOf(b[0], 8);
      BitsInjective(a[0], b[0], 8);
      assert MessageBits(a[1..]) == MessageBits(a)[8..] == MessageBits(b)[8..] == MessageBits(b[1..]);
      MessageInjective(a[1..], b[1..]);
    }
  }

  /** BURST DETECTION, in bytes: different buffers of one length that agree outside four
      consecutive bytes have different checksums. */
  lemma CrcDetectsBurst(a: seq<byte>, b: seq<byte>, i: nat, n: nat)
    requires |a| == |b| && i + n <= |a| && n <= 4
    requires a[..i] == b[..i] && a[i + n..] == b[i + n..] && a != b
    ensures Crc32(a) != Crc32(b)
  {
    var pre, post := a[..i], a[i + n..];
    var w, w' := a[i..i + n], b[i..i + n];
    assert a == pre + w + post && b == pre + w' + post;
    MessageAppend(pre + w, post);
    MessageAppend(pre, w);
    MessageAppend(pre + w', post);
    MessageAppend(pre, w');
    if MessageBits(w) == MessageBits(w') { MessageInjective(w, w'); }
    BurstDetected(ONES, MessageBits(pre), MessageBits(w), MessageBits(w'), MessageBits(post));
    TableIsSerial(a);
    TableIsSerial(b);
  }

  /** The generator polynomial as message bits: its leading term, then `n` coefficients. */
  ghost function Generator(n: nat): seq<nat> { [1] + BitsOf(POLY, n) }

  /** A register fed with its own bits ends up empty. */
  lemma SelfClears(p: nat, n: nat)
    requires p < Pow2(n)
    ensures Serial(p, BitsOf(p, n)) == 0
  {
    WordIsSerial(p, p, n);
    XorSelf(p);
    ShiftsZero(n);
  }

  lemma GeneratorClears(p: nat, n: nat)
    requires p == POLY < Pow2(n)
    ensures Serial(0, [1] + BitsOf(p, n)) == 0
  {
    var s := [1] + BitsOf(p, n);
    assert s[1..] == BitsOf(p, n);
    assert Shift(1) == p by { XorComm(0, p); XorZero(p); }
    XorOfBits(0, 1);
    SelfClears(p, n);
  }

  /** The bound of 32 bits is exact: a change by the 33 bits of the generator is never seen. */
  lemma GeneratorUndetected(c: nat, s: seq<nat>, post: seq<nat>)
    requires |s| == 33 && IsBits(s)
    ensures Serial(c, s + post) == Serial(c, Difference(s, Generator(|s| - 1)) + post)
    ensures s != Difference(s, Generator(|s| - 1))
  {
    var g := Generator(|s| - 1);
    var t := Difference(s, g);
    DifferenceTwice(s, g);
    assert t[0] != s[0];
    assert Serial(c, s) == Serial(c, t) by {
      Pow2Words();
      GeneratorClears(POLY, |s| - 1);
      ClearedDifference(c, s, t);
    }
    SerialAppend(c, s, post);
    SerialAppend(c, t, post);
  }

  /** The generator as bytes: 33 bits and seven zeros. */
  const GENERATOR_BYTES: seq<byte> := [0x41, 0x06, 0x71, 0xDB, 0x01]

  /** The low `k` bytes of a word, least significant first. */
  function LowBytes(v: nat, k: nat): seq<byte> { if k == 0 then [] else [v % 256] + LowBytes(v / 256, k - 1) }

  lemma {:induction false} BitsSplit(v: nat, k: nat, n: nat)
    ensures BitsOf(v, k + n) == BitsOf(v, k) + BitsOf(ShiftRight(v, k), n)
  {
    if k > 0 { BitsSplit(v / 2, k - 1, n); }
  }

  lemma {:induction false} BitsLow(l: nat, h: nat, n: nat)
    ensures BitsOf(l + Up(h, n), n) == BitsOf(l, n)
  {
    if n > 0 {
      BitsLow(l / 2, h, n - 1);
      assert (l + Up(h, n)) / 2 == l / 2 + Up(h, n - 1);
    }
  }

  lemma FirstByteBits(v: nat, n: nat)
    ensures BitsOf(v, 8 + n) == BitsOf(v % 256, 8) + BitsOf(v / 256, n)
  {
    BitsSplit(v, 8, n);
    ShiftRight8(v);
    assert BitsOf(v, 8) == BitsOf(v % 256, 8) by {
      BitsLow(v % 256, v / 256, 8);
      Up8(v / 256);
    }
  }

  lemma {:induction false} LowBytesBits(v: nat, k: nat)
    ensures MessageBits(LowBytes(v, k)) == BitsOf(v, 8 * k)
  {
    if k > 0 {
      var rest := LowBytes(v / 256, k - 1);
      LowBytesBits(v / 256, k - 1);
      FirstByteBits(v, 8 * (k - 1));
      assert ([v % 256] + rest)[1..] == rest;
    }
  }

  /** Start and final value: no bytes have CRC zero, and four bytes of ones, which clear a register of ones, have
      the CRC of all ones. */
  lemma StartAndEnd()
    ensures Crc32([]) == 0 && Crc32([0xFF, 0xFF, 0xFF, 0xFF]) == 0xFFFF_FFFF
  {
    var ones: seq<byte> := [0xFF, 0xFF, 0xFF, 0xFF];
    assert LowBytes(ONES, 4) == ones;
    LowBytesBits(ONES, 4);
    Pow2Words();
    SelfClears(ONES, 32);
    TableIsSerial(ones);
  }

  lemma GeneratorBits(p: nat)
    requires p == POLY
    ensures MessageBits(GENERATOR_BYTES) == [1] + BitsOf(p, 39)
  {
    var v := 2 * p + 1;
    assert LowBytes(0x1DB710641, 5) == GENERATOR_BYTES;
    LowBytesBits(v, 5);
    assert BitsOf(v, 40) == [1] + BitsOf(p, 39);
  }

  function XorByte(a: byte, b: byte): byte {
    XorBound(a, b, 8);
    assert Pow2(8) == 0x100;
    Xor(a, b)
  }

  function XorBytes(a: seq<byte>, g: seq<byte>): (b: seq<byte>)
    requires |a| == |g|
    ensures |b| == |a|
  {
    if a == [] then [] else [XorByte(a[0], g[0])] + XorBytes(a[1..], g[1..])
  }

  lemma {:induction false} BitsOfXor(v: nat, w: nat, n: nat)
    ensures Difference(BitsOf(v, n), BitsOf(Xor(v, w), n)) == BitsOf(w, n)
  {
    if n > 0 {
      BitsOfXor(v / 2, w / 2, n - 1);
      XorDigit(v, w);
      var d := Difference(BitsOf(v, n), BitsOf(Xor(v, w), n));
      var r := Difference(BitsOf(v / 2, n - 1), BitsOf(Xor(v / 2, w / 2), n - 1));
      assert d[0] == w % 2;
      forall i | 0 < i < n
        ensures d[i] == r[i - 1]
      {
      }
    }
  }

  lemma DifferenceAppend(s: seq<nat>, t: seq<nat>, s': seq<nat>, t': seq<nat>)
    requires |s| == |s'| && |t| == |t'|
    ensures Difference(s + t, s' + t') == Difference(s, s') + Difference(t, t')
  {
  }

  lemma {:induction false} MessageXor(a: seq<byte>, g: seq<byte>)
    requires |a| == |g|
    ensures Difference(MessageBits(a), MessageBits(XorBytes(a, g))) == MessageBits(g)
    decreases |a|
  {
    if a != [] {
      var b := XorBytes(a, g);
      assert b[1..] == XorBytes(a[1..], g[1..]);
      MessageXor(a[1..], g[1..]);
      BitsOfXor(a[0], g[0], 8);
      DifferenceAppend(BitsOf(a[0], 8), MessageBits(a[1..]), BitsOf(b[0], 8), MessageBits(b[1..]));
    }
  }

  /** Equal registers before and a cleared difference: equal registers after. */
  lemma ClearedDifference(c: nat, s: seq<nat>, t: seq<nat>)
    requires |s| == |t| && IsBits(s) && IsBits(t) && Serial(0, Difference(s, t)) == 0
    ensures Serial(c, s) == Serial(c, t)
  {
    SerialLinear(c, s, c, t);
    XorSelf(c);
    XorSelf(Serial(c, t));
    XorCancel(Serial(c, s), Serial(c, t), Serial(c, t));
  }

  /** FIVE BYTES ARE TOO MANY: any five bytes of any buffer can be replaced by others without a change of the CRC. */
  lemma FiveBytesUndetected(pre: seq<byte>, a: seq<byte>, post: seq<byte>)
    requires |a| == 5
    ensures var b := XorBytes(a, GENERATOR_BYTES); b != a && |b| == 5 && Crc32(pre + a + post) == Crc32(pre + b + post)
  {
    var b := XorBytes(a, GENERATOR_BYTES);
    MessageXor(a, GENERATOR_BYTES);
    var p := POLY;
    GeneratorBits(p);
    assert p < Pow2(39) by { Pow2Words(); Pow2Grows(32, 39); }
    GeneratorClears(p, 39);
    assert Difference(MessageBits(a), MessageBits(b))[0] == 1;
    assert MessageBits(a)[0] != MessageBits(b)[0];
    CrcOfMiddle(pre, a, post);
    CrcOfMiddle(pre, b, post);
    ClearedDifference(Serial(ONES, MessageBits(pre)), MessageBits(a), MessageBits(b));
  }

  lemma CrcOfMiddle(pre: seq<byte>, a: seq<byte>, post: seq<byte>)
    ensures var c := Serial(ONES, MessageBits(pre));
            Crc32(pre + a + post) == ONES - Serial(Serial(c, MessageBits(a)), MessageBits(post))
  {
    TableIsSerial(pre + a + post);
    MessageAppend(pre + a, post);
    MessageAppend(pre, a);
    SerialAppend(ONES, MessageBits(pre) + MessageBits(a), MessageBits(post));
    SerialAppend(ONES, MessageBits(pre), MessageBits(a));
  }

  lemma {:induction false} ShiftsZero(n: nat)
    ensures Shifts(0, n) == 0
  {
    if n > 0 { ShiftsZero(n - 1); }
  }
}
