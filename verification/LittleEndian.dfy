/** Little-endian byte encoding of fixed-width words. */
module LittleEndian {
  import opened Bits
  import opened Common

  function Width(n: nat): (w: nat)
    ensures w >= 1
  {
    if n == 0 then 1 else 256 * Width(n - 1)
  }

  function ToBytes(v: nat, n: nat): (s: seq<byte>)
    ensures |s| == n
  {
    if n == 0 then [] else [v % 256] + ToBytes(v / 256, n - 1)
  }

  function FromBytes(s: seq<byte>): nat {
    if s == [] then 0 else s[0] + 256 * FromBytes(s[1..])
  }

  lemma WidthOfWord()
    ensures Width(8) == U64
  {
    assert Width(4) == 0x1_0000_0000;
  }

  lemma {:induction false} DecodeEncode(v: nat, n: nat)
    requires v < Width(n)
    ensures FromBytes(ToBytes(v, n)) == v
  {
    if n > 0 {
      DecodeEncode(v / 256, n - 1);
      assert ToBytes(v, n)[1..] == ToBytes(v / 256, n - 1);
    }
  }

  lemma {:induction false} EncodeDecode(s: seq<byte>)
    ensures FromBytes(s) < Width(|s|) && ToBytes(FromBytes(s), |s|) == s
  {
    if s != [] {
      var v := FromBytes(s[1..]);
      EncodeDecode(s[1..]);
      assert (s[0] + 256 * v) % 256 == s[0] && (s[0] + 256 * v) / 256 == v;
    }
  }

  /** A record of words, one after the other. */
  function ManyToBytes(ws: seq<nat>, n: nat): (s: seq<byte>)
    ensures |s| == n * |ws|
  {
    if ws == [] then [] else ToBytes(ws[0], n) + ManyToBytes(ws[1..], n)
  }

  function ManyFromBytes(s: seq<byte>, n: nat, k: nat): (ws: seq<nat>)
    requires |s| == n * k
    ensures |ws| == k
  {
    if k == 0 then []
    else
      assert n * k == n + n * (k - 1);
      [FromBytes(s[..n])] + ManyFromBytes(s[n..], n, k - 1)
  }

  lemma {:induction false} ManyDecodeEncode(ws: seq<nat>, n: nat)
    requires forall i :: 0 <= i < |ws| ==> ws[i] < Width(n)
    ensures ManyFromBytes(ManyToBytes(ws, n), n, |ws|) == ws
  {
    if ws != [] {
      DecodeEncode(ws[0], n);
      ManyDecodeEncode(ws[1..], n);
      assert ManyToBytes(ws, n)[..n] == ToBytes(ws[0], n);
      assert ManyToBytes(ws, n)[n..] == ManyToBytes(ws[1..], n);
    }
  }

  lemma {:induction false} ManyEncodeDecode(s: seq<byte>, n: nat, k: nat)
    requires |s| == n * k
    ensures ManyToBytes(ManyFromBytes(s, n, k), n) == s
    ensures forall i :: 0 <= i < k ==> ManyFromBytes(s, n, k)[i] < Width(n)
  {
    if k > 0 {
      assert n * k == n + n * (k - 1);
      EncodeDecode(s[..n]);
      ManyEncodeDecode(s[n..], n, k - 1);
      assert s == s[..n] + s[n..];
      assert ManyFromBytes(s, n, k)[1..] == ManyFromBytes(s[n..], n, k - 1);
    }
  }
}
