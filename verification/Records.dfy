/** The fixed-size records of `auth.db` and `perms.db`. */
module Records {
  import opened Bits
  import opened Common
  import opened LittleEndian

  const PATH_MAX: nat := 64
  const AUTH_SIZE: nat := 53
  const PERMS_SIZE: nat := 76
  const CLEAN: byte := 0
  const DIRTY: byte := 1

  type U32 = x: nat | x < 0x1_0000_0000

  type Bytes16 = s: seq<byte> | |s| == 16 witness [0, 0, 0, 0, 0, 0, 0, 0, 0, 0, 0, 0, 0, 0, 0, 0]

  type Bytes32 = s: seq<byte> | |s| == 32 witness seq(32, _ => 0)

  datatype AuthEntry = AuthEntry(uid: U32, salt: Bytes16, hash: Bytes32)

  datatype PermEntry = PermEntry(uid: U32, gid: U32, owner: byte, group: byte, world: byte)

  /** A path is its UTF-8 bytes. */
  type Path = seq<byte>

  lemma DecodeU32(s: seq<byte>)
    requires |s| == 4
    ensures FromBytes(s) < 0x1_0000_0000
  {
    EncodeDecode(s);
    assert Width(4) == 0x1_0000_0000;
  }

  lemma U32RoundTrip(x: U32)
    ensures FromBytes(ToBytes(x, 4)) == x
  {
    assert Width(4) == 0x1_0000_0000;
    DecodeEncode(x, 4);
  }

  function U32At(s: seq<byte>): U32
    requires |s| == 4
  {
    DecodeU32(s);
    FromBytes(s)
  }

  // ---------------------------------------------------------------- auth records

  function EncodeAuth(status: byte, e: AuthEntry): (s: seq<byte>)
    ensures |s| == AUTH_SIZE
  {
    [status] + ToBytes(e.uid, 4) + e.salt + e.hash
  }

  function DecodeAuth(s: seq<byte>): (byte, AuthEntry)
    requires |s| == AUTH_SIZE
  {
    (s[0], AuthEntry(U32At(s[1..5]), s[5..21], s[21..53]))
  }

  lemma AuthRoundTrip(status: byte, e: AuthEntry)
    ensures DecodeAuth(EncodeAuth(status, e)) == (status, e)
  {
    var s := EncodeAuth(status, e);
    U32RoundTrip(e.uid);
    assert s[1..5] == ToBytes(e.uid, 4) && s[5..21] == e.salt && s[21..53] == e.hash;
  }

  /** Where the fields of a record of 53 bytes lie: status, uid, 16 bytes of salt, 32 of hash. */
  lemma AuthLayout(status: byte, e: AuthEntry)
    ensures var s := EncodeAuth(status, e);
            |s| == 53 && s[0] == status && FromBytes(s[1..5]) == e.uid && s[5..21] == e.salt && s[21..53] == e.hash
  {
    AuthRoundTrip(status, e);
  }

  // ---------------------------------------------------------------- UTF-8

  predicate Cont(b: byte) { 0x80 <= b <= 0xBF }

  /** Length of the well-formed character at the front, or zero (table 3-7 of the Unicode Standard). */
  function CharLength(s: seq<byte>): (n: nat)
    ensures n <= |s|
  {
    if |s| >= 1 && s[0] < 0x80 then 1
    else if |s| >= 2 && 0xC2 <= s[0] <= 0xDF && Cont(s[1]) then 2
    else if |s| >= 3 && Cont(s[2]) &&
            ((s[0] == 0xE0 && 0xA0 <= s[1] <= 0xBF)
             || ((0xE1 <= s[0] <= 0xEC || 0xEE <= s[0] <= 0xEF) && Cont(s[1]))
             || (s[0] == 0xED && 0x80 <= s[1] <= 0x9F)) then 3
    else if |s| >= 4 && Cont(s[2]) && Cont(s[3]) &&
            ((s[0] == 0xF0 && 0x90 <= s[1] <= 0xBF)
             || (0xF1 <= s[0] <= 0xF3 && Cont(s[1]))
             || (s[0] == 0xF4 && 0x80 <= s[1] <= 0x8F)) then 4
    else 0
  }

  predicate Utf8(s: seq<byte>) {
    s == [] || (CharLength(s) > 0 && Utf8(s[CharLength(s)..]))
  }

  // ---------------------------------------------------------------- perms records

  function EncodePath(path: Path): (s: seq<byte>)
    ensures |s| == PATH_MAX
  {
    var n := if |path| < PATH_MAX then |path| else PATH_MAX;
    path[..n] + ZeroBytes(PATH_MAX - n)
  }

  /** Index of the first NUL, or the length. */
  function FirstNul(s: seq<byte>): (n: nat)
    ensures n <= |s| && (n < |s| ==> s[n] == 0) && forall i :: 0 <= i < n ==> s[i] != 0
  {
    if s == [] then 0 else if s[0] == 0 then 0 else 1 + FirstNul(s[1..])
  }

  function DecodePath(s: seq<byte>): Path {
    var raw := s[..FirstNul(s)];
    if Utf8(raw) then raw else []
  }

  function EncodePerms(status: byte, path: Path, e: PermEntry): (s: seq<byte>)
    ensures |s| == PERMS_SIZE
  {
    [status] + EncodePath(path) + ToBytes(e.uid, 4) + ToBytes(e.gid, 4) + [e.owner, e.group, e.world]
  }

  function DecodePerms(s: seq<byte>): (byte, Path, PermEntry)
    requires |s| == PERMS_SIZE
  {
    (s[0], DecodePath(s[1..65]), PermEntry(U32At(s[65..69]), U32At(s[69..73]), s[73], s[74], s[75]))
  }

  /** Where the fields of a record of 76 bytes lie: status, path padded with zeros, uid, gid, three permission bytes. */
  lemma PermsLayout(status: byte, path: Path, e: PermEntry)
    ensures var s, n := EncodePerms(status, path, e), Min(|path|, 64);
            && |s| == 76 && s[0] == status && s[1..1 + n] == path[..n] && (forall i :: 1 + n <= i < 65 ==> s[i] == 0)
            && FromBytes(s[65..69]) == e.uid && FromBytes(s[69..73]) == e.gid
            && s[73] == e.owner && s[74] == e.group && s[75] == e.world
  {
    var s := EncodePerms(status, path, e);
    U32RoundTrip(e.uid);
    U32RoundTrip(e.gid);
    var padded, n := EncodePath(path), Min(|path|, 64);
    assert s[1..65] == padded && s[65..69] == ToBytes(e.uid, 4) && s[69..73] == ToBytes(e.gid, 4);
    assert forall i :: 1 <= i < 65 ==> s[i] == padded[i - 1];
    assert s[1..1 + n] == padded[..n] == path[..n];
  }

  /** Paths the file can hold. */
  ghost predicate Storable(path: Path) {
    Utf8(path) && |path| <= PATH_MAX && forall i :: 0 <= i < |path| ==> path[i] != 0
  }

  lemma DecodedIsStorable(s: seq<byte>)
    requires |s| == PATH_MAX
    ensures Storable(DecodePath(s))
  {
  }

  lemma PathRoundTrip(path: Path)
    requires Storable(path)
    ensures DecodePath(EncodePath(path)) == path
  {
    var s := EncodePath(path);
    assert s[..|path|] == path;
    assert forall i :: 0 <= i < |path| ==> s[i] == path[i];
    if |path| < PATH_MAX { assert s[|path|] == 0; }
  }

  /** A valid path survives the record exactly when it has at most 64 bytes and no NUL. */
  lemma PathSurvivesIff(path: Path)
    requires Utf8(path)
    ensures DecodePath(EncodePath(path)) == path <==> |path| <= PATH_MAX && forall i :: 0 <= i < |path| ==> path[i] != 0
  {
    DecodedIsStorable(EncodePath(path));
    if Storable(path) { PathRoundTrip(path); }
  }

  lemma PermsRoundTrip(status: byte, path: Path, e: PermEntry)
    requires Storable(path)
    ensures DecodePerms(EncodePerms(status, path, e)) == (status, path, e)
  {
    var s := EncodePerms(status, path, e);
    PathRoundTrip(path);
    U32RoundTrip(e.uid);
    U32RoundTrip(e.gid);
    assert s[1..65] == EncodePath(path) && s[65..69] == ToBytes(e.uid, 4) && s[69..73] == ToBytes(e.gid, 4);
  }
}
