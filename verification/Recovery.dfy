/** Boot-time loading and repair of the two record files. */
module Recovery {
  import opened Bits
  import opened Common
  import opened Records

  // ---------------------------------------------------------------- files and chunked reads

  class ByteFile {
    var data: seq<byte>
    var pos: nat
    /** Reads may fail. */
    const faulty: bool

    constructor (data: seq<byte>, faulty: bool)
      ensures this.data == data && pos == 0 && this.faulty == faulty
    {
      this.data := data;
      this.faulty := faulty;
      pos := 0;
    }

    ghost function Rest(): seq<byte>
      requires pos <= |data|
      reads this
    {
      data[pos..]
    }

    /** Any chunking: some bytes, but none only at the end of the file; a faulty file may refuse. */
    method Read(want: nat) returns (ok: bool, s: seq<byte>)
      requires pos <= |data|
      modifies this`pos
      ensures pos <= |data| && old(Rest()) == s + Rest() && |s| <= want
      ensures ok ==> (s == [] <==> want == 0 || old(Rest()) == [])
      ensures !ok ==> faulty && s == []
    {
      ok :| ok || faulty;
      s := [];
      if ok {
        var most := Min(want, |data| - pos);
        var n :| 0 <= n <= most && (n == 0 <==> most == 0);
        s := data[pos..pos + n];
        pos := pos + n;
      }
    }

    method WriteAll(s: seq<byte>)
      requires pos <= |data|
      modifies this
      ensures pos == old(pos) + |s| && pos <= |data|
      ensures data[..pos] == old(data[..pos]) + s
      ensures data[pos..] == if pos <= |old(data)| then old(data)[pos..] else []
    {
      data := data[..pos] + s + if pos + |s| <= |data| then data[pos + |s|..] else [];
      pos := pos + |s|;
    }

    method Truncate()
      requires pos <= |data|
      modifies this`data
      ensures data == old(data)[..pos]
    {
      data := data[..pos];
    }
  }

  datatype ReadResult = Full(bytes: seq<byte>) | AtEof | Torn | Failed

  lemma SplitAt(s: seq<byte>, t: seq<byte>)
    ensures (s + t)[..|s|] == s && (s + t)[|s|..] == t
  {
  }

  /** Reads one record, however the file hands out its bytes. */
  method ReadExactOrEof(file: ByteFile, size: nat) returns (r: ReadResult)
    requires file.pos <= |file.data| && size > 0
    modifies file`pos
    ensures file.pos <= |file.data|
    ensures !r.Failed? ==> r == (if old(file.Rest()) == [] then AtEof
                                 else if |old(file.Rest())| < size then Torn
                                 else Full(old(file.Rest())[..size]))
    ensures r.Full? ==> file.Rest() == old(file.Rest())[size..]
    ensures r.Failed? ==> file.faulty
  {
    var got: seq<byte> := [];
    ghost var all := file.Rest();
    while |got| < size
      invariant file.pos <= |file.data| && |got| <= size
      invariant all == got + file.Rest()
      decreases size - |got|
    {
      var ok, s := file.Read(size - |got|);
      if !ok { return Failed; }
      if s == [] { return if got == [] then AtEof else Torn; }
      Regroup(got, s, file.Rest());
      got := got + s;
    }
    SplitAt(got, file.Rest());
    return Full(got);
  }

  // ---------------------------------------------------------------- tables from records

  datatype Rec<K, V> = Rec(dirty: bool, key: K, value: V)

  function Entered<K, V>(table: map<K, V>, r: Rec<K, V>): map<K, V> {
    if r.dirty then table else table[r.key := r.value]
  }

  /** Clean records overwrite, dirty ones are skipped and reported. */
  function Fold<K, V>(recs: seq<Rec<K, V>>, table: map<K, V>, dirty: bool): (map<K, V>, bool)
    decreases |recs|
  {
    if recs == [] then (table, dirty) else Fold(recs[1..], Entered(table, recs[0]), dirty || recs[0].dirty)
  }

  function CleanRecs<K, V>(table: map<K, V>, order: seq<K>): (recs: seq<Rec<K, V>>)
    requires forall i :: 0 <= i < |order| ==> order[i] in table
  {
    if order == [] then [] else [Rec(false, order[0], table[order[0]])] + CleanRecs(table, order[1..])
  }

  lemma {:induction false} FoldKeeps<K, V>(recs: seq<Rec<K, V>>, table: map<K, V>, dirty: bool)
    ensures table.Keys <= Fold(recs, table, dirty).0.Keys
    decreases |recs|
  {
    if recs != [] {
      FoldKeeps(recs[1..], Entered(table, recs[0]), dirty || recs[0].dirty);
    }
  }

  /** Writing out a table and folding it back over a smaller one gives the table. */
  lemma {:induction false} FoldClean<K, V>(table: map<K, V>, order: seq<K>, base: map<K, V>)
    requires forall i :: 0 <= i < |order| ==> order[i] in table
    requires base.Keys <= table.Keys
    requires forall k :: k in table ==> k in order || (k in base && base[k] == table[k])
    ensures Fold(CleanRecs(table, order), base, false) == (table, false)
    decreases |order|
  {
    if order == [] {
      assert base == table;
    } else {
      var k := order[0];
      var base' := base[k := table[k]];
      assert forall x :: x in table && x !in order[1..] ==> x in base' && base'[x] == table[x];
      FoldClean(table, order[1..], base');
      assert CleanRecs(table, order)[1..] == CleanRecs(table, order[1..]);
    }
  }

  lemma {:induction false} FoldAppend<K, V>(a: seq<Rec<K, V>>, b: seq<Rec<K, V>>, table: map<K, V>, dirty: bool)
    ensures Fold(a + b, table, dirty) == var (t, d) := Fold(a, table, dirty); Fold(b, t, d)
    decreases |a|
  {
    if a == [] {
      assert a + b == b;
    } else {
      assert (a + b)[1..] == a[1..] + b;
      FoldAppend(a[1..], b, Entered(table, a[0]), dirty || a[0].dirty);
    }
  }

  lemma FoldNext<K, V>(recs: seq<Rec<K, V>>, k: nat, table: map<K, V>)
    requires k < |recs|
    ensures var (t, d) := Fold(recs[..k], table, false);
            Fold(recs[..k + 1], table, false) == (Entered(t, recs[k]), d || recs[k].dirty)
  {
    assert recs[..k + 1] == recs[..k] + [recs[k]];
    FoldAppend(recs[..k], [recs[k]], table, false);
    assert [recs[k]][1..] == [];
  }

  /** `t` is what the first records of the file give, up to where a read failed. */
  ghost predicate CutShort<K, V>(recs: seq<Rec<K, V>>, table: map<K, V>, t: map<K, V>) {
    exists k :: 0 <= k <= |recs| && t == Fold(recs[..k], table, false).0
  }

  /** No clean record carries the key. */
  ghost predicate NoClean<K, V>(recs: seq<Rec<K, V>>, k: K) {
    forall i :: 0 <= i < |recs| ==> recs[i].dirty || recs[i].key != k
  }

  lemma {:induction false} FoldAbsent<K, V>(recs: seq<Rec<K, V>>, table: map<K, V>, dirty: bool, k: K)
    requires NoClean(recs, k)
    ensures var t := Fold(recs, table, dirty).0; (k in t <==> k in table) && (k in t ==> t[k] == table[k])
    decreases |recs|
  {
    if recs != [] {
      assert NoClean(recs[1..], k);
      FoldAbsent(recs[1..], Entered(table, recs[0]), dirty || recs[0].dirty, k);
    }
  }

  /** What a load keeps of a key: the value of its last clean record. */
  lemma {:induction false} FoldLast<K, V>(recs: seq<Rec<K, V>>, table: map<K, V>, dirty: bool, k: K, i: nat)
    requires i < |recs| && !recs[i].dirty && recs[i].key == k && NoClean(recs[i + 1..], k)
    ensures var t := Fold(recs, table, dirty).0; k in t && t[k] == recs[i].value
    decreases |recs|
  {
    var rest, table' := recs[1..], Entered(table, recs[0]);
    if i == 0 {
      FoldAbsent(rest, table', dirty || recs[0].dirty, k);
    } else {
      assert rest[i..] == recs[i + 1..];
      FoldLast(rest, table', dirty || recs[0].dirty, k, i - 1);
    }
  }

  /** Dirt is reported exactly when there is some. */
  lemma {:induction false} FoldReports<K, V>(recs: seq<Rec<K, V>>, table: map<K, V>, dirty: bool)
    ensures Fold(recs, table, dirty).1 <==> dirty || exists i :: 0 <= i < |recs| && recs[i].dirty
    decreases |recs|
  {
    if recs != [] {
      var rest := recs[1..];
      FoldReports(rest, Entered(table, recs[0]), dirty || recs[0].dirty);
      if i :| 0 <= i < |recs| && recs[i].dirty {
        assert i > 0 ==> rest[i - 1].dirty;
      }
    }
  }

  /** A tail is torn exactly when the length is no multiple of the record size. */
  lemma {:induction false} TornIff(data: seq<byte>, size: nat)
    requires size > 0
    ensures TornTail(data, size) <==> |data| % size != 0
    decreases |data|
  {
    if |data| < size {
      DivModUnique(|data|, size, 0, |data|);
    } else {
      TornIff(data[size..], size);
      var n := |data| - size;
      assert n == size * (n / size) + n % size;
      assert size * (n / size + 1) == size * (n / size) + size;
      DivModUnique(|data|, size, n / size + 1, n % size);
    }
  }

  // ---------------------------------------------------------------- records in a file

  /** The records of a file, whatever a record means. */
  function RecordsBy<R>(decode: seq<byte> -> R, size: nat, data: seq<byte>): seq<R>
    requires size > 0
    decreases |data|
  {
    if |data| < size then [] else [decode(data[..size])] + RecordsBy(decode, size, data[size..])
  }

  lemma {:induction false} RecordsAppend<R>(decode: seq<byte> -> R, size: nat, data: seq<byte>, x: seq<byte>)
    requires size > 0 && !TornTail(data, size)
    ensures RecordsBy(decode, size, data + x) == RecordsBy(decode, size, data) + RecordsBy(decode, size, x)
    decreases |data|
  {
    if data == [] {
      assert data + x == x;
    } else {
      var rest, first := data[size..], [decode(data[..size])];
      RecordsAppend(decode, size, rest, x);
      assert (data + x)[..size] == data[..size] && (data + x)[size..] == rest + x;
      Regroup(first, RecordsBy(decode, size, rest), RecordsBy(decode, size, x));
    }
  }

  /** Record `i` is what the `i`-th stretch of `size` bytes says. */
  lemma {:induction false} RecordAt<R>(decode: seq<byte> -> R, size: nat, data: seq<byte>, i: nat)
    requires size > 0
    ensures i < |RecordsBy(decode, size, data)| <==> size * i + size <= |data|
    ensures size * i + size <= |data| ==> RecordsBy(decode, size, data)[i] == decode(data[size * i..size * i + size])
    decreases i
  {
    if |data| < size {
      assert size * i >= 0;
    } else if i > 0 {
      var rest := data[size..];
      RecordAt(decode, size, rest, i - 1);
      assert size * i == size * (i - 1) + size;
      if size * i + size <= |data| {
        assert rest[size * (i - 1)..size * (i - 1) + size] == data[size * i..size * i + size];
      }
    }
  }

  /** A tail shorter than a record stops the load and counts as dirt. */
  function TornTail(data: seq<byte>, size: nat): bool
    requires size > 0
    decreases |data|
  {
    if |data| < size then data != [] else TornTail(data[size..], size)
  }

  lemma {:induction false} TornAppend(data: seq<byte>, x: seq<byte>, size: nat)
    requires size > 0 && !TornTail(data, size)
    ensures TornTail(data + x, size) == TornTail(x, size)
    decreases |data|
  {
    if data == [] {
      assert data + x == x;
    } else {
      assert (data + x)[size..] == data[size..] + x;
      TornAppend(data[size..], x, size);
    }
  }

  /** The next record of the rest of a file is the next of its records. */
  lemma NextRecord<K, V>(decode: seq<byte> -> Rec<K, V>, size: nat, rest: seq<byte>,
                         recs: seq<Rec<K, V>>, k: nat, table: map<K, V>)
    requires 0 < size <= |rest| && k <= |recs| && RecordsBy(decode, size, rest) == recs[k..]
    ensures k < |recs| && recs[k] == decode(rest[..size]) && RecordsBy(decode, size, rest[size..]) == recs[k + 1..]
    ensures TornTail(rest[size..], size) == TornTail(rest, size)
    ensures var (t, d) := Fold(recs[..k], table, false);
            Fold(recs[..k + 1], table, false) == (Entered(t, recs[k]), d || recs[k].dirty)
  {
    assert recs[k] == recs[k..][0] && recs[k..][1..] == recs[k + 1..];
    FoldNext(recs, k, table);
  }

  /** What is left of a file behind its first `j` records. */
  function Skip(data: seq<byte>, size: nat, j: nat): seq<byte> {
    if j == 0 then data
    else
      var rest := Skip(data, size, j - 1);
      if size <= |rest| then rest[size..] else []
  }

  // ---------------------------------------------------------------- auth.db

  /** What a record of the file says; only strings of its size are records. */
  function AuthRec(s: seq<byte>): Rec<U32, AuthEntry> {
    var (status, e) := DecodeAuth(if |s| == AUTH_SIZE then s else ZeroBytes(AUTH_SIZE));
    Rec(status == DIRTY, e.uid, e)
  }

  function AuthRecs(data: seq<byte>): seq<Rec<U32, AuthEntry>> { RecordsBy(AuthRec, AUTH_SIZE, data) }

  function LoadAuth(data: seq<byte>, table: map<U32, AuthEntry>): (map<U32, AuthEntry>, bool) {
    var (t, d) := Fold(AuthRecs(data), table, false);
    (t, d || TornTail(data, AUTH_SIZE))
  }

  /** Dirt in `auth.db`, in terms of its bytes: a length that is no multiple of 53, or a record that starts with 1. */
  lemma AuthReports(data: seq<byte>, table: map<U32, AuthEntry>)
    ensures LoadAuth(data, table).1 <==>
            |data| % 53 != 0 || exists i: nat :: 53 * i + 53 <= |data| && data[53 * i] == 1
  {
    var recs := AuthRecs(data);
    FoldReports(recs, table, false);
    TornIff(data, AUTH_SIZE);
    forall i: nat
      ensures i < |recs| <==> 53 * i + 53 <= |data|
      ensures i < |recs| ==> (recs[i].dirty <==> data[53 * i] == 1)
    {
      RecordAt(AuthRec, AUTH_SIZE, data, i);
    }
  }

  function AuthFile(table: map<U32, AuthEntry>, order: seq<U32>): seq<byte>
    requires forall i :: 0 <= i < |order| ==> order[i] in table
  {
    if order == [] then [] else EncodeAuth(CLEAN, table[order[0]]) + AuthFile(table, order[1..])
  }

  ghost predicate KeyedByUid(table: map<U32, AuthEntry>) { forall k :: k in table ==> table[k].uid == k }

  lemma {:induction false} AuthFileReads(table: map<U32, AuthEntry>, order: seq<U32>)
    requires KeyedByUid(table) && forall i :: 0 <= i < |order| ==> order[i] in table
    ensures AuthRecs(AuthFile(table, order)) == CleanRecs(table, order)
    ensures !TornTail(AuthFile(table, order), AUTH_SIZE)
  {
    if order != [] {
      var s, rest := EncodeAuth(CLEAN, table[order[0]]), AuthFile(table, order[1..]);
      AuthFileReads(table, order[1..]);
      AuthRoundTrip(CLEAN, table[order[0]]);
      assert (s + rest)[..AUTH_SIZE] == s && (s + rest)[AUTH_SIZE..] == rest;
    }
  }

  lemma {:induction false} FoldKeyed(recs: seq<Rec<U32, AuthEntry>>, table: map<U32, AuthEntry>, dirty: bool)
    requires KeyedByUid(table) && forall i :: 0 <= i < |recs| ==> recs[i].value.uid == recs[i].key
    ensures KeyedByUid(Fold(recs, table, dirty).0)
    decreases |recs|
  {
    if recs != [] {
      FoldKeyed(recs[1..], Entered(table, recs[0]), dirty || recs[0].dirty);
    }
  }

  lemma {:induction false} AuthRecsKeyed(data: seq<byte>)
    ensures forall i :: 0 <= i < |AuthRecs(data)| ==> AuthRecs(data)[i].value.uid == AuthRecs(data)[i].key
    decreases |data|
  {
    if |data| >= AUTH_SIZE {
      AuthRecsKeyed(data[AUTH_SIZE..]);
      assert AuthRecs(data) == [AuthRec(data[..AUTH_SIZE])] + AuthRecs(data[AUTH_SIZE..]);
    }
  }

  /** What boot leaves in the file: repaired if dirt was found, in any order of the table. */
  function AuthAfterBoot(data: seq<byte>, table: map<U32, AuthEntry>, order: seq<U32>): seq<byte>
    requires forall i :: 0 <= i < |order| ==> order[i] in LoadAuth(data, table).0
  {
    if LoadAuth(data, table).1 then AuthFile(LoadAuth(data, table).0, order) else data
  }

  /** A repaired file loads back to the table it was written from. */
  lemma AuthRepairLoads(recs: seq<Rec<U32, AuthEntry>>, table: map<U32, AuthEntry>, order: seq<U32>)
    requires KeyedByUid(table) && forall i :: 0 <= i < |recs| ==> recs[i].value.uid == recs[i].key
    requires forall k :: k in order <==> k in Fold(recs, table, false).0
    ensures var t := Fold(recs, table, false).0; LoadAuth(AuthFile(t, order), table) == (t, false)
  {
    var t := Fold(recs, table, false).0;
    FoldKeeps(recs, table, false);
    FoldKeyed(recs, table, false);
    AuthFileReads(t, order);
    FoldClean(t, order, table);
  }

  /** RECOVERY IS A FIXED POINT: whatever bytes the file held, the next load gives the same table
      and finds no dirt. */
  lemma AuthRecoveryFixedPoint(data: seq<byte>, table: map<U32, AuthEntry>, order: seq<U32>)
    requires KeyedByUid(table)
    requires forall k :: k in order <==> k in LoadAuth(data, table).0
    ensures LoadAuth(AuthAfterBoot(data, table, order), table) == (LoadAuth(data, table).0, false)
  {
    if LoadAuth(data, table).1 {
      AuthRecsKeyed(data);
      AuthRepairLoads(AuthRecs(data), table, order);
    }
  }

  method LoadAuthDb(file: ByteFile, table: map<U32, AuthEntry>)
    returns (auth: map<U32, AuthEntry>, dirty: bool, failed: bool)
    requires file.pos == 0
    modifies file`pos
    ensures !failed ==> (auth, dirty) == LoadAuth(file.data, table)
    ensures failed ==> file.faulty && dirty && CutShort(AuthRecs(file.data), table, auth)
  {
    auth, dirty, failed := table, false, false;
    ghost var recs, k := AuthRecs(file.data), 0;
    assert file.Rest() == file.data;
    while true
      invariant file.pos <= |file.data| && k <= |recs|
      invariant AuthRecs(file.Rest()) == recs[k..] && Fold(recs[..k], table, false) == (auth, dirty)
      invariant TornTail(file.Rest(), AUTH_SIZE) == TornTail(file.data, AUTH_SIZE)
      decreases |file.data| - file.pos
    {
      ghost var rest := file.Rest();
      var r := ReadExactOrEof(file, AUTH_SIZE);
      match r {
        case Full(bytes) =>
          NextRecord(AuthRec, AUTH_SIZE, rest, recs, k, table);
          k := k + 1;
          var (status, entry) := DecodeAuth(bytes);
          if status == DIRTY { dirty := true; } else { auth := auth[entry.uid := entry]; }
        case AtEof =>
          assert recs[..k] == recs;
          return;
        case Torn =>
          assert recs[..k] == recs;
          dirty := true;
          return;
        case Failed =>
          dirty, failed := true, true;
          return;
      }
    }
  }

  lemma {:induction false} AuthFileSnoc(table: map<U32, AuthEntry>, order: seq<U32>, i: nat)
    requires i < |order| && forall k :: 0 <= k < |order| ==> order[k] in table
    ensures AuthFile(table, order[..i + 1]) == AuthFile(table, order[..i]) + EncodeAuth(CLEAN, table[order[i]])
    decreases i
  {
    if i > 0 {
      AuthFileSnoc(table, order[1..], i - 1);
      assert order[..i + 1][1..] == order[1..][..i] && order[..i][1..] == order[1..][..i - 1];
    } else {
      assert order[..1][1..] == [] && order[..0] == [];
    }
  }

  /** The repair up to its first `stop` records: they lie over the old ones, and the rest of the file is as it was. */
  method OverwriteAuth(file: ByteFile, auth: map<U32, AuthEntry>, order: seq<U32>, stop: nat)
    requires stop <= |order| && forall i :: 0 <= i < |order| ==> order[i] in auth
    modifies file
    ensures file.pos <= |file.data| && file.data[..file.pos] == AuthFile(auth, order[..stop])
    ensures file.data[file.pos..] == Skip(old(file.data), AUTH_SIZE, stop)
  {
    file.pos := 0;
    var i := 0;
    while i < stop
      invariant 0 <= i <= stop && file.pos <= |file.data|
      invariant file.data[..file.pos] == AuthFile(auth, order[..i])
      invariant file.data[file.pos..] == Skip(old(file.data), AUTH_SIZE, i)
    {
      AuthFileSnoc(auth, order, i);
      ghost var rest := file.data[file.pos..];
      assert AUTH_SIZE <= |rest| ==> rest[AUTH_SIZE..] == file.data[file.pos + AUTH_SIZE..];
      file.WriteAll(EncodeAuth(CLEAN, auth[order[i]]));
      i := i + 1;
    }
  }

  method RepairAuthDb(file: ByteFile, auth: map<U32, AuthEntry>, order: seq<U32>)
    requires forall i :: 0 <= i < |order| ==> order[i] in auth
    modifies file
    ensures file.data == AuthFile(auth, order)
  {
    OverwriteAuth(file, auth, order, |order|);
    assert order[..|order|] == order;
    file.Truncate();
  }

  // ---------------------------------------------------------------- perms.db

  /** What a record of the file says; only strings of its size are records. */
  function PermsRec(s: seq<byte>): Rec<Path, PermEntry> {
    var (status, path, e) := DecodePerms(if |s| == PERMS_SIZE then s else ZeroBytes(PERMS_SIZE));
    Rec(status == DIRTY, path, e)
  }

  function PermsRecs(data: seq<byte>): seq<Rec<Path, PermEntry>> { RecordsBy(PermsRec, PERMS_SIZE, data) }

  function LoadPerms(data: seq<byte>, table: map<Path, PermEntry>): (map<Path, PermEntry>, bool) {
    var (t, d) := Fold(PermsRecs(data), table, false);
    (t, d || TornTail(data, PERMS_SIZE))
  }

  lemma PermsReports(data: seq<byte>, table: map<Path, PermEntry>)
    ensures LoadPerms(data, table).1 <==>
            |data| % 76 != 0 || exists i: nat :: 76 * i + 76 <= |data| && data[76 * i] == 1
  {
    var recs := PermsRecs(data);
    FoldReports(recs, table, false);
    TornIff(data, PERMS_SIZE);
    forall i: nat
      ensures i < |recs| <==> 76 * i + 76 <= |data|
      ensures i < |recs| ==> (recs[i].dirty <==> data[76 * i] == 1)
    {
      RecordAt(PermsRec, PERMS_SIZE, data, i);
    }
  }

  function PermsFile(table: map<Path, PermEntry>, order: seq<Path>): seq<byte>
    requires forall i :: 0 <= i < |order| ==> order[i] in table
  {
    if order == [] then [] else EncodePerms(CLEAN, order[0], table[order[0]]) + PermsFile(table, order[1..])
  }

  ghost predicate AllStorable(table: map<Path, PermEntry>) { forall k :: k in table ==> Storable(k) }

  lemma {:induction false} PermsFileReads(table: map<Path, PermEntry>, order: seq<Path>)
    requires AllStorable(table) && forall i :: 0 <= i < |order| ==> order[i] in table
    ensures PermsRecs(PermsFile(table, order)) == CleanRecs(table, order)
    ensures !TornTail(PermsFile(table, order), PERMS_SIZE)
  {
    if order != [] {
      var s, rest := EncodePerms(CLEAN, order[0], table[order[0]]), PermsFile(table, order[1..]);
      PermsFileReads(table, order[1..]);
      PermsRoundTrip(CLEAN, order[0], table[order[0]]);
      assert (s + rest)[..PERMS_SIZE] == s && (s + rest)[PERMS_SIZE..] == rest;
    }
  }

  lemma {:induction false} FoldStorable(recs: seq<Rec<Path, PermEntry>>, table: map<Path, PermEntry>, dirty: bool)
    requires AllStorable(table) && forall i :: 0 <= i < |recs| ==> Storable(recs[i].key)
    ensures AllStorable(Fold(recs, table, dirty).0)
    decreases |recs|
  {
    if recs != [] {
      FoldStorable(recs[1..], Entered(table, recs[0]), dirty || recs[0].dirty);
    }
  }

  lemma {:induction false} PermsRecsStorable(data: seq<byte>)
    ensures forall i :: 0 <= i < |PermsRecs(data)| ==> Storable(PermsRecs(data)[i].key)
    decreases |data|
  {
    if |data| >= PERMS_SIZE {
      DecodedIsStorable(data[..PERMS_SIZE][1..65]);
      PermsRecsStorable(data[PERMS_SIZE..]);
      assert PermsRecs(data) == [PermsRec(data[..PERMS_SIZE])] + PermsRecs(data[PERMS_SIZE..]);
    }
  }

  function PermsAfterBoot(data: seq<byte>, table: map<Path, PermEntry>, order: seq<Path>): seq<byte>
    requires forall i :: 0 <= i < |order| ==> order[i] in LoadPerms(data, table).0
  {
    if LoadPerms(data, table).1 then PermsFile(LoadPerms(data, table).0, order) else data
  }

  lemma PermsRepairLoads(recs: seq<Rec<Path, PermEntry>>, table: map<Path, PermEntry>, order: seq<Path>)
    requires AllStorable(table) && forall i :: 0 <= i < |recs| ==> Storable(recs[i].key)
    requires forall k :: k in order <==> k in Fold(recs, table, false).0
    ensures var t := Fold(recs, table, false).0; LoadPerms(PermsFile(t, order), table) == (t, false)
  {
    var t := Fold(recs, table, false).0;
    FoldKeeps(recs, table, false);
    FoldStorable(recs, table, false);
    PermsFileReads(t, order);
    FoldClean(t, order, table);
  }

  /** The same for the permission table, with torn tails, duplicates and paths that are not UTF-8. */
  lemma PermsRecoveryFixedPoint(data: seq<byte>, table: map<Path, PermEntry>, order: seq<Path>)
    requires AllStorable(table)
    requires forall k :: k in order <==> k in LoadPerms(data, table).0
    ensures LoadPerms(PermsAfterBoot(data, table, order), table) == (LoadPerms(data, table).0, false)
  {
    if LoadPerms(data, table).1 {
      PermsRecsStorable(data);
      PermsRepairLoads(PermsRecs(data), table, order);
    }
  }

  method LoadPermsDb(file: ByteFile, table: map<Path, PermEntry>)
    returns (perms: map<Path, PermEntry>, dirty: bool, failed: bool)
    requires file.pos == 0
    modifies file`pos
    ensures !failed ==> (perms, dirty) == LoadPerms(file.data, table)
    ensures failed ==> file.faulty && dirty && CutShort(PermsRecs(file.data), table, perms)
  {
    perms, dirty, failed := table, false, false;
    ghost var recs, k := PermsRecs(file.data), 0;
    assert file.Rest() == file.data;
    while true
      invariant file.pos <= |file.data| && k <= |recs|
      invariant PermsRecs(file.Rest()) == recs[k..] && Fold(recs[..k], table, false) == (perms, dirty)
      invariant TornTail(file.Rest(), PERMS_SIZE) == TornTail(file.data, PERMS_SIZE)
      decreases |file.data| - file.pos
    {
      ghost var rest := file.Rest();
      var r := ReadExactOrEof(file, PERMS_SIZE);
      match r {
        case Full(bytes) =>
          NextRecord(PermsRec, PERMS_SIZE, rest, recs, k, table);
          k := k + 1;
          var (status, path, entry) := DecodePerms(bytes);
          if status == DIRTY { dirty := true; } else { perms := perms[path := entry]; }
        case AtEof =>
          assert recs[..k] == recs;
          return;
        case Torn =>
          assert recs[..k] == recs;
          dirty := true;
          return;
        case Failed =>
          dirty, failed := true, true;
          return;
      }
    }
  }

  lemma {:induction false} PermsFileSnoc(table: map<Path, PermEntry>, order: seq<Path>, i: nat)
    requires i < |order| && forall k :: 0 <= k < |order| ==> order[k] in table
    ensures PermsFile(table, order[..i + 1])
         == PermsFile(table, order[..i]) + EncodePerms(CLEAN, order[i], table[order[i]])
    decreases i
  {
    if i > 0 {
      PermsFileSnoc(table, order[1..], i - 1);
      assert order[..i + 1][1..] == order[1..][..i] && order[..i][1..] == order[1..][..i - 1];
    } else {
      assert order[..1][1..] == [] && order[..0] == [];
    }
  }

  /** The repair up to its first `stop` records: they lie over the old ones, and the rest of the file is as it was. */
  method OverwritePerms(file: ByteFile, perms: map<Path, PermEntry>, order: seq<Path>, stop: nat)
    requires stop <= |order| && forall i :: 0 <= i < |order| ==> order[i] in perms
    modifies file
    ensures file.pos <= |file.data| && file.data[..file.pos] == PermsFile(perms, order[..stop])
    ensures file.data[file.pos..] == Skip(old(file.data), PERMS_SIZE, stop)
  {
    file.pos := 0;
    var i := 0;
    while i < stop
      invariant 0 <= i <= stop && file.pos <= |file.data|
      invariant file.data[..file.pos] == PermsFile(perms, order[..i])
      invariant file.data[file.pos..] == Skip(old(file.data), PERMS_SIZE, i)
    {
      PermsFileSnoc(perms, order, i);
      ghost var rest := file.data[file.pos..];
      assert PERMS_SIZE <= |rest| ==> rest[PERMS_SIZE..] == file.data[file.pos + PERMS_SIZE..];
      file.WriteAll(EncodePerms(CLEAN, order[i], perms[order[i]]));
      i := i + 1;
    }
  }

  method RepairPermsDb(file: ByteFile, perms: map<Path, PermEntry>, order: seq<Path>)
    requires forall i :: 0 <= i < |order| ==> order[i] in perms
    modifies file
    ensures file.data == PermsFile(perms, order)
  {
    OverwritePerms(file, perms, order, |order|);
    assert order[..|order|] == order;
    file.Truncate();
  }

  // ---------------------------------------------------------------- boot

  /** The keys of a table in some order. */
  method Enumerate<K(==, !new), V>(table: map<K, V>) returns (order: seq<K>)
    ensures forall k :: k in order <==> k in table
  {
    order := [];
    var rest := table.Keys;
    while rest != {}
      invariant rest <= table.Keys && forall k :: k in table <==> k in order || k in rest
      decreases rest
    {
      var k :| k in rest;
      order := order + [k];
      rest := rest - {k};
    }
  }

  /** What is left when a table read from the records of a file is written back over it. */
  method RewriteAuth(file: ByteFile, table: map<U32, AuthEntry>, auth: map<U32, AuthEntry>)
    requires KeyedByUid(table) && CutShort(AuthRecs(file.data), table, auth)
    modifies file
    ensures LoadAuth(file.data, table) == (auth, false)
  {
    ghost var recs := AuthRecs(file.data);
    ghost var seen :| 0 <= seen <= |recs| && auth == Fold(recs[..seen], table, false).0;
    var order := Enumerate(auth);
    AuthRecsKeyed(file.data);
    AuthRepairLoads(recs[..seen], table, order);
    RepairAuthDb(file, auth, order);
  }

  method RewritePerms(file: ByteFile, table: map<Path, PermEntry>, perms: map<Path, PermEntry>)
    requires AllStorable(table) && CutShort(PermsRecs(file.data), table, perms)
    modifies file
    ensures LoadPerms(file.data, table) == (perms, false)
  {
    ghost var recs := PermsRecs(file.data);
    ghost var seen :| 0 <= seen <= |recs| && perms == Fold(recs[..seen], table, false).0;
    var order := Enumerate(perms);
    PermsRecsStorable(file.data);
    PermsRepairLoads(recs[..seen], table, order);
    RepairPermsDb(file, perms, order);
  }

  lemma NotCut<K, V>(recs: seq<Rec<K, V>>, table: map<K, V>)
    ensures CutShort(recs, table, Fold(recs, table, false).0)
  {
    assert recs[..|recs|] == recs;
  }

  /** Loads both files, where present, and rewrites those that held dirt or failed to read. Loading again would
      give the same tables and report no dirt; without a failing read they are the tables of the old files, and a
      file without dirt is left as it is. */
  method LoadAtBoot(authFile: ByteFile?, permsFile: ByteFile?, auth0: map<U32, AuthEntry>, perms0: map<Path, PermEntry>)
    returns (auth: map<U32, AuthEntry>, perms: map<Path, PermEntry>)
    requires authFile != null ==> authFile.pos == 0 && authFile != permsFile
    requires permsFile != null ==> permsFile.pos == 0
    requires KeyedByUid(auth0) && AllStorable(perms0)
    modifies authFile, permsFile
    ensures authFile == null ==> auth == auth0
    ensures authFile != null ==> LoadAuth(authFile.data, auth0) == (auth, false)
    ensures authFile != null ==> CutShort(AuthRecs(old(authFile.data)), auth0, auth)
    ensures authFile != null && !authFile.faulty ==> auth == LoadAuth(old(authFile.data), auth0).0
    ensures authFile != null && !authFile.faulty && !LoadAuth(old(authFile.data), auth0).1 ==>
              authFile.data == old(authFile.data)
    ensures permsFile != null && !permsFile.faulty && !LoadPerms(old(permsFile.data), perms0).1 ==>
              permsFile.data == old(permsFile.data)
    ensures permsFile == null ==> perms == perms0
    ensures permsFile != null ==> LoadPerms(permsFile.data, perms0) == (perms, false)
    ensures permsFile != null ==> CutShort(PermsRecs(old(permsFile.data)), perms0, perms)
    ensures permsFile != null && !permsFile.faulty ==> perms == LoadPerms(old(permsFile.data), perms0).0
  {
    var authDirty, permsDirty := false, false;
    auth, perms := auth0, perms0;
    if authFile != null {
      NotCut(AuthRecs(authFile.data), auth0);
      var failed;
      auth, authDirty, failed := LoadAuthDb(authFile, auth0);
    }
    if permsFile != null {
      NotCut(PermsRecs(permsFile.data), perms0);
      var failed;
      perms, permsDirty, failed := LoadPermsDb(permsFile, perms0);
    }
    if authFile != null && authDirty { RewriteAuth(authFile, auth0, auth); }
    if permsFile != null && permsDirty { RewritePerms(permsFile, perms0, perms); }
  }
}
