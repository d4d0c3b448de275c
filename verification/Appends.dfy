/** Records appended to the two files, whole or cut short, as the next boot finds them. */
module Appends {
  import opened Bits
  import opened Records
  import opened Recovery

  /** A torn tail is not healed by appending behind it. */
  lemma {:induction false} TornStays(data: seq<byte>, s: seq<byte>, size: nat)
    requires size > 0 && |s| == size
    ensures TornTail(data + s, size) == TornTail(data, size)
    decreases |data|
  {
    if |data| >= size {
      assert (data + s)[size..] == data[size..] + s;
      TornStays(data[size..], s, size);
    } else {
      assert |(data + s)[size..]| == |data|;
    }
  }

  // ---------------------------------------------------------------- auth.db

  /** What loading makes of the first `k` bytes of an appended record. */
  lemma AuthAppendLoads(data: seq<byte>, table: map<U32, AuthEntry>, e: AuthEntry, k: nat)
    requires !TornTail(data, AUTH_SIZE) && k <= AUTH_SIZE
    ensures var (t, d) := LoadAuth(data, table);
            LoadAuth(data + EncodeAuth(CLEAN, e)[..k], table)
            == if k == AUTH_SIZE then (t[e.uid := e], d) else (t, d || k > 0)
  {
    var s := EncodeAuth(CLEAN, e);
    var x := s[..k];
    RecordsAppend(AuthRec, AUTH_SIZE, data, x);
    TornAppend(data, x, AUTH_SIZE);
    FoldAppend(AuthRecs(data), AuthRecs(x), table, false);
    if k == AUTH_SIZE {
      assert x == s && s[AUTH_SIZE..] == [] && s[..AUTH_SIZE] == s;
      AuthRoundTrip(CLEAN, e);
      assert AuthRecs(s) == [Rec(false, e.uid, e)];
    }
  }

  /** APPENDING IS ALL OR NOTHING: after any boot, a record cut short after any number of bytes leaves
      the table of that boot, a whole one adds exactly its entry; only a cut is reported as dirt. */
  lemma AuthAppendAtomic(data: seq<byte>, table: map<U32, AuthEntry>, order: seq<U32>, e: AuthEntry, k: nat)
    requires KeyedByUid(table) && k <= AUTH_SIZE
    requires forall u :: u in order <==> u in LoadAuth(data, table).0
    ensures var t := LoadAuth(data, table).0;
            LoadAuth(AuthAfterBoot(data, table, order) + EncodeAuth(CLEAN, e)[..k], table)
            == (if k == AUTH_SIZE then t[e.uid := e] else t, 0 < k < AUTH_SIZE)
  {
    AuthRecoveryFixedPoint(data, table, order);
    AuthAppendLoads(AuthAfterBoot(data, table, order), table, e, k);
  }

  method AppendAuthEntry(file: ByteFile, e: AuthEntry)
    modifies file
    ensures file.data == old(file.data) + EncodeAuth(CLEAN, e)
  {
    file.pos := |file.data|;
    file.WriteAll(EncodeAuth(CLEAN, e));
    assert file.data == file.data[..file.pos] + file.data[file.pos..];
  }

  // ---------------------------------------------------------------- perms.db

  lemma PermsAppendLoads(data: seq<byte>, table: map<Path, PermEntry>, path: Path, e: PermEntry, k: nat)
    requires !TornTail(data, PERMS_SIZE) && Storable(path) && k <= PERMS_SIZE
    ensures var (t, d) := LoadPerms(data, table);
            LoadPerms(data + EncodePerms(CLEAN, path, e)[..k], table)
            == if k == PERMS_SIZE then (t[path := e], d) else (t, d || k > 0)
  {
    var s := EncodePerms(CLEAN, path, e);
    var x := s[..k];
    RecordsAppend(PermsRec, PERMS_SIZE, data, x);
    TornAppend(data, x, PERMS_SIZE);
    FoldAppend(PermsRecs(data), PermsRecs(x), table, false);
    if k == PERMS_SIZE {
      assert x == s && s[PERMS_SIZE..] == [] && s[..PERMS_SIZE] == s;
      PermsRoundTrip(CLEAN, path, e);
      assert PermsRecs(s) == [Rec(false, path, e)];
    }
  }

  /** The same for the permission table, for every path a record can hold. */
  lemma PermsAppendAtomic(data: seq<byte>, table: map<Path, PermEntry>, order: seq<Path>,
                          path: Path, e: PermEntry, k: nat)
    requires AllStorable(table) && Storable(path) && k <= PERMS_SIZE
    requires forall p :: p in order <==> p in LoadPerms(data, table).0
    ensures var t := LoadPerms(data, table).0;
            LoadPerms(PermsAfterBoot(data, table, order) + EncodePerms(CLEAN, path, e)[..k], table)
            == (if k == PERMS_SIZE then t[path := e] else t, 0 < k < PERMS_SIZE)
  {
    PermsRecoveryFixedPoint(data, table, order);
    PermsAppendLoads(PermsAfterBoot(data, table, order), table, path, e, k);
  }

  method AppendPermsEntry(file: ByteFile, path: Path, e: PermEntry)
    modifies file
    ensures file.data == old(file.data) + EncodePerms(CLEAN, path, e)
  {
    file.pos := |file.data|;
    file.WriteAll(EncodePerms(CLEAN, path, e));
    assert file.data == file.data[..file.pos] + file.data[file.pos..];
  }
}
