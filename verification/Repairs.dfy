/** A repair that stops between two records, as the next boot finds it. */
module Repairs {
  import opened Bits
  import opened Records
  import opened Recovery

  // ---------------------------------------------------------------- records half rewritten

  function DropRecs<R>(recs: seq<R>, j: nat): seq<R> { if j <= |recs| then recs[j..] else [] }

  /** The records after the first `j` of a repair in the given order. */
  function HalfRepaired<K, V>(recs: seq<Rec<K, V>>, table: map<K, V>, order: seq<K>, j: nat): seq<Rec<K, V>>
    requires j <= |order| && forall i :: 0 <= i < |order| ==> order[i] in table
  {
    CleanRecs(table, order[..j]) + DropRecs(recs, j)
  }

  /** Some clean record of the key stands at `from` or behind. */
  ghost predicate HasClean<K, V>(recs: seq<Rec<K, V>>, from: nat, k: K) {
    exists i :: from <= i < |recs| && !recs[i].dirty && recs[i].key == k
  }

  lemma {:induction false} CleanRecsAre<K, V>(table: map<K, V>, order: seq<K>)
    requires forall i :: 0 <= i < |order| ==> order[i] in table
    ensures |CleanRecs(table, order)| == |order|
    ensures forall i :: 0 <= i < |order| ==> CleanRecs(table, order)[i] == Rec(false, order[i], table[order[i]])
  {
    if order != [] { CleanRecsAre(table, order[1..]); }
  }

  /** The last clean record of a key, if there is one. */
  lemma {:induction false} LastClean<K, V>(recs: seq<Rec<K, V>>, from: nat, k: K) returns (i: nat)
    requires HasClean(recs, from, k)
    ensures from <= i < |recs| && !recs[i].dirty && recs[i].key == k && NoClean(recs[i + 1..], k)
    decreases |recs|
  {
    var n := |recs| - 1;
    if !recs[n].dirty && recs[n].key == k {
      i := n;
    } else {
      var h :| from <= h < |recs| && !recs[h].dirty && recs[h].key == k;
      assert recs[..n][h] == recs[h];
      i := LastClean(recs[..n], from, k);
      assert recs[i + 1..] == recs[..n][i + 1..] + [recs[n]];
    }
  }

  /** A key with a clean record that is not yet overwritten keeps its value. */
  lemma KeptBehind<K, V>(recs: seq<Rec<K, V>>, base: map<K, V>, order: seq<K>, j: nat, k: K)
    requires var t := Fold(recs, base, false).0; j <= |order| && forall i :: 0 <= i < |order| ==> order[i] in t
    requires HasClean(recs, j, k)
    ensures var t := Fold(recs, base, false).0;
            var t' := Fold(HalfRepaired(recs, t, order, j), base, false).0;
            k in t && k in t' && t'[k] == t[k]
  {
    var t := Fold(recs, base, false).0;
    var half := HalfRepaired(recs, t, order, j);
    var i := LastClean(recs, j, k);
    FoldLast(recs, base, false, k, i);
    CleanRecsAre(t, order[..j]);
    assert |half| == |recs| && forall x :: j <= x < |recs| ==> half[x] == recs[x];
    assert half[i + 1..] == recs[i + 1..];
    FoldLast(half, base, false, k, i);
  }

  /** A key without one has the value of the rewritten records, or that of the table loaded into. */
  lemma RewrittenOrBase<K, V>(recs: seq<Rec<K, V>>, base: map<K, V>, order: seq<K>, j: nat, k: K)
    requires var t := Fold(recs, base, false).0; j <= |order| && forall i :: 0 <= i < |order| ==> order[i] in t
    requires !HasClean(recs, j, k)
    ensures var t := Fold(recs, base, false).0;
            var t' := Fold(HalfRepaired(recs, t, order, j), base, false).0;
            if k in order[..j] then k in t && k in t' && t'[k] == t[k]
            else (k in t' <==> k in base) && (k in t' ==> t'[k] == base[k])
  {
    var t := Fold(recs, base, false).0;
    var half := HalfRepaired(recs, t, order, j);
    CleanRecsAre(t, order[..j]);
    if k in order[..j] {
      assert HasClean(half, 0, k) by {
        var h :| 0 <= h < j && order[..j][h] == k;
        assert half[h] == Rec(false, k, t[k]);
      }
      assert forall x :: j <= x < |half| ==> half[x] == recs[x];
      var i := LastClean(half, 0, k);
      FoldLast(half, base, false, k, i);
    } else {
      assert NoClean(half, k) by {
        forall i | 0 <= i < |half|
          ensures half[i].dirty || half[i].key != k
        {
          assert if i < j then half[i].key == order[..j][i] else half[i] == recs[i];
        }
      }
      FoldAbsent(half, base, false, k);
    }
  }

  /** Every entry's last clean record stands at or behind the place it is rewritten to, or the entry is in the
      table loaded into anyway. */
  ghost predicate SafeOrder<K, V>(recs: seq<Rec<K, V>>, base: map<K, V>, order: seq<K>) {
    forall i :: 0 <= i < |order| ==> SafeAt(recs, base, order, i)
  }

  ghost predicate SafeAt<K, V>(recs: seq<Rec<K, V>>, base: map<K, V>, order: seq<K>, i: nat)
    requires i < |order|
  {
    var t := Fold(recs, base, false).0;
    HasClean(recs, i, order[i]) || (order[i] in base && order[i] in t && base[order[i]] == t[order[i]])
  }

  /** `order` lists the keys of the table, each once. */
  ghost predicate Lists<K, V>(order: seq<K>, t: map<K, V>) {
    && (forall i :: 0 <= i < |order| ==> order[i] in t) && (forall k :: k in t ==> k in order)
    && forall i, j :: 0 <= i < j < |order| ==> order[i] != order[j]
  }

  lemma SafeKeeps<K(!new), V>(recs: seq<Rec<K, V>>, base: map<K, V>, order: seq<K>, j: nat)
    requires Lists(order, Fold(recs, base, false).0) && SafeOrder(recs, base, order) && j <= |order|
    ensures var t := Fold(recs, base, false).0; Fold(HalfRepaired(recs, t, order, j), base, false).0 == t
  {
    var t := Fold(recs, base, false).0;
    var t' := Fold(HalfRepaired(recs, t, order, j), base, false).0;
    FoldKeeps(recs, base, false);
    assert forall x :: 0 <= x < j ==> order[..j][x] == order[x];
    forall k: K
      ensures (k in t' <==> k in t) && (k in t ==> t'[k] == t[k])
    {
      if HasClean(recs, j, k) {
        KeptBehind(recs, base, order, j, k);
      } else {
        RewrittenOrBase(recs, base, order, j, k);
        if k in t && k !in order[..j] {
          var i :| 0 <= i < |order| && order[i] == k;
          assert SafeAt(recs, base, order, i);
        }
      }
    }
  }

  lemma UnsafeLoses<K, V>(recs: seq<Rec<K, V>>, base: map<K, V>, order: seq<K>, i: nat)
    requires Lists(order, Fold(recs, base, false).0) && i < |order| && !SafeAt(recs, base, order, i)
    ensures var t := Fold(recs, base, false).0;
            var t' := Fold(HalfRepaired(recs, t, order, i), base, false).0;
            order[i] in t && !(order[i] in t' && t'[order[i]] == t[order[i]])
  {
    RewrittenOrBase(recs, base, order, i, order[i]);
    assert order[i] !in order[..i];
  }

  // ---------------------------------------------------------------- the two files

  lemma {:induction false} SkippedRecords<R>(decode: seq<byte> -> R, size: nat, data: seq<byte>, j: nat)
    requires size > 0
    ensures RecordsBy(decode, size, Skip(data, size, j)) == DropRecs(RecordsBy(decode, size, data), j)
    decreases j
  {
    if j > 0 {
      SkippedRecords(decode, size, data, j - 1);
      var all, rest := RecordsBy(decode, size, data), Skip(data, size, j - 1);
      if size <= |rest| {
        assert RecordsBy(decode, size, rest) == [decode(rest[..size])] + RecordsBy(decode, size, rest[size..]);
        assert all[j - 1..][1..] == all[j..];
      }
    }
  }

  /** `auth.db` when its repair stops after `j` records. */
  function StoppedAuth(data: seq<byte>, table: map<U32, AuthEntry>, order: seq<U32>, j: nat): seq<byte>
    requires j <= |order| && forall i :: 0 <= i < |order| ==> order[i] in table
  {
    AuthFile(table, order[..j]) + Skip(data, AUTH_SIZE, j)
  }

  lemma StoppedAuthRecords(data: seq<byte>, table: map<U32, AuthEntry>, order: seq<U32>, j: nat)
    requires KeyedByUid(table) && j <= |order| && forall i :: 0 <= i < |order| ==> order[i] in table
    ensures AuthRecs(StoppedAuth(data, table, order, j)) == HalfRepaired(AuthRecs(data), table, order, j)
  {
    AuthFileReads(table, order[..j]);
    RecordsAppend(AuthRec, AUTH_SIZE, AuthFile(table, order[..j]), Skip(data, AUTH_SIZE, j));
    SkippedRecords(AuthRec, AUTH_SIZE, data, j);
  }

  /** STOPPED REPAIRS: wherever between two records a repair stops, the next load gives the whole table, exactly
      when no entry is overwritten before it is rewritten. */
  lemma StoppedAuthIff(data: seq<byte>, base: map<U32, AuthEntry>, order: seq<U32>)
    requires KeyedByUid(base) && Lists(order, LoadAuth(data, base).0)
    ensures var t := LoadAuth(data, base).0;
            (forall j: nat :: j <= |order| ==> LoadAuth(StoppedAuth(data, t, order, j), base).0 == t)
            <==> SafeOrder(AuthRecs(data), base, order)
  {
    var t := LoadAuth(data, base).0;
    AuthRecsKeyed(data);
    FoldKeyed(AuthRecs(data), base, false);
    if SafeOrder(AuthRecs(data), base, order) {
      forall j: nat | j <= |order|
        ensures LoadAuth(StoppedAuth(data, t, order, j), base).0 == t
      {
        StoppedAuthRecords(data, t, order, j);
        SafeKeeps(AuthRecs(data), base, order, j);
      }
    } else {
      var i :| 0 <= i < |order| && !SafeAt(AuthRecs(data), base, order, i);
      StoppedAuthRecords(data, t, order, i);
      UnsafeLoses(AuthRecs(data), base, order, i);
    }
  }

  /** Two users in descending order and a dirty record: after one record of the repair the second user is gone. */
  lemma SecondUserLost(low: AuthEntry, high: AuthEntry, dirt: AuthEntry)
    requires low.uid < high.uid
    ensures var data := EncodeAuth(CLEAN, high) + (EncodeAuth(CLEAN, low) + EncodeAuth(DIRTY, dirt));
            var t := LoadAuth(data, map[]).0;
            && t == map[low.uid := low, high.uid := high]
            && high.uid !in LoadAuth(StoppedAuth(data, t, [low.uid, high.uid], 1), map[]).0
  {
    var a, b, c := EncodeAuth(CLEAN, high), EncodeAuth(CLEAN, low), EncodeAuth(DIRTY, dirt);
    var data, order := a + (b + c), [low.uid, high.uid];
    var recs: seq<Rec<U32, AuthEntry>> :=
      [Rec(false, high.uid, high), Rec(false, low.uid, low), Rec(true, dirt.uid, dirt)];
    AuthRoundTrip(CLEAN, high);
    AuthRoundTrip(CLEAN, low);
    AuthRoundTrip(DIRTY, dirt);
    ThreeRecords(AuthRec, AUTH_SIZE, a, b, c);
    assert AuthRecs(data) == recs;
    TwoCleanOneDirty(recs, map[]);
    var t := LoadAuth(data, map[]).0;
    assert !HasClean(recs, 1, high.uid);
    StoppedAuthRecords(data, t, order, 1);
    RewrittenOrBase(recs, map[], order, 1, high.uid);
  }

  lemma TwoCleanOneDirty<K, V>(recs: seq<Rec<K, V>>, base: map<K, V>)
    requires |recs| == 3 && !recs[0].dirty && !recs[1].dirty && recs[2].dirty
    ensures Fold(recs, base, false) == (base[recs[0].key := recs[0].value][recs[1].key := recs[1].value], true)
  {
    assert recs[1..][1..] == [recs[2]] && [recs[2]][1..] == [];
    var t := base[recs[0].key := recs[0].value];
    assert Fold(recs, base, false) == Fold(recs[1..], t, false);
    assert Fold(recs[1..], t, false) == Fold([recs[2]], t[recs[1].key := recs[1].value], false);
  }

  lemma ThreeRecords<R>(decode: seq<byte> -> R, size: nat, a: seq<byte>, b: seq<byte>, c: seq<byte>)
    requires size > 0 && |a| == |b| == |c| == size
    ensures RecordsBy(decode, size, a + (b + c)) == [decode(a), decode(b), decode(c)]
  {
    var rest := b + c;
    assert (a + rest)[..size] == a && (a + rest)[size..] == rest && rest[..size] == b && rest[size..] == c;
    assert c[..size] == c && c[size..] == [];
    assert RecordsBy(decode, size, c) == [decode(c)];
    assert RecordsBy(decode, size, rest) == [decode(b)] + RecordsBy(decode, size, c);
  }

  /** `perms.db` when its repair stops after `j` records. */
  function StoppedPerms(data: seq<byte>, table: map<Path, PermEntry>, order: seq<Path>, j: nat): seq<byte>
    requires j <= |order| && forall i :: 0 <= i < |order| ==> order[i] in table
  {
    PermsFile(table, order[..j]) + Skip(data, PERMS_SIZE, j)
  }

  lemma StoppedPermsRecords(data: seq<byte>, table: map<Path, PermEntry>, order: seq<Path>, j: nat)
    requires AllStorable(table) && j <= |order| && forall i :: 0 <= i < |order| ==> order[i] in table
    ensures PermsRecs(StoppedPerms(data, table, order, j)) == HalfRepaired(PermsRecs(data), table, order, j)
  {
    PermsFileReads(table, order[..j]);
    RecordsAppend(PermsRec, PERMS_SIZE, PermsFile(table, order[..j]), Skip(data, PERMS_SIZE, j));
    SkippedRecords(PermsRec, PERMS_SIZE, data, j);
  }

  lemma StoppedPermsIff(data: seq<byte>, base: map<Path, PermEntry>, order: seq<Path>)
    requires AllStorable(base) && Lists(order, LoadPerms(data, base).0)
    ensures var t := LoadPerms(data, base).0;
            (forall j: nat :: j <= |order| ==> LoadPerms(StoppedPerms(data, t, order, j), base).0 == t)
            <==> SafeOrder(PermsRecs(data), base, order)
  {
    var t := LoadPerms(data, base).0;
    PermsRecsStorable(data);
    FoldStorable(PermsRecs(data), base, false);
    if SafeOrder(PermsRecs(data), base, order) {
      forall j: nat | j <= |order|
        ensures LoadPerms(StoppedPerms(data, t, order, j), base).0 == t
      {
        StoppedPermsRecords(data, t, order, j);
        SafeKeeps(PermsRecs(data), base, order, j);
      }
    } else {
      var i :| 0 <= i < |order| && !SafeAt(PermsRecs(data), base, order, i);
      StoppedPermsRecords(data, t, order, i);
      UnsafeLoses(PermsRecs(data), base, order, i);
    }
  }
}
