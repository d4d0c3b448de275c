/** The library's stable sort by key, as a function. */
module StableSort {
  import opened Common

  function Insert<T>(key: T -> int, x: T, s: seq<T>): seq<T> {
    if s == [] || key(x) <= key(s[0]) then [x] + s else [s[0]] + Insert(key, x, s[1..])
  }

  function Sort<T>(key: T -> int, s: seq<T>): seq<T> {
    if s == [] then [] else Insert(key, s[0], Sort(key, s[1..]))
  }

  ghost predicate Ascending<T>(key: T -> int, s: seq<T>) {
    forall i, j :: 0 <= i < j < |s| ==> key(s[i]) <= key(s[j])
  }

  /** The elements with key `v`, in order. */
  function WithKey<T>(key: T -> int, v: int, s: seq<T>): seq<T> {
    if s == [] then [] else (if key(s[0]) == v then [s[0]] else []) + WithKey(key, v, s[1..])
  }

  lemma {:induction false} InsertMultiset<T>(key: T -> int, x: T, s: seq<T>)
    ensures multiset(Insert(key, x, s)) == multiset{x} + multiset(s) && |Insert(key, x, s)| == |s| + 1
  {
    if s != [] && key(x) > key(s[0]) {
      InsertMultiset(key, x, s[1..]);
      assert s == [s[0]] + s[1..];
    }
  }

  ghost predicate AtLeast<T>(key: T -> int, v: int, s: seq<T>) { forall i :: 0 <= i < |s| ==> v <= key(s[i]) }

  lemma {:induction false} InsertAtLeast<T>(key: T -> int, x: T, s: seq<T>, v: int)
    requires AtLeast(key, v, s) && v <= key(x)
    ensures AtLeast(key, v, Insert(key, x, s))
  {
    if s != [] && key(x) > key(s[0]) { InsertAtLeast(key, x, s[1..], v); }
  }

  lemma {:induction false} InsertAscending<T>(key: T -> int, x: T, s: seq<T>)
    requires Ascending(key, s)
    ensures Ascending(key, Insert(key, x, s))
  {
    if s != [] && key(x) > key(s[0]) {
      InsertAscending(key, x, s[1..]);
      assert AtLeast(key, key(s[0]), s[1..]);
      InsertAtLeast(key, x, s[1..], key(s[0]));
    }
  }

  lemma {:induction false} SortFacts<T>(key: T -> int, s: seq<T>)
    ensures Ascending(key, Sort(key, s)) && multiset(Sort(key, s)) == multiset(s) && |Sort(key, s)| == |s|
  {
    if s != [] {
      SortFacts(key, s[1..]);
      InsertAscending(key, s[0], Sort(key, s[1..]));
      InsertMultiset(key, s[0], Sort(key, s[1..]));
      assert s == [s[0]] + s[1..];
    }
  }

  lemma WithKeyCons<T>(key: T -> int, v: int, x: T, s: seq<T>)
    ensures WithKey(key, v, [x] + s) == if key(x) == v then [x] + WithKey(key, v, s) else WithKey(key, v, s)
  {
    assert ([x] + s)[1..] == s;
  }

  lemma {:induction false} InsertStable<T>(key: T -> int, x: T, s: seq<T>, v: int)
    ensures WithKey(key, v, Insert(key, x, s)) == WithKey(key, v, [x] + s)
  {
    WithKeyCons(key, v, x, s);
    if s != [] && key(x) > key(s[0]) {
      InsertStable(key, x, s[1..], v);
      WithKeyCons(key, v, x, s[1..]);
      WithKeyCons(key, v, s[0], Insert(key, x, s[1..]));
    }
  }

  /** Elements with equal keys keep their order. */
  lemma {:induction false} SortStable<T>(key: T -> int, s: seq<T>, v: int)
    ensures WithKey(key, v, Sort(key, s)) == WithKey(key, v, s)
  {
    if s != [] {
      SortStable(key, s[1..], v);
      InsertStable(key, s[0], Sort(key, s[1..]), v);
      WithKeyCons(key, v, s[0], Sort(key, s[1..]));
    }
  }

  /** Ascending order and stability leave one possible result. */
  lemma {:induction false} StableOrderUnique<T(!new)>(key: T -> int, s: seq<T>, t: seq<T>)
    requires Ascending(key, s) && Ascending(key, t)
    requires forall v :: WithKey(key, v, s) == WithKey(key, v, t)
    ensures s == t
    decreases |s| + |t|
  {
    if s == [] && t == [] {
    } else if t == [] || (s != [] && key(s[0]) < key(t[0])) {
      assert WithKey(key, key(s[0]), s) == WithKey(key, key(s[0]), t);
      AbsentBelow(key, key(s[0]), t);
    } else if s == [] || key(t[0]) < key(s[0]) {
      assert WithKey(key, key(t[0]), s) == WithKey(key, key(t[0]), t);
      AbsentBelow(key, key(t[0]), s);
    } else {
      var v := key(s[0]);
      assert s == [s[0]] + s[1..] && t == [t[0]] + t[1..];
      assert WithKey(key, v, s) == WithKey(key, v, t);
      assert WithKey(key, v, s)[0] == s[0] && WithKey(key, v, t)[0] == t[0];
      forall w
        ensures WithKey(key, w, s[1..]) == WithKey(key, w, t[1..])
      {
        assert WithKey(key, w, s) == WithKey(key, w, t);
        WithKeyCons(key, w, s[0], s[1..]);
        WithKeyCons(key, w, t[0], t[1..]);
        if w == v {
          assert WithKey(key, w, s)[1..] == WithKey(key, w, s[1..]);
          assert WithKey(key, w, t)[1..] == WithKey(key, w, t[1..]);
        }
      }
      StableOrderUnique(key, s[1..], t[1..]);
    }
  }

  lemma {:induction false} AbsentBelow<T>(key: T -> int, v: int, s: seq<T>)
    requires Ascending(key, s) && (s == [] || v < key(s[0]))
    ensures WithKey(key, v, s) == []
  {
    if s != [] { AbsentBelow(key, v, s[1..]); }
  }

  lemma {:induction false} WithKeyAppend<T>(key: T -> int, v: int, s: seq<T>, t: seq<T>)
    ensures WithKey(key, v, s + t) == WithKey(key, v, s) + WithKey(key, v, t)
  {
    if s == [] {
      assert s + t == t;
    } else {
      var first := if key(s[0]) == v then [s[0]] else [];
      var a, b := WithKey(key, v, s[1..]), WithKey(key, v, t);
      assert WithKey(key, v, s + t) == first + (a + b) by {
        assert (s + t)[1..] == s[1..] + t;
        WithKeyAppend(key, v, s[1..], t);
      }
      assert WithKey(key, v, s) == first + a;
      Regroup(first, a, b);
    }
  }

  ghost predicate NoKey<T>(key: T -> int, v: int, s: seq<T>) { forall i :: 0 <= i < |s| ==> key(s[i]) != v }

  lemma {:induction false} WithKeyNone<T>(key: T -> int, v: int, s: seq<T>)
    requires NoKey(key, v, s)
    ensures WithKey(key, v, s) == []
  {
    if s != [] { WithKeyNone(key, v, s[1..]); }
  }
}
