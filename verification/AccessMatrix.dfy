/** The access matrix: per-object entry lists with roles on top, and who can come to hold what. */
module AccessMatrix {
  import opened Bits

  const COPY: nat := 3
  const OWNER: nat := 4
  const CONTROL: nat := 5

  /** A rights word: 32 bits. */
  type Rights = r: nat | r < 0x1_0000_0000

  datatype Entry = Entry(domain: nat, rights: Rights)

  type Lists = map<nat, seq<Entry>>

  datatype Control = Control(lists: Lists, roles: map<nat, Rights>, userRoles: map<nat, nat>)

  // ---------------------------------------------------------------- entry lists

  function Find(entries: seq<Entry>, domain: nat): Rights {
    if entries == [] then 0 else if entries[0].domain == domain then entries[0].rights else Find(entries[1..], domain)
  }

  function Lookup(lists: Lists, domain: nat, obj: nat): Rights {
    if obj in lists then Find(lists[obj], domain) else 0
  }

  function Retain(entries: seq<Entry>, domain: nat): seq<Entry> {
    if entries == [] then []
    else if entries[0].domain == domain then Retain(entries[1..], domain)
    else [entries[0]] + Retain(entries[1..], domain)
  }

  /** Updates the first entry of the domain, or appends one. */
  function Put(entries: seq<Entry>, domain: nat, rights: Rights): seq<Entry> {
    if entries == [] then [Entry(domain, rights)]
    else if entries[0].domain == domain then [Entry(domain, rights)] + entries[1..]
    else [entries[0]] + Put(entries[1..], domain, rights)
  }

  function SetEntries(entries: seq<Entry>, domain: nat, rights: Rights): seq<Entry> {
    if rights == 0 then Retain(entries, domain) else Put(entries, domain, rights)
  }

  function Set(lists: Lists, domain: nat, obj: nat, rights: Rights): Lists {
    lists[obj := SetEntries(if obj in lists then lists[obj] else [], domain, rights)]
  }

  lemma {:induction false} FindAfterSet(entries: seq<Entry>, domain: nat, rights: Rights, d: nat)
    ensures Find(SetEntries(entries, domain, rights), d) == if d == domain then rights else Find(entries, d)
  {
    if entries != [] {
      FindAfterSet(entries[1..], domain, rights, d);
      var e := SetEntries(entries, domain, rights);
      if entries[0].domain != domain {
        assert e == [entries[0]] + SetEntries(entries[1..], domain, rights);
        assert e[1..] == SetEntries(entries[1..], domain, rights);
      } else if rights != 0 {
        assert e[1..] == entries[1..];
      }
    }
  }

  /** THE LISTS ARE A MATRIX: writing one cell changes that cell and no other. */
  lemma MatrixLaw(lists: Lists, domain: nat, obj: nat, rights: Rights, d: nat, o: nat)
    ensures Lookup(Set(lists, domain, obj, rights), d, o)
         == if d == domain && o == obj then rights else Lookup(lists, d, o)
  {
    FindAfterSet(if obj in lists then lists[obj] else [], domain, rights, d);
  }

  /** At most one entry per domain, none of them empty. */
  ghost predicate Compact(entries: seq<Entry>) {
    && (forall i, j :: 0 <= i < j < |entries| ==> entries[i].domain != entries[j].domain)
    && forall i :: 0 <= i < |entries| ==> entries[i].rights != 0
  }

  ghost predicate Absent(entries: seq<Entry>, d: nat) { forall i :: 0 <= i < |entries| ==> entries[i].domain != d }

  lemma {:induction false} SetAbsent(entries: seq<Entry>, domain: nat, rights: Rights, d: nat)
    requires Absent(entries, d) && (d != domain || rights == 0)
    ensures Absent(SetEntries(entries, domain, rights), d)
  {
    if entries != [] { SetAbsent(entries[1..], domain, rights, d); }
  }

  lemma {:induction false} SetCompact(entries: seq<Entry>, domain: nat, rights: Rights)
    requires Compact(entries)
    ensures Compact(SetEntries(entries, domain, rights))
  {
    if entries != [] {
      SetCompact(entries[1..], domain, rights);
      if entries[0].domain != domain {
        assert Absent(entries[1..], entries[0].domain);
        SetAbsent(entries[1..], domain, rights, entries[0].domain);
        assert SetEntries(entries, domain, rights) == [entries[0]] + SetEntries(entries[1..], domain, rights);
      }
    }
  }

  // ---------------------------------------------------------------- access, grant, revoke

  function RoleRights(c: Control, domain: nat): Rights {
    if domain in c.userRoles && c.userRoles[domain] in c.roles then c.roles[c.userRoles[domain]] else 0
  }

  lemma {:induction false} OrBound(a: nat, b: nat, k: nat)
    requires a < Pow2(k) && b < Pow2(k)
    ensures Or(a, b) < Pow2(k)
  {
    if k > 0 {
      OrDigit(a, b);
      OrBound(a / 2, b / 2, k - 1);
    }
  }

  lemma {:induction false} AndNotBound(a: nat, b: nat)
    ensures AndNot(a, b) <= a
  {
    if a > 0 { AndNotBound(a / 2, b / 2); }
  }

  function Join(a: Rights, b: Rights): Rights {
    Pow2Words();
    OrBound(a, b, 32);
    Or(a, b)
  }

  function Remove(a: Rights, b: Rights): Rights {
    AndNotBound(a, b);
    AndNot(a, b)
  }

  predicate Contains(r: Rights, bits: nat) { And(r, bits) == bits }

  function Access(c: Control, domain: nat, obj: nat): Rights {
    Join(Lookup(c.lists, domain, obj), RoleRights(c, domain))
  }

  function Grant(c: Control, grantor: nat, target: nat, obj: nat, rights: Rights): (Control, bool) {
    var g := Access(c, grantor, obj);
    var granted := c.(lists := Set(c.lists, target, obj, Join(Lookup(c.lists, target, obj), rights)));
    if Contains(g, Pow2(OWNER)) || Contains(g, Pow2(CONTROL)) then (granted, true)
    else if Contains(g, Pow2(COPY)) && And(g, rights) == rights then (granted, true)
    else (c, false)
  }

  function Revoke(c: Control, revoker: nat, target: nat, obj: nat, rights: Rights): (Control, bool) {
    var r := Access(c, revoker, obj);
    if Contains(r, Pow2(OWNER)) || Contains(r, Pow2(CONTROL))
    then (c.(lists := Set(c.lists, target, obj, Remove(Lookup(c.lists, target, obj), rights))), true)
    else (c, false)
  }

  // ---------------------------------------------------------------- in terms of single rights

  ghost predicate Holds(c: Control, d: nat, o: nat, j: nat) { Bit(Access(c, d, o), j) }

  ghost predicate Held(c: Control, o: nat, j: nat) { exists d: nat :: Holds(c, d, o, j) }

  /** The domain has a role, the role is known and includes the right. */
  ghost predicate RoleGives(c: Control, d: nat, j: nat) {
    d in c.userRoles && c.userRoles[d] in c.roles && Bit(c.roles[c.userRoles[d]], j)
  }

  lemma HoldsIff(c: Control, d: nat, o: nat, j: nat)
    ensures Holds(c, d, o, j) <==> Bit(Lookup(c.lists, d, o), j) || RoleGives(c, d, j)
  {
    BitOfZero(j);
    BitOfOr(Lookup(c.lists, d, o), RoleRights(c, d), j);
  }

  lemma ContainsIff(r: Rights, k: nat)
    ensures Contains(r, Pow2(k)) <==> Bit(r, k)
  {
    forall j: nat
      ensures Bit(And(r, Pow2(k)), j) <==> Bit(r, j) && j == k
    {
      BitOfAnd(r, Pow2(k), j);
      BitOfPow(k, j);
    }
    BitOfPow(k, k);
    if Bit(r, k) {
      forall j: nat
        ensures Bit(And(r, Pow2(k)), j) <==> Bit(Pow2(k), j)
      {
        BitOfPow(k, j);
      }
      SameBits(And(r, Pow2(k)), Pow2(k));
    }
  }

  ghost predicate Covers(g: Rights, rights: Rights) { forall i: nat :: Bit(rights, i) ==> Bit(g, i) }

  lemma CoversIff(g: Rights, rights: Rights)
    ensures And(g, rights) == rights <==> Covers(g, rights)
  {
    forall i: nat
      ensures Bit(And(g, rights), i) <==> Bit(g, i) && Bit(rights, i)
    {
      BitOfAnd(g, rights, i);
    }
    if Covers(g, rights) {
      SameBits(And(g, rights), rights);
    } else {
      var i: nat :| Bit(rights, i) && !Bit(g, i);
      assert !Bit(And(g, rights), i);
    }
  }

  ghost predicate MayGrant(c: Control, grantor: nat, o: nat, rights: Rights) {
    || Holds(c, grantor, o, OWNER) || Holds(c, grantor, o, CONTROL)
    || (Holds(c, grantor, o, COPY) && Covers(Access(c, grantor, o), rights))
  }

  /** What a grant does to every cell: an owner or controller adds any rights, a copier only
      rights it holds, anyone else nothing. */
  lemma GrantEffect(c: Control, grantor: nat, target: nat, obj: nat, rights: Rights, d: nat, o: nat, j: nat)
    ensures var (c', ok) := Grant(c, grantor, target, obj, rights);
            && (ok <==> MayGrant(c, grantor, obj, rights))
            && (Holds(c', d, o, j) <==> Holds(c, d, o, j) || (ok && d == target && o == obj && Bit(rights, j)))
  {
    var g := Access(c, grantor, obj);
    var (c', ok) := Grant(c, grantor, target, obj, rights);
    ContainsIff(g, OWNER);
    ContainsIff(g, CONTROL);
    ContainsIff(g, COPY);
    CoversIff(g, rights);
    HoldsIff(c, d, o, j);
    HoldsIff(c', d, o, j);
    MatrixLaw(c.lists, target, obj, Join(Lookup(c.lists, target, obj), rights), d, o);
    BitOfOr(Lookup(c.lists, target, obj), rights, j);
  }

  lemma RevokeEffect(c: Control, revoker: nat, target: nat, obj: nat, rights: Rights, d: nat, o: nat, j: nat)
    ensures var (c', ok) := Revoke(c, revoker, target, obj, rights);
            && (ok <==> Holds(c, revoker, obj, OWNER) || Holds(c, revoker, obj, CONTROL))
            && (Holds(c', d, o, j) <==>
                if ok && d == target && o == obj
                then (Bit(Lookup(c.lists, d, o), j) && !Bit(rights, j)) || RoleGives(c, d, j)
                else Holds(c, d, o, j))
  {
    var r := Access(c, revoker, obj);
    var (c', ok) := Revoke(c, revoker, target, obj, rights);
    ContainsIff(r, OWNER);
    ContainsIff(r, CONTROL);
    HoldsIff(c, d, o, j);
    HoldsIff(c', d, o, j);
    MatrixLaw(c.lists, target, obj, Remove(Lookup(c.lists, target, obj), rights), d, o);
    BitOfAndNot(Lookup(c.lists, target, obj), rights, j);
  }

  lemma SetBackIff(a: Rights, b: Rights)
    ensures Remove(Join(a, b), b) == a <==> And(a, b) == 0
  {
    forall j: nat
      ensures Bit(Remove(Join(a, b), b), j) <==> Bit(a, j) && !Bit(b, j)
      ensures Bit(And(a, b), j) <==> Bit(a, j) && Bit(b, j)
    {
      BitOfOr(a, b, j);
      BitOfAndNot(Or(a, b), b, j);
      BitOfAnd(a, b, j);
    }
    if And(a, b) == 0 {
      forall j: nat
        ensures Bit(Remove(Join(a, b), b), j) <==> Bit(a, j)
      {
        BitOfZero(j);
        assert !Bit(And(a, b), j);
      }
      SameBits(Remove(Join(a, b), b), a);
    }
    if Remove(Join(a, b), b) == a {
      forall j: nat
        ensures Bit(And(a, b), j) <==> Bit(0, j)
      {
        BitOfZero(j);
        assert Bit(a, j) ==> !Bit(b, j);
      }
      SameBits(And(a, b), 0);
    }
  }

  /** A successful revocation of what was just granted puts the matrix back exactly when the
      target's own entry held none of the granted rights before. */
  lemma RevokeUndoesGrantIff(c: Control, grantor: nat, revoker: nat, target: nat, obj: nat, rights: Rights)
    requires Grant(c, grantor, target, obj, rights).1
    requires Revoke(Grant(c, grantor, target, obj, rights).0, revoker, target, obj, rights).1
    ensures var c' := Revoke(Grant(c, grantor, target, obj, rights).0, revoker, target, obj, rights).0;
            (forall d: nat, o: nat :: Lookup(c'.lists, d, o) == Lookup(c.lists, d, o))
            <==> And(Lookup(c.lists, target, obj), rights) == 0
  {
    var was := Lookup(c.lists, target, obj);
    var c1 := Grant(c, grantor, target, obj, rights).0;
    var c2 := Revoke(c1, revoker, target, obj, rights).0;
    SetBackIff(was, rights);
    MatrixLaw(c.lists, target, obj, Join(was, rights), target, obj);
    forall d: nat, o: nat
      ensures Lookup(c2.lists, d, o)
           == if d == target && o == obj then Remove(Join(was, rights), rights) else Lookup(c.lists, d, o)
    {
      MatrixLaw(c.lists, target, obj, Join(was, rights), d, o);
      MatrixLaw(c1.lists, target, obj, Remove(Join(was, rights), rights), d, o);
    }
  }

  // ---------------------------------------------------------------- whole runs

  datatype Act = GrantBy(grantor: nat, target: nat, obj: nat, rights: Rights)
               | RevokeBy(revoker: nat, target: nat, obj: nat, rights: Rights)

  function Perform(c: Control, a: Act): Control {
    match a
    case GrantBy(g, t, o, r) => Grant(c, g, t, o, r).0
    case RevokeBy(g, t, o, r) => Revoke(c, g, t, o, r).0
  }

  function Run(c: Control, acts: seq<Act>): Control
    decreases acts
  {
    if acts == [] then c else Run(Perform(c, acts[0]), acts[1..])
  }

  ghost predicate Ruled(c: Control, o: nat) { Held(c, o, OWNER) || Held(c, o, CONTROL) }

  lemma StepConfined(c: Control, a: Act, o: nat, j: nat)
    requires !Ruled(c, o) && !Held(c, o, j)
    ensures !Held(Perform(c, a), o, j)
  {
    var c' := Perform(c, a);
    forall d: nat
      ensures !Holds(c', d, o, j)
    {
      assert !Holds(c, d, o, j);
      match a
      case GrantBy(g, t, x, r) => {
        GrantEffect(c, g, t, x, r, d, o, j);
        assert !Holds(c, g, o, OWNER) && !Holds(c, g, o, CONTROL) && !Holds(c, g, o, j);
      }
      case RevokeBy(g, t, x, r) => {
        RevokeEffect(c, g, t, x, r, d, o, j);
        HoldsIff(c, d, o, j);
      }
    }
  }

  lemma {:induction false} RunConfined(c: Control, acts: seq<Act>, o: nat, j: nat)
    requires !Ruled(c, o) && !Held(c, o, j)
    ensures !Held(Run(c, acts), o, j)
    decreases acts
  {
    if acts != [] {
      StepConfined(c, acts[0], o, j);
      StepConfined(c, acts[0], o, OWNER);
      StepConfined(c, acts[0], o, CONTROL);
      RunConfined(Perform(c, acts[0]), acts[1..], o, j);
    }
  }

  lemma {:induction false} NoBitBeyond(a: nat, k: nat, j: nat)
    requires a < Pow2(k) && k <= j
    ensures !Bit(a, j)
  {
    if k > 0 {
      NoBitBeyond(a / 2, k - 1, j - 1);
    } else {
      BitOfZero(j);
    }
  }

  lemma PowBound(j: nat)
    requires j < 32
    ensures Pow2(j) < 0x1_0000_0000
  {
    Pow2Words();
    Pow2Grows(j, 32);
  }

  /** No run of grants and revocations makes any domain hold a right on the object that no domain held at first. */
  ghost predicate Confined(c: Control, o: nat) {
    forall acts: seq<Act>, j: nat :: Held(Run(c, acts), o, j) ==> Held(c, o, j)
  }

  ghost predicate HeldAll(c: Control, o: nat) { forall j: nat :: j < 32 ==> Held(c, o, j) }

  /** RIGHTS CONFINEMENT, exactly: with roles fixed, rights on an object stay within the initial union
      over every run if and only if no domain holds OWNER or CONTROL on it, or there is nothing left to gain. */
  lemma ConfinementIff(c: Control, o: nat)
    ensures Confined(c, o) <==> !Ruled(c, o) || HeldAll(c, o)
  {
    if !Ruled(c, o) || HeldAll(c, o) {
      forall acts: seq<Act>, j: nat | Held(Run(c, acts), o, j)
        ensures Held(c, o, j)
      {
        if !Ruled(c, o) && !Held(c, o, j) {
          RunConfined(c, acts, o, j);
        }
        HeldBelow(Run(c, acts), o, j);
      }
    } else {
      var j: nat :| j < 32 && !Held(c, o, j);
      Escape(c, o, j);
    }
  }

  lemma HeldBelow(c: Control, o: nat, j: nat)
    requires Held(c, o, j)
    ensures j < 32
  {
    if j >= 32 {
      Pow2Words();
      var d: nat :| Holds(c, d, o, j);
      NoBitBeyond(Access(c, d, o), 32, j);
    }
  }

  lemma Escape(c: Control, o: nat, j: nat)
    requires Ruled(c, o) && j < 32 && !Held(c, o, j)
    ensures !Confined(c, o)
  {
    var d: nat :| Holds(c, d, o, OWNER) || Holds(c, d, o, CONTROL);
    PowBound(j);
    var a := GrantBy(d, d, o, Pow2(j));
    GrantEffect(c, d, d, o, Pow2(j), d, o, j);
    BitOfPow(j, j);
    assert Run(c, [a]) == Run(Perform(c, a), [a][1..]) == Perform(c, a);
    assert Held(Run(c, [a]), o, j);
  }

  // ---------------------------------------------------------------- the object that changes in place

  ghost predicate AllCompact(lists: Lists) { forall o :: o in lists ==> Compact(lists[o]) }

  lemma {:induction false} FindAt(entries: seq<Entry>, domain: nat, i: nat)
    requires i < |entries| && entries[i].domain == domain && forall k :: 0 <= k < i ==> entries[k].domain != domain
    ensures Find(entries, domain) == entries[i].rights
    ensures forall r: Rights :: Put(entries, domain, r) == entries[i := Entry(domain, r)]
  {
    if i > 0 {
      FindAt(entries[1..], domain, i - 1);
      forall r: Rights
        ensures Put(entries, domain, r) == entries[i := Entry(domain, r)]
      {
        assert Put(entries, domain, r) == [entries[0]] + entries[1..][i - 1 := Entry(domain, r)];
      }
    }
  }

  lemma {:induction false} NotFound(entries: seq<Entry>, domain: nat)
    requires Absent(entries, domain)
    ensures Find(entries, domain) == 0
    ensures forall r: Rights :: Put(entries, domain, r) == entries + [Entry(domain, r)]
  {
    if entries != [] {
      NotFound(entries[1..], domain);
      forall r: Rights
        ensures Put(entries, domain, r) == entries + [Entry(domain, r)]
      {
        assert Put(entries, domain, r) == [entries[0]] + (entries[1..] + [Entry(domain, r)]);
      }
    }
  }

  lemma {:induction false} RetainAppend(entries: seq<Entry>, e: Entry, domain: nat)
    ensures Retain(entries + [e], domain) == Retain(entries, domain) + if e.domain == domain then [] else [e]
  {
    if entries == [] {
      assert entries + [e] == [e];
      assert [e][1..] == [];
    } else {
      RetainAppend(entries[1..], e, domain);
      assert (entries + [e])[1..] == entries[1..] + [e];
    }
  }

  class RbacAccessControl {
    var objects: Lists
    var roles: map<nat, Rights>
    var userRoles: map<nat, nat>

    ghost predicate Valid()
      reads this
    {
      AllCompact(objects)
    }

    function Value(): Control
      reads this
    {
      Control(objects, roles, userRoles)
    }

    constructor ()
      ensures Valid() && forall d: nat, o: nat :: Access(Value(), d, o) == 0
    {
      objects, roles, userRoles := map[], map[], map[];
    }

    /** The index of the first entry of the domain, or the number of entries. */
    static method Position(entries: seq<Entry>, domain: nat) returns (i: nat)
      ensures i <= |entries| && Absent(entries[..i], domain)
      ensures i < |entries| ==> entries[i].domain == domain
    {
      i := 0;
      while i < |entries| && entries[i].domain != domain
        invariant i <= |entries| && Absent(entries[..i], domain)
      {
        i := i + 1;
      }
    }

    static method RetainOthers(entries: seq<Entry>, domain: nat) returns (kept: seq<Entry>)
      ensures kept == Retain(entries, domain) && Absent(kept, domain)
    {
      kept := [];
      var i := 0;
      while i < |entries|
        invariant i <= |entries| && kept == Retain(entries[..i], domain) && Absent(kept, domain)
      {
        RetainAppend(entries[..i], entries[i], domain);
        assert entries[..i + 1] == entries[..i] + [entries[i]];
        if entries[i].domain != domain {
          kept := kept + [entries[i]];
        }
        i := i + 1;
      }
      assert entries[..i] == entries;
    }

    method SetRights(domain: nat, obj: nat, rights: Rights)
      requires Valid()
      modifies this`objects
      ensures Valid() && objects == Set(old(objects), domain, obj, rights)
    {
      var entries := if obj in objects then objects[obj] else [];
      SetCompact(entries, domain, rights);
      var next;
      if rights == 0 {
        next := RetainOthers(entries, domain);
      } else {
        var i := Position(entries, domain);
        if i < |entries| {
          assert forall k :: 0 <= k < i ==> entries[..i][k] == entries[k];
          FindAt(entries, domain, i);
          next := entries[i := Entry(domain, rights)];
        } else {
          assert entries[..i] == entries;
          NotFound(entries, domain);
          next := entries + [Entry(domain, rights)];
        }
      }
      objects := objects[obj := next];
    }

    method DefineRole(role: nat, rights: Rights)
      requires Valid()
      modifies this`roles
      ensures Valid() && roles == old(roles)[role := rights]
    {
      roles := roles[role := rights];
    }

    method AssignRole(domain: nat, role: nat)
      requires Valid()
      modifies this`userRoles
      ensures Valid() && userRoles == old(userRoles)[domain := role]
    {
      userRoles := userRoles[domain := role];
    }

    method GrantRights(grantor: nat, target: nat, obj: nat, rights: Rights) returns (ok: bool)
      requires Valid()
      modifies this`objects
      ensures Valid() && (Value(), ok) == Grant(old(Value()), grantor, target, obj, rights)
    {
      var g := Access(Value(), grantor, obj);
      ok := false;
      if Contains(g, Pow2(OWNER)) || Contains(g, Pow2(CONTROL)) {
        SetRights(target, obj, Join(Lookup(objects, target, obj), rights));
        ok := true;
      } else if Contains(g, Pow2(COPY)) {
        var copyable := And(g, rights);
        if copyable == rights {
          SetRights(target, obj, Join(Lookup(objects, target, obj), rights));
          ok := true;
        }
      }
    }

    method RevokeRights(revoker: nat, target: nat, obj: nat, rights: Rights) returns (ok: bool)
      requires Valid()
      modifies this`objects
      ensures Valid() && (Value(), ok) == Revoke(old(Value()), revoker, target, obj, rights)
    {
      var r := Access(Value(), revoker, obj);
      ok := Contains(r, Pow2(OWNER)) || Contains(r, Pow2(CONTROL));
      if ok {
        SetRights(target, obj, Remove(Lookup(objects, target, obj), rights));
      }
    }
  }
}
