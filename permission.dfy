/**
 * The Permission class of src/permission.js: the permission matrix held
 * in place, with the insertion order of its tuple keys (the key order of
 * the JavaScript object, which fixes the order of getRoleKeys and
 * getResourceKeys).
 */
module Permissions {
  import opened Common
  import opened Seqs
  import opened Actions
  import opened TupleKeys
  import opened Matrices

  /** The tuple a query looks at: a falsy role or resource stands for the wildcard. */
  function QueryTuple(role: Input, resource: Input): (t: Tuple)
    ensures t.role != "" && t.resource != ""
    ensures !role.Falsy() && !resource.Falsy() ==>
      t == TupleOf(GetValue(role).value, GetValue(resource).value)
    ensures role.Falsy() ==> t.role == ASTERISK
    ensures resource.Falsy() ==> t.resource == ASTERISK
  {
    Tuple(KeyOrStar(role), KeyOrStar(resource))
  }

  /** The role column of a sequence of tuples. */
  function Roles(s: seq<Tuple>): (r: seq<string>)
    ensures |r| == |s| && forall i :: 0 <= i < |s| ==> r[i] == s[i].role
  {
    seq(|s|, i requires 0 <= i < |s| => s[i].role)
  }

  /** The resource column of a sequence of tuples. */
  function Resources(s: seq<Tuple>): (r: seq<string>)
    ensures |r| == |s| && forall i :: 0 <= i < |s| ==> r[i] == s[i].resource
  {
    seq(|s|, i requires 0 <= i < |s| => s[i].resource)
  }

  /** The string key a tuple is stored under: its role and resource joined by the separator. */
  function KeyOf(t: Tuple): string {
    t.role + SEP + t.resource
  }

  /** Every key splits into exactly two parts, so separateKeys does not throw. */
  predicate Separable(s: seq<Tuple>) {
    forall i :: 0 <= i < |s| ==> SeparateKey(KeyOf(s[i])).Ok?
  }

  /** The role column separateKeys builds: the first part of each key. */
  function RoleParts(s: seq<Tuple>): (r: seq<string>)
    requires Separable(s)
    ensures |r| == |s| && forall i :: 0 <= i < |s| ==> SeparateKey(KeyOf(s[i])).value.0 == r[i]
  {
    seq(|s|, i requires 0 <= i < |s| => SeparateKey(KeyOf(s[i])).value.0)
  }

  /** The resource column separateKeys builds: the second part of each key. */
  function ResourceParts(s: seq<Tuple>): (r: seq<string>)
    requires Separable(s)
    ensures |r| == |s| && forall i :: 0 <= i < |s| ==> SeparateKey(KeyOf(s[i])).value.1 == r[i]
  {
    seq(|s|, i requires 0 <= i < |s| => SeparateKey(KeyOf(s[i])).value.1)
  }

  /** Tuples whose keys cannot be confused: both halves are safe identities. */
  predicate SafeTuples(s: seq<Tuple>) {
    forall i :: 0 <= i < |s| ==> SafeId(s[i].role) && SafeId(s[i].resource)
  }

  /**
   * On safe tuples separateKeys never throws and gives back exactly the
   * role and resource columns of the tuples.
   */
  lemma {:induction false} SafeKeysSeparate(s: seq<Tuple>)
    requires SafeTuples(s)
    ensures Separable(s)
    ensures RoleParts(s) == Roles(s) && ResourceParts(s) == Resources(s)
  {
    forall i | 0 <= i < |s|
      ensures SeparateKey(KeyOf(s[i])) == Ok((s[i].role, s[i].resource))
    {
      SeparateJoin(s[i].role, s[i].resource);
    }
  }

  /** The tuple allow("a::b", "c") creates makes separateKeys throw. */
  lemma SeparatorInIdUnseparable()
    ensures !Separable([TupleOf("a::b", "c")])
  {
    SeparatorInIdInvalid();
    assert KeyOf([TupleOf("a::b", "c")][0]) == MakeKey("a::b", "c");
  }

  /**
   * The isAllowedAll/isDeniedAll loop over the entries of one tuple:
   * return false on the first entry equal to the blocker, counting the
   * non-ALL entries; then ALL present or a count of exactly four gives
   * true, and anything else null.
   */
  method Scan(p: Perm, blocker: bool) returns (r: Option<bool>)
    ensures r == Aggregate(p, blocker)
  {
    var allSet := 0;
    var rest: set<Action> := p.Keys;
    ghost var seen: set<Action> := {};
    while rest != {}
      invariant Scanned(p, blocker, rest, seen, allSet)
      decreases |rest|
    {
      var k: Action :| k in rest;
      if p[k] == blocker {
        assert p[k] in p.Values;
        return Some(false);
      }
      ScanStep(p, blocker, rest, seen, allSet, k);
      if k != ALL {
        allSet := allSet + 1;
      }
      rest := rest - {k};
      seen := seen + {k};
    }
    ScanEnd(p, blocker, seen, allSet);
    if ALL in p {
      return Some(true);
    }
    if allSet == 4 {
      return Some(true);
    }
    return None;
  }

  /**
   * Partway through Scan: the keys `seen` so far and the keys `rest` still
   * to visit split the tuple's keys, none seen holds the blocker, and
   * `count` is the number of non-ALL keys seen.
   */
  ghost predicate Scanned(p: Perm, blocker: bool, rest: set<Action>, seen: set<Action>, count: int) {
    rest + seen == p.Keys && rest !! seen &&
    (forall k :: k in seen ==> p[k] != blocker) &&
    count == |seen - {ALL}|
  }

  /** Visiting one more key that does not hold the blocker. */
  lemma ScanStep(p: Perm, blocker: bool, rest: set<Action>, seen: set<Action>, count: int, k: Action)
    requires Scanned(p, blocker, rest, seen, count) && k in rest && p[k] != blocker
    ensures Scanned(p, blocker, rest - {k}, seen + {k}, count + (if k == ALL then 0 else 1))
  {
    CountStep(seen, k);
  }

  /** Once every key is seen, the blocker is absent and the count covers the whole tuple. */
  lemma ScanEnd(p: Perm, blocker: bool, seen: set<Action>, count: int)
    requires Scanned(p, blocker, {}, seen, count)
    ensures blocker !in p.Values && count == |p.Keys - {ALL}|
  {
    assert seen == p.Keys;
    NoBlocker(p, blocker);
  }

  /** Adding one unseen key grows the count of non-ALL keys by one exactly when it is not ALL. */
  lemma CountStep(seen: set<Action>, k: Action)
    requires k !in seen
    ensures |(seen + {k}) - {ALL}| == |seen - {ALL}| + (if k == ALL then 0 else 1)
  {
    if k == ALL {
      assert (seen + {k}) - {ALL} == seen - {ALL};
    } else {
      assert (seen + {k}) - {ALL} == (seen - {ALL}) + {k};
    }
  }

  /** No key maps to the blocker, so the blocker is not among the values. */
  lemma NoBlocker(p: Perm, blocker: bool)
    requires forall k :: k in p ==> p[k] != blocker
    ensures blocker !in p.Values
  {
    forall v | v in p.Values ensures v != blocker {
      var k :| k in p && p[k] == v;
    }
  }

  /**
   * The expansion loop of remove: start from the entries without ALL and
   * give every named action other than `a` the value `v` (the source walks
   * the whole action list, skipping ALL and `a`).
   */
  method ExpandAll(p: Perm, a: Action, v: bool) returns (q: Perm)
    ensures q == Expand(p, a, v)
  {
    q := p - {ALL};
    for i := 0 to |Concrete|
      invariant q == (p - {ALL}) + Assigned(a, v, i)
    {
      var c := Concrete[i];
      if c != a {
        MergeUpdate(p - {ALL}, Assigned(a, v, i), c, v);
        q := q[c := v];
      }
    }
    AssignedEnds(a, v);
  }

  /** The values the expansion loop has written after its first `n` steps. */
  function Assigned(a: Action, v: bool, n: nat): (r: Perm)
    requires n <= |Concrete|
    ensures forall c :: c in r ==> r[c] == v
    ensures forall c :: c in r <==> c in Concrete[..n] && c != a
  {
    if n == 0 then map[]
    else
      assert Concrete[..n] == Concrete[..n - 1] + [Concrete[n - 1]];
      if Concrete[n - 1] != a then Assigned(a, v, n - 1)[Concrete[n - 1] := v]
      else Assigned(a, v, n - 1)
  }

  /** After all four steps the loop has written exactly the filled entries. */
  lemma AssignedEnds(a: Action, v: bool)
    ensures Assigned(a, v, |Concrete|) == Fill(a, v)
  {
    assert Concrete[..|Concrete|] == Concrete;
  }

  lemma MergeUpdate(x: Perm, y: Perm, c: Action, v: bool)
    ensures (x + y)[c := v] == x + y[c := v]
  {
  }

  /** The distinct entries of a column other than the wildcard, in first-seen order (getRoleKeys, getResourceKeys). */
  method FirstSeen(column: seq<string>) returns (keys: seq<string>)
    ensures keys == Dedup(FilterOut(column, {ASTERISK}))
    ensures NoDup(keys)
    ensures forall k :: k in keys <==> k in column && k != ASTERISK
  {
    keys := [];
    for i := 0 to |column|
      invariant keys == Dedup(FilterOut(column[..i], {ASTERISK}))
    {
      var c := column[i];
      assert column[..i + 1] == column[..i] + [c];
      FilterOutAppend(column[..i], c, {ASTERISK});
      var f := FilterOut(column[..i], {ASTERISK});
      if c != ASTERISK {
        assert FilterOut(column[..i + 1], {ASTERISK}) == f + [c];
        assert (f + [c])[..|f + [c]| - 1] == f;
        if c !in keys {
          keys := keys + [c];
        }
      } else {
        assert FilterOut(column[..i + 1], {ASTERISK}) == f;
      }
    }
    assert column[..|column|] == column;
  }

  class Permission {
    /** The explicitly set permissions, by tuple. */
    var perms: Matrix
    /** The tuples in the order their keys were first added. */
    var order: seq<Tuple>

    ghost predicate Valid()
      reads this
    {
      NoDup(order) && forall t :: t in order <==> t in perms
    }

    /** A new matrix holds exactly the default tuple, denied on ALL. */
    constructor ()
      ensures Valid()
      ensures perms == Initial && order == [DefaultTuple]
    {
      perms := Initial;
      order := [DefaultTuple];
    }

    /** The number of tuples; it is the length of the key order. */
    function Size(): (n: nat)
      requires Valid()
      reads this
      ensures n == |order|
    {
      NoDupCard(order);
      assert Elems(order) == perms.Keys;
      |perms|
    }

    /** Whether the tuple is present (has). */
    predicate Has(t: Tuple)
      reads this
    {
      t in perms
    }

    /** Set one action of one tuple, creating the tuple at the end of the order if absent. */
    method Put(t: Tuple, a: Action, v: bool)
      requires Valid()
      modifies this
      ensures Valid()
      ensures perms == Set(old(perms), t, a, v)
      ensures order == old(order) + (if t in old(perms) then [] else [t])
    {
      if Has(t) {
        var p := perms[t];
        perms := perms[t := p[a := v]];
      } else {
        perms := perms[t := map[a := v]];
        order := order + [t];
      }
    }

    /** allow/deny: resolve both identities (a falsy one is a NullError), default the action to ALL, set the value. */
    method Grant(role: Input, resource: Input, action: string, v: bool) returns (out: Outcome<Error>)
      requires Valid()
      modifies this
      ensures Valid()
      ensures out.Fail? <==> role.Falsy() || resource.Falsy()
      ensures out.Fail? ==> out.error == NullError && perms == old(perms) && order == old(order)
      ensures out.Pass? ==>
        var t := TupleOf(GetValue(role).value, GetValue(resource).value);
        perms == Set(old(perms), t, Parse(action), v) &&
        order == old(order) + (if t in old(perms) then [] else [t])
    {
      var roleValue := GetValue(role);
      if roleValue.Err? {
        return Fail(roleValue.error);
      }
      var resValue := GetValue(resource);
      if resValue.Err? {
        return Fail(resValue.error);
      }
      var t := TupleOf(roleValue.value, resValue.value);
      Put(t, Parse(action), v);
      out := Pass;
    }

    /** allow: grant the action. */
    method Allow(role: Input, resource: Input, action: string) returns (out: Outcome<Error>)
      requires Valid()
      modifies this
      ensures Valid()
      ensures out.Fail? <==> role.Falsy() || resource.Falsy()
      ensures out.Fail? ==> out.error == NullError && perms == old(perms) && order == old(order)
      ensures out.Pass? ==>
        var t := TupleOf(GetValue(role).value, GetValue(resource).value);
        perms == Set(old(perms), t, Parse(action), true) &&
        order == old(order) + (if t in old(perms) then [] else [t])
    {
      out := Grant(role, resource, action, true);
    }

    /** deny: deny the action. */
    method Deny(role: Input, resource: Input, action: string) returns (out: Outcome<Error>)
      requires Valid()
      modifies this
      ensures Valid()
      ensures out.Fail? <==> role.Falsy() || resource.Falsy()
      ensures out.Fail? ==> out.error == NullError && perms == old(perms) && order == old(order)
      ensures out.Pass? ==>
        var t := TupleOf(GetValue(role).value, GetValue(resource).value);
        perms == Set(old(perms), t, Parse(action), false) &&
        order == old(order) + (if t in old(perms) then [] else [t])
    {
      out := Grant(role, resource, action, false);
    }

    /** isAllowed: the tri-state answer for one action; a falsy role or resource is the wildcard. */
    function IsAllowed(role: Input, resource: Input, a: Action): (r: Option<bool>)
      reads this
      ensures r.Some? ==> QueryTuple(role, resource) in perms
    {
      Allowed(perms, QueryTuple(role, resource), a)
    }

    /** isDenied: the same lookup, negated. */
    function IsDenied(role: Input, resource: Input, a: Action): (r: Option<bool>)
      reads this
      ensures r == Negate(IsAllowed(role, resource, a))
    {
      DeniedIsNegatedAllowed(perms, QueryTuple(role, resource), a);
      Denied(perms, QueryTuple(role, resource), a)
    }

    /** isAllowedAll: null for an absent tuple, otherwise the aggregate with false as the blocker. */
    method IsAllowedAll(role: Input, resource: Input) returns (r: Option<bool>)
      ensures r == AllowedAll(perms, QueryTuple(role, resource))
    {
      var t := QueryTuple(role, resource);
      if !Has(t) {
        return None;
      }
      r := Scan(perms[t], false);
    }

    /** isDeniedAll: null for an absent tuple, otherwise the aggregate with true as the blocker. */
    method IsDeniedAll(role: Input, resource: Input) returns (r: Option<bool>)
      ensures r == DeniedAll(perms, QueryTuple(role, resource))
    {
      var t := QueryTuple(role, resource);
      if !Has(t) {
        return None;
      }
      r := Scan(perms[t], true);
    }

    /** Delete one tuple and its key. */
    method Delete(t: Tuple)
      requires Valid()
      modifies this
      ensures Valid()
      ensures perms == old(perms) - {t}
      ensures order == FilterOut(old(order), {t})
      ensures t in old(perms) ==> old(perms).Keys - perms.Keys == {t}
    {
      perms := perms - {t};
      order := FilterOut(order, {t});
    }

    /** remove: the four branches over the resolved tuple, as `Removed` states them. */
    method Remove(role: Input, resource: Input, action: string) returns (out: Outcome<Error>)
      requires Valid()
      modifies this
      ensures Valid()
      ensures role.Falsy() || resource.Falsy() ==>
        out == Fail(NullError) && perms == old(perms) && order == old(order)
      ensures !role.Falsy() && !resource.Falsy() ==>
        match Removed(old(perms), GetValue(role).value, GetValue(resource).value, Parse(action))
        case Err(e) => out == Fail(e) && perms == old(perms) && order == old(order)
        case Ok(m) => out == Pass && perms == m && order == FilterOut(old(order), old(perms).Keys - m.Keys)
    {
      var resId := GetValue(resource);
      if resId.Err? {
        return Fail(resId.error);
      }
      var roleId := GetValue(role);
      if roleId.Err? {
        return Fail(roleId.error);
      }
      var t := TupleOf(roleId.value, resId.value);
      var a := Parse(action);
      if !Has(t) {
        return Fail(PermissionNotFound(MakeKey(roleId.value, resId.value), roleId.value, resId.value));
      }
      var p: Perm := perms[t];
      if a in p {
        if a == ALL {
          Delete(t);
          return Pass;
        }
        p := p - {a};
      } else if ALL in p {
        p := ExpandAll(p, a, p[ALL]);
      } else if a == ALL {
        Delete(t);
        return Pass;
      } else {
        return Fail(PermissionNotFound(Name(a), roleId.value, resId.value));
      }
      Store(t, p);
      out := Pass;
    }

    /** Write a tuple's new entries back, deleting the tuple when none are left. */
    method Store(t: Tuple, p: Perm)
      requires Valid() && t in perms
      modifies this
      ensures Valid()
      ensures perms == Shrink(old(perms), t, p)
      ensures order == FilterOut(old(order), old(perms).Keys - perms.Keys)
    {
      if p == map[] {
        Delete(t);
      } else {
        perms := perms[t := p];
        assert old(perms).Keys - perms.Keys == {};
        FilterOutNone(order, {});
      }
    }

    /** _remove: delete the listed tuples, counting every listed key. */
    method RemoveKeys(keys: seq<Tuple>) returns (removed: nat)
      requires Valid()
      modifies this
      ensures Valid()
      ensures perms == old(perms) - Elems(keys)
      ensures order == FilterOut(old(order), Elems(keys))
      ensures removed == |keys|
    {
      removed := 0;
      assert Elems(keys[..0]) == {};
      assert perms - {} == perms;
      FilterOutNone(order, {});
      for i := 0 to |keys|
        invariant Valid()
        invariant perms == old(perms) - Elems(keys[..i])
        invariant order == FilterOut(old(order), Elems(keys[..i]))
        invariant removed == i
      {
        assert Elems(keys[..i + 1]) == Elems(keys[..i]) + {keys[i]};
        FilterOutTwice(old(order), Elems(keys[..i]), {keys[i]});
        MapMinusTwice(old(perms), Elems(keys[..i]), {keys[i]});
        Delete(keys[i]);
        removed := removed + 1;
      }
      assert keys[..|keys|] == keys;
    }

    /** removeByRole: delete every tuple of the role and return how many there were. */
    method RemoveByRole(roleId: string) returns (count: nat)
      requires Valid()
      modifies this
      ensures Valid()
      ensures perms == DropRole(old(perms), roleId)
      ensures order == FilterOut(old(order), TuplesOfRole(old(perms), roleId))
      ensures count == |TuplesOfRole(old(perms), roleId)|
    {
      var toRemove: seq<Tuple> := [];
      for i := 0 to |order|
        invariant NoDup(toRemove)
        invariant forall t :: t in toRemove <==> t in order[..i] && t.role == roleId
      {
        var t := order[i];
        if t.role == roleId {
          assert t !in order[..i];
          toRemove := toRemove + [t];
        }
        assert order[..i + 1] == order[..i] + [t];
      }
      assert order[..|order|] == order;
      assert Elems(toRemove) == TuplesOfRole(perms, roleId);
      NoDupCard(toRemove);
      count := RemoveKeys(toRemove);
    }

    /** removeByResource: delete every tuple of the resource and return how many there were. */
    method RemoveByResource(resourceId: string) returns (count: nat)
      requires Valid()
      modifies this
      ensures Valid()
      ensures perms == DropResource(old(perms), resourceId)
      ensures order == FilterOut(old(order), TuplesOfResource(old(perms), resourceId))
      ensures count == |TuplesOfResource(old(perms), resourceId)|
    {
      var toRemove: seq<Tuple> := [];
      for i := 0 to |order|
        invariant NoDup(toRemove)
        invariant forall t :: t in toRemove <==> t in order[..i] && t.resource == resourceId
      {
        var t := order[i];
        if t.resource == resourceId {
          assert t !in order[..i];
          toRemove := toRemove + [t];
        }
        assert order[..i + 1] == order[..i] + [t];
      }
      assert order[..|order|] == order;
      assert Elems(toRemove) == TuplesOfResource(perms, resourceId);
      NoDupCard(toRemove);
      count := RemoveKeys(toRemove);
    }

    /** Replace the default tuple with the single ALL entry `v`. */
    method SetDefault(v: bool)
      requires Valid()
      modifies this
      ensures Valid()
      ensures perms == old(perms)[DefaultTuple := map[ALL := v]]
      ensures order == old(order) + (if DefaultTuple in old(perms) then [] else [DefaultTuple])
    {
      if !Has(DefaultTuple) {
        order := order + [DefaultTuple];
      }
      var d: Perm := map[ALL := v];
      perms := perms[DefaultTuple := d];
    }

    /** makeDefaultAllow. */
    method MakeDefaultAllow()
      requires Valid()
      modifies this
      ensures Valid()
      ensures perms == old(perms)[DefaultTuple := map[ALL := true]]
      ensures order == old(order) + (if DefaultTuple in old(perms) then [] else [DefaultTuple])
    {
      SetDefault(true);
    }

    /** makeDefaultDeny. */
    method MakeDefaultDeny()
      requires Valid()
      modifies this
      ensures Valid()
      ensures perms == old(perms)[DefaultTuple := map[ALL := false]]
      ensures order == old(order) + (if DefaultTuple in old(perms) then [] else [DefaultTuple])
    {
      SetDefault(false);
    }

    /** clear: no tuples at all, not even the default one. */
    method Clear()
      modifies this
      ensures Valid()
      ensures perms == map[] && order == []
    {
      perms := map[];
      order := [];
    }

    /** importMap: replace the matrix with a snapshot (a map with its key order). */
    method ImportMap(m: Matrix, keys: seq<Tuple>)
      requires NoDup(keys) && forall t :: t in keys <==> t in m
      modifies this
      ensures Valid()
      ensures perms == m && order == keys
    {
      perms := m;
      order := keys;
    }

    /** separateKeys: split every key, in order, into its role and resource; InvalidError at the first malformed key. */
    method SeparateKeys() returns (r: Result<(seq<string>, seq<string>), Error>)
      requires Valid()
      ensures r.Err? <==> !Separable(order)
      ensures r.Err? ==> r.error == KeyFormError
      ensures r.Ok? ==> r.value == (RoleParts(order), ResourceParts(order))
    {
      var roleIds: seq<string> := [];
      var resourceIds: seq<string> := [];
      for i := 0 to |order|
        invariant |roleIds| == i && |resourceIds| == i
        invariant forall j :: 0 <= j < i ==> SeparateKey(KeyOf(order[j])) == Ok((roleIds[j], resourceIds[j]))
      {
        var parts := SeparateKey(KeyOf(order[i]));
        if parts.Err? {
          return Err(parts.error);
        }
        roleIds := roleIds + [parts.value.0];
        resourceIds := resourceIds + [parts.value.1];
      }
      assert roleIds == RoleParts(order) && resourceIds == ResourceParts(order);
      r := Ok((roleIds, resourceIds));
    }

    /** getRoleKeys: the distinct role parts of the keys other than the wildcard, in first-seen key order. */
    method GetRoleKeys() returns (r: Result<seq<string>, Error>)
      requires Valid()
      ensures r.Err? <==> !Separable(order)
      ensures r.Err? ==> r.error == KeyFormError
      ensures r.Ok? ==> r.value == Dedup(FilterOut(RoleParts(order), {ASTERISK})) && NoDup(r.value)
      ensures r.Ok? ==> forall k :: k in r.value <==> k in RoleParts(order) && k != ASTERISK
    {
      var all := SeparateKeys();
      if all.Err? {
        return Err(all.error);
      }
      var keys := FirstSeen(all.value.0);
      r := Ok(keys);
    }

    /** getResourceKeys: the distinct resource parts of the keys other than the wildcard, in first-seen key order. */
    method GetResourceKeys() returns (r: Result<seq<string>, Error>)
      requires Valid()
      ensures r.Err? <==> !Separable(order)
      ensures r.Err? ==> r.error == KeyFormError
      ensures r.Ok? ==> r.value == Dedup(FilterOut(ResourceParts(order), {ASTERISK})) && NoDup(r.value)
      ensures r.Ok? ==> forall k :: k in r.value <==> k in ResourceParts(order) && k != ASTERISK
    {
      var all := SeparateKeys();
      if all.Err? {
        return Err(all.error);
      }
      var keys := FirstSeen(all.value.1);
      r := Ok(keys);
    }
  }
}
