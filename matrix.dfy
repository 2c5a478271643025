/**
 * The permission matrix of src/permission.js as a value: a map from a
 * (role, resource) tuple to the explicitly set actions of that tuple.
 * A missing tuple or a missing action means "unspecified"; the tri-state
 * answers of the queries are `Option<bool>`, with `None` for null.
 */
module Matrices {
  import opened Common
  import opened Seqs
  import opened Actions
  import opened TupleKeys

  /** A permission tuple; the key "role::resource" of the source, as a pair. */
  datatype Tuple = Tuple(role: string, resource: string)

  /** The explicitly set actions of one tuple. */
  type Perm = map<Action, bool>

  type Matrix = map<Tuple, Perm>

  /** The default tuple "*::*". */
  const DefaultTuple: Tuple := Tuple(ASTERISK, ASTERISK)

  /** The tuple key the source builds for a role id and a resource id (makeKey). */
  function TupleOf(roleId: string, resourceId: string): (t: Tuple)
    ensures MakeKey(roleId, resourceId) == MakeKey(t.role, t.resource)
    ensures t.role != "" && t.resource != ""
  {
    Tuple(OrStar(roleId), OrStar(resourceId))
  }

  /** The actions of a tuple, empty if the tuple is absent. */
  function PermOf(m: Matrix, t: Tuple): Perm {
    if t in m then m[t] else map[]
  }

  /** allow/deny: set one action of one tuple, creating the tuple if absent. */
  function Set(m: Matrix, t: Tuple, a: Action, v: bool): Matrix {
    m[t := PermOf(m, t)[a := v]]
  }

  // ---------------------------------------------------------------------------
  // Per-action queries (isAllowed, isDenied)
  // ---------------------------------------------------------------------------

  /** isAllowed on one tuple: the action's own entry, else the ALL entry, else null. */
  function Allowed(m: Matrix, t: Tuple, a: Action): Option<bool> {
    if t !in m then None
    else if a in m[t] then Some(m[t][a])
    else if ALL in m[t] then Some(m[t][ALL])
    else None
  }

  /** isDenied on one tuple: the same lookup, negated. */
  function Denied(m: Matrix, t: Tuple, a: Action): Option<bool> {
    if t !in m then None
    else if a in m[t] then Some(!m[t][a])
    else if ALL in m[t] then Some(!m[t][ALL])
    else None
  }

  function Negate(o: Option<bool>): Option<bool> {
    match o
    case None => None
    case Some(b) => Some(!b)
  }

  /** isDenied is the negation of isAllowed, null staying null. */
  lemma DeniedIsNegatedAllowed(m: Matrix, t: Tuple, a: Action)
    ensures Denied(m, t, a) == Negate(Allowed(m, t, a))
    ensures Denied(m, t, a).None? <==> Allowed(m, t, a).None?
  {
  }

  /**
   * After allow/deny the tuple answers the set value for that action, and
   * for every action it has no own entry for when the action set was ALL;
   * every other action of the tuple and every other tuple answers as before.
   */
  lemma AllowedAfterSet(m: Matrix, t: Tuple, a: Action, v: bool, u: Tuple, b: Action)
    ensures Allowed(Set(m, t, a, v), t, a) == Some(v)
    ensures u != t ==> Allowed(Set(m, t, a, v), u, b) == Allowed(m, u, b)
    ensures a != ALL && b != a && t in m ==> Allowed(Set(m, t, a, v), t, b) == Allowed(m, t, b)
    ensures a == ALL && b !in PermOf(m, t) ==> Allowed(Set(m, t, a, v), t, b) == Some(v)
    ensures a == ALL && b != ALL && b in PermOf(m, t) ==> Allowed(Set(m, t, a, v), t, b) == Some(PermOf(m, t)[b])
  {
  }

  /** A specific entry overrides ALL in both directions (allow ALL then deny one action, and the reverse). */
  lemma SpecificOverridesAll(m: Matrix, t: Tuple, a: Action, v: bool)
    requires a != ALL
    ensures Allowed(Set(Set(m, t, ALL, v), t, a, !v), t, a) == Some(!v)
    ensures Allowed(Set(Set(m, t, a, !v), t, ALL, v), t, a) == Some(!v)
    ensures forall b: Action :: b != a && b !in PermOf(m, t) ==>
      Allowed(Set(Set(m, t, ALL, v), t, a, !v), t, b) == Some(v)
  {
    var p1 := PermOf(m, t)[ALL := v][a := !v];
    assert Set(Set(m, t, ALL, v), t, a, !v)[t] == p1;
    assert p1[ALL] == v;
    var p2 := PermOf(m, t)[a := !v][ALL := v];
    assert Set(Set(m, t, a, !v), t, ALL, v)[t] == p2;
    assert p2[a] == !v;
  }

  /** An unknown action name is answered from ALL like a named action ('play' in the source's tests). */
  lemma OtherActionFallsBackToAll(m: Matrix, t: Tuple, v: bool)
    ensures Allowed(Set(m, t, ALL, v), t, Other("play")) ==
      if Other("play") in PermOf(m, t) then Some(PermOf(m, t)[Other("play")]) else Some(v)
  {
  }

  // ---------------------------------------------------------------------------
  // Aggregate queries (isAllowedAll, isDeniedAll)
  // ---------------------------------------------------------------------------

  /**
   * The aggregate rule shared by isAllowedAll (blocker false) and
   * isDeniedAll (blocker true): any entry equal to the blocker decides
   * false; otherwise an ALL entry, or exactly four non-ALL entries,
   * decide true; anything else is null.
   */
  function Aggregate(p: Perm, blocker: bool): Option<bool> {
    if blocker in p.Values then Some(false)
    else if ALL in p then Some(true)
    else if |p.Keys - {ALL}| == 4 then Some(true)
    else None
  }

  function AllowedAll(m: Matrix, t: Tuple): Option<bool> {
    if t in m then Aggregate(m[t], false) else None
  }

  function DeniedAll(m: Matrix, t: Tuple): Option<bool> {
    if t in m then Aggregate(m[t], true) else None
  }

  /** A tuple whose only action keys are the four named ones and ALL. */
  predicate Named(p: Perm) {
    forall a :: a in p ==> a == ALL || a in Concrete
  }

  /** The named actions as a set. */
  const NamedSet: set<Action> := {CREATE, READ, UPDATE, DELETE}

  /** A tuple with named actions only has exactly four non-ALL keys when it has all four named ones. */
  lemma NamedKeys(p: Perm)
    requires Named(p)
    ensures p.Keys - {ALL} <= NamedSet
    ensures |p.Keys - {ALL}| == 4 <==> p.Keys - {ALL} == NamedSet
  {
    assert |NamedSet| == 4;
    forall c | c in p.Keys - {ALL} ensures c in NamedSet {
      assert c in Concrete;
    }
    if p.Keys - {ALL} != NamedSet {
      ProperSubsetCardinality(p.Keys - {ALL}, NamedSet);
    }
  }

  /**
   * On a tuple with named actions only, isAllowedAll is true exactly when
   * no entry is false and every named action is allowed; it is false
   * exactly when some entry is false.
   */
  lemma AllowedAllMeansEveryAction(p: Perm, m: Matrix, t: Tuple)
    requires t in m && m[t] == p && Named(p)
    ensures AllowedAll(m, t) == Some(true) <==>
      false !in p.Values && forall c :: c in Concrete ==> Allowed(m, t, c) == Some(true)
    ensures AllowedAll(m, t) == Some(false) <==> false in p.Values
  {
    NamedKeys(p);
    if false !in p.Values && forall c :: c in Concrete ==> Allowed(m, t, c) == Some(true) {
      if ALL !in p {
        forall c | c in NamedSet ensures c in p.Keys - {ALL} {
          assert c in Concrete;
          assert Allowed(m, t, c) == Some(true);
        }
      }
    }
    if AllowedAll(m, t) == Some(true) {
      assert ALL !in p ==> p.Keys - {ALL} == NamedSet;
      assert false !in p.Values;
      assert ALL in p || |p.Keys - {ALL}| == 4;
      forall c | c in Concrete ensures Allowed(m, t, c) == Some(true) {
        assert c in NamedSet;
        assert ALL !in p ==> c in p;
        if c in p {
          assert p[c] in p.Values;
          assert p[c] == true;
        } else {
          assert ALL in p;
          assert p[ALL] in p.Values;
          assert p[ALL] == true;
        }
      }
    }
  }

  /**
   * isAllowedAll counts every non-ALL key, so three named actions plus an
   * unknown action pass the count of four although DELETE is unspecified.
   */
  lemma OtherActionCountsTowardFour(m: Matrix, t: Tuple)
    requires m == map[t := map[CREATE := true, READ := true, UPDATE := true, Other("play") := true]]
    ensures AllowedAll(m, t) == Some(true) && Allowed(m, t, DELETE) == None
  {
    var p := m[t];
    PlayKeys(p);
    FourDistinct(p.Keys);
    forall b | b in p ensures p[b] == true {
    }
    assert false !in p.Values;
  }

  /** The keys of that tuple. */
  lemma PlayKeys(p: Perm)
    requires p == map[CREATE := true, READ := true, UPDATE := true, Other("play") := true]
    ensures p.Keys == {CREATE, READ, UPDATE, Other("play")}
  {
  }

  /** Those keys are four, none of them ALL. */
  lemma FourDistinct(k: set<Action>)
    requires k == {CREATE, READ, UPDATE, Other("play")}
    ensures |k - {ALL}| == 4 && ALL !in k && DELETE !in k
  {
    var k3: set<Action> := {CREATE, READ, UPDATE};
    assert k == k3 + {Other("play")};
    assert Other("play") !in k3;
    assert ALL !in k;
    assert k - {ALL} == k;
  }

  /** Negating every entry of a tuple. */
  function NegatedPerm(p: Perm): (q: Perm)
    ensures q.Keys == p.Keys
  {
    map a | a in p :: !p[a]
  }

  /** isDeniedAll is isAllowedAll of the tuple with every entry negated. */
  lemma DeniedAllIsAllowedAllOfNegation(m: Matrix, t: Tuple)
    requires t in m
    ensures DeniedAll(m, t) == AllowedAll(m[t := NegatedPerm(m[t])], t)
  {
    var p := m[t];
    var q := NegatedPerm(p);
    if true in p.Values {
      var a :| a in p && p[a] == true;
      assert q[a] == false;
    }
    if false in q.Values {
      var a :| a in q && q[a] == false;
      assert p[a] == true;
    }
  }

  /** Neither aggregate answers for a tuple with no entries. */
  lemma AggregateOfEmpty(m: Matrix, t: Tuple)
    requires t in m && m[t] == map[]
    ensures AllowedAll(m, t) == None && DeniedAll(m, t) == None
  {
    assert m[t].Keys - {ALL} == {};
  }

  /** After allowing ALL on a tuple with no false entry, isAllowedAll is true; after denying any action it is false. */
  lemma AllowedAllAfterSet(m: Matrix, t: Tuple, a: Action)
    requires false !in PermOf(m, t).Values
    ensures AllowedAll(Set(m, t, ALL, true), t) == Some(true)
    ensures AllowedAll(Set(m, t, a, false), t) == Some(false)
  {
    var p := PermOf(m, t);
    var q := p[ALL := true];
    forall b | b in q ensures q[b] == true {
      if b != ALL {
        assert p[b] in p.Values;
      }
    }
    assert Set(m, t, a, false)[t][a] == false;
  }

  // ---------------------------------------------------------------------------
  // remove
  // ---------------------------------------------------------------------------

  /** ALL's value written into every named action but the removed one. */
  function Fill(a: Action, v: bool): Perm {
    map[CREATE := v, READ := v, UPDATE := v, DELETE := v] - {a}
  }

  /** The entries `remove` leaves when it takes ALL apart: the others kept, ALL dropped, the named actions filled. */
  function Expand(p: Perm, a: Action, v: bool): Perm {
    (p - {ALL}) + Fill(a, v)
  }

  /** Store a tuple's new entries, dropping the tuple when none are left. */
  function Shrink(m: Matrix, t: Tuple, p: Perm): Matrix {
    if p == map[] then m - {t} else m[t := p]
  }

  /**
   * remove, for resolved role and resource ids: the four branches of the
   * source. The errors carry the tuple key, or the action name, with the
   * ids as resolved.
   */
  function Removed(m: Matrix, roleId: string, resourceId: string, a: Action): Result<Matrix, Error> {
    var t := TupleOf(roleId, resourceId);
    if t !in m then Err(PermissionNotFound(MakeKey(roleId, resourceId), roleId, resourceId))
    else
      var p := m[t];
      if a in p then
        if a == ALL then Ok(m - {t}) else Ok(Shrink(m, t, p - {a}))
      else if ALL in p then Ok(Shrink(m, t, Expand(p, a, p[ALL])))
      else if a == ALL then Ok(m - {t})
      else Err(PermissionNotFound(Name(a), roleId, resourceId))
  }

  /**
   * remove fails exactly when the tuple is absent, or when the action is
   * neither set nor covered by ALL and is not ALL itself.
   */
  lemma RemovedFails(m: Matrix, roleId: string, resourceId: string, a: Action)
    ensures var t := TupleOf(roleId, resourceId);
      Removed(m, roleId, resourceId, a).Err? <==>
        (t !in m || (a != ALL && a !in m[t] && ALL !in m[t]))
    ensures TupleOf(roleId, resourceId) !in m ==>
      Removed(m, roleId, resourceId, a) == Err(PermissionNotFound(MakeKey(roleId, resourceId), roleId, resourceId))
  {
  }

  /** remove touches only its own tuple. */
  lemma RemovedIsLocal(m: Matrix, roleId: string, resourceId: string, a: Action, u: Tuple)
    requires Removed(m, roleId, resourceId, a).Ok?
    requires u != TupleOf(roleId, resourceId)
    ensures var m' := Removed(m, roleId, resourceId, a).value;
      (u in m' <==> u in m) && (u in m ==> m'[u] == m[u])
  {
  }

  /** Removing ALL deletes the whole tuple, concrete entries included, whether or not ALL was set. */
  lemma RemoveAllDeletesTuple(m: Matrix, roleId: string, resourceId: string)
    requires TupleOf(roleId, resourceId) in m
    ensures Removed(m, roleId, resourceId, ALL) == Ok(m - {TupleOf(roleId, resourceId)})
  {
  }

  /**
   * Removing a set action other than ALL drops just that entry: the
   * action then answers from ALL, or null, and the tuple disappears when
   * it was the last entry.
   */
  lemma RemoveSetAction(m: Matrix, roleId: string, resourceId: string, a: Action)
    requires a != ALL
    requires TupleOf(roleId, resourceId) in m && a in m[TupleOf(roleId, resourceId)]
    ensures var t := TupleOf(roleId, resourceId);
      var m' := Removed(m, roleId, resourceId, a).value;
      Removed(m, roleId, resourceId, a).Ok? &&
      (t in m' <==> m[t].Keys != {a}) &&
      Allowed(m', t, a) == (if ALL in m[t] then Some(m[t][ALL]) else None)
  {
    var t := TupleOf(roleId, resourceId);
    var p := m[t];
    if p.Keys == {a} {
      assert p - {a} == map[];
    } else {
      var b :| b in p && b != a;
      assert b in (p - {a});
    }
  }

  /**
   * Removing an unset action while ALL is set takes ALL apart: ALL is
   * gone, the removed action is unspecified, and every other named action
   * now holds ALL's old value, overwriting any entry it had; an unknown
   * action that answered from ALL becomes unspecified.
   */
  lemma RemoveExpandsAll(m: Matrix, roleId: string, resourceId: string, a: Action, b: Action)
    requires TupleOf(roleId, resourceId) in m
    requires a !in m[TupleOf(roleId, resourceId)] && ALL in m[TupleOf(roleId, resourceId)]
    ensures var t := TupleOf(roleId, resourceId);
      var v := m[t][ALL];
      var m' := Removed(m, roleId, resourceId, a).value;
      Removed(m, roleId, resourceId, a).Ok? && t in m' &&
      ALL !in m'[t] && Allowed(m', t, a) == None &&
      (b in Concrete && b != a ==> m'[t][b] == v && Allowed(m', t, b) == Some(v)) &&
      (b !in Concrete && b != ALL && b !in m[t] ==> Allowed(m', t, b) == None)
  {
    var t := TupleOf(roleId, resourceId);
    var p := m[t];
    var e := Expand(p, a, p[ALL]);
    ExpandShape(p, a, p[ALL], b);
    assert Removed(m, roleId, resourceId, a) == Ok(m[t := e]);
  }

  /**
   * The expansion drops ALL and holds the value on every named action
   * but `a`; other entries are kept, so it is never empty.
   */
  lemma ExpandShape(p: Perm, a: Action, v: bool, b: Action)
    ensures ALL !in Expand(p, a, v) && Expand(p, a, v) != map[]
    ensures a !in p ==> a !in Expand(p, a, v)
    ensures b in Concrete && b != a ==> b in Expand(p, a, v) && Expand(p, a, v)[b] == v
    ensures b !in Concrete && b != ALL ==> (b in Expand(p, a, v) <==> b in p)
  {
    FillShape(a, v, b);
  }

  /** The filled entries: the named actions but `a`, each holding `v`. */
  lemma FillShape(a: Action, v: bool, b: Action)
    ensures ALL !in Fill(a, v) && a !in Fill(a, v)
    ensures CREATE in Fill(a, v) || READ in Fill(a, v)
    ensures b in Concrete && b != a ==> b in Fill(a, v) && Fill(a, v)[b] == v
    ensures b !in Concrete ==> b !in Fill(a, v)
  {
    assert Concrete == [CREATE, READ, UPDATE, DELETE];
  }

  /**
   * Removing the same action twice fails the second time when the tuple
   * had no ALL entry (the second remove finds nothing to remove).
   */
  lemma RemoveTwiceFails(m: Matrix, roleId: string, resourceId: string, a: Action)
    requires a != ALL
    requires TupleOf(roleId, resourceId) in m && ALL !in m[TupleOf(roleId, resourceId)]
    requires Removed(m, roleId, resourceId, a).Ok?
    ensures Removed(Removed(m, roleId, resourceId, a).value, roleId, resourceId, a).Err?
  {
  }

  // ---------------------------------------------------------------------------
  // removeByRole, removeByResource
  // ---------------------------------------------------------------------------

  /** The tuples of one role. */
  function TuplesOfRole(m: Matrix, roleId: string): set<Tuple> {
    set t | t in m && t.role == roleId
  }

  /** The tuples of one resource. */
  function TuplesOfResource(m: Matrix, resourceId: string): set<Tuple> {
    set t | t in m && t.resource == resourceId
  }

  /** The matrix without the tuples of one role. */
  function DropRole(m: Matrix, roleId: string): (r: Matrix)
    ensures r.Keys == m.Keys - TuplesOfRole(m, roleId)
  {
    map t | t in m && t.role != roleId :: m[t]
  }

  /** The matrix without the tuples of one resource. */
  function DropResource(m: Matrix, resourceId: string): (r: Matrix)
    ensures r.Keys == m.Keys - TuplesOfResource(m, resourceId)
  {
    map t | t in m && t.resource != resourceId :: m[t]
  }

  /** The matrix without the tuples of any of the roles. */
  function DropRoles(m: Matrix, ids: set<string>): Matrix {
    map t | t in m && t.role !in ids :: m[t]
  }

  /** The matrix without the tuples of any of the resources. */
  function DropResources(m: Matrix, ids: set<string>): Matrix {
    map t | t in m && t.resource !in ids :: m[t]
  }

  /** The tuples of any of the roles. */
  function TuplesOfRoles(m: Matrix, ids: set<string>): set<Tuple> {
    set t | t in m && t.role in ids
  }

  /** The tuples of any of the resources. */
  function TuplesOfResources(m: Matrix, ids: set<string>): set<Tuple> {
    set t | t in m && t.resource in ids
  }

  /** The tuples dropped for one more role join those already dropped. */
  lemma TuplesOfRolesStep(m: Matrix, ids: set<string>, id: string)
    ensures TuplesOfRoles(m, ids) + TuplesOfRole(DropRoles(m, ids), id) == TuplesOfRoles(m, ids + {id})
  {
  }

  /** The tuples dropped for one more resource join those already dropped. */
  lemma TuplesOfResourcesStep(m: Matrix, ids: set<string>, id: string)
    ensures TuplesOfResources(m, ids) + TuplesOfResource(DropResources(m, ids), id) == TuplesOfResources(m, ids + {id})
  {
  }

  /** Dropping one more role extends the dropped set. */
  lemma DropRolesStep(m: Matrix, ids: set<string>, id: string)
    ensures DropRole(DropRoles(m, ids), id) == DropRoles(m, ids + {id})
  {
  }

  /** Dropping one more resource extends the dropped set. */
  lemma DropResourcesStep(m: Matrix, ids: set<string>, id: string)
    ensures DropResource(DropResources(m, ids), id) == DropResources(m, ids + {id})
  {
  }

  /** Dropping a role leaves the matrix without any tuple of it, and every other tuple as it was. */
  lemma DropRoleExact(m: Matrix, roleId: string, t: Tuple)
    ensures t in DropRole(m, roleId) <==> t in m && t.role != roleId
    ensures t in DropRole(m, roleId) ==> DropRole(m, roleId)[t] == m[t]
    ensures DropRole(DropRole(m, roleId), roleId) == DropRole(m, roleId)
  {
  }

  /** Dropping a resource leaves the matrix without any tuple of it, and every other tuple as it was. */
  lemma DropResourceExact(m: Matrix, resourceId: string, t: Tuple)
    ensures t in DropResource(m, resourceId) <==> t in m && t.resource != resourceId
    ensures t in DropResource(m, resourceId) ==> DropResource(m, resourceId)[t] == m[t]
    ensures DropResource(DropResource(m, resourceId), resourceId) == DropResource(m, resourceId)
  {
  }

  // ---------------------------------------------------------------------------
  // Default tuple
  // ---------------------------------------------------------------------------

  /** The matrix a new Permission holds: "*::*" denied on ALL. */
  const Initial: Matrix := map[DefaultTuple := map[ALL := false]]

  /** A fresh matrix denies every action on the default tuple and is denied-all there. */
  lemma InitialDeniesEverything(a: Action)
    ensures Allowed(Initial, DefaultTuple, a) == Some(false)
    ensures Denied(Initial, DefaultTuple, a) == Some(true)
    ensures AllowedAll(Initial, DefaultTuple) == Some(false)
    ensures DeniedAll(Initial, DefaultTuple) == Some(true)
    ensures forall t :: t != DefaultTuple ==> Allowed(Initial, t, a) == None
  {
    assert false in Initial[DefaultTuple].Values by {
      assert Initial[DefaultTuple][ALL] == false;
    }
    assert true !in Initial[DefaultTuple].Values;
  }

  /** makeDefaultAllow/makeDefaultDeny replace the whole default tuple, and it then answers that value for every action. */
  lemma DefaultReplaced(m: Matrix, v: bool, a: Action)
    ensures var m' := m[DefaultTuple := map[ALL := v]];
      Allowed(m', DefaultTuple, a) == Some(v) &&
      AllowedAll(m', DefaultTuple) == Some(v) &&
      DeniedAll(m', DefaultTuple) == Some(!v)
  {
    var p: Perm := map[ALL := v];
    assert p.Keys == {ALL};
    assert p[ALL] == v;
  }
}
