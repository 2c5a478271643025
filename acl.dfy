/**
 * The Acl class of src/acl.js: a permission matrix and the two
 * hierarchies (resources and roles) it is evaluated against. Queries walk
 * both paths to the root; the convenience methods register before they
 * grant; removing a role or resource cascades into the matrix.
 */
module Acls {
  import opened Common
  import opened Seqs
  import opened Actions
  import opened TupleKeys
  import opened Matrices
  import opened Permissions
  import opened Forests
  import opened Registries
  import opened Evaluation

  /** The two lists getOrphanPermissions returns: ids the matrix uses but the registries lack. */
  datatype Orphans = Orphans(resource: seq<string>, role: seq<string>)

  /** A registry after an add without a parent whose error the caller ignores. */
  function Registered(reg: Reg, entry: Input): Reg {
    match Added(reg, entry, Undefined)
    case Ok(r) => r
    case Err(_) => reg
  }

  /** Partway through the orphan loop: the first `i` keys are not empty and their unregistered ones were kept. */
  ghost predicate Sifted(keys: seq<string>, registered: set<string>, i: int, orphans: seq<string>) {
    0 <= i <= |keys| && "" !in keys[..i] && orphans == FilterOut(keys[..i], registered)
  }

  /** One more non-empty key, kept when it is unregistered. */
  lemma SiftStep(keys: seq<string>, registered: set<string>, i: int, orphans: seq<string>)
    requires Sifted(keys, registered, i, orphans) && i < |keys| && keys[i] != ""
    ensures Sifted(keys, registered, i + 1, orphans + (if keys[i] in registered then [] else [keys[i]]))
  {
    FilterOutAppend(keys[..i], keys[i], registered);
    assert keys[..i + 1] == keys[..i] + [keys[i]];
  }

  /** At the end of the loop no key was empty and the orphans are the unregistered keys. */
  lemma SiftEnd(keys: seq<string>, registered: set<string>, orphans: seq<string>)
    requires Sifted(keys, registered, |keys|, orphans)
    ensures "" !in keys && orphans == FilterOut(keys, registered)
  {
    assert keys[..|keys|] == keys;
  }

  /**
   * The unregistered ids of one column of key parts: given its distinct
   * ids other than "*", the empty id is among them exactly when the column
   * holds it, and filtering out the registered ones leaves exactly the
   * orphans.
   */
  lemma Orphaned(column: seq<string>, keys: seq<string>, registered: set<string>)
    requires forall k :: k in keys <==> k in column && k != ASTERISK
    ensures "" in keys <==> "" in column
    ensures forall k :: k in FilterOut(keys, registered) <==> k in column && k != ASTERISK && k !in registered
  {
  }

  /** Some id of the column, other than the wildcard, is not registered. */
  ghost predicate OrphanIn(column: seq<string>, registered: set<string>) {
    exists k :: k in column && k != ASTERISK && k !in registered
  }

  /** The records after an add without a parent whose error the caller ignores. */
  function Recorded(recs: map<string, Input>, reg: Reg, entry: Input): map<string, Input> {
    if Added(reg, entry, Undefined).Ok? then recs[GetValue(entry).value := entry] else recs
  }

  /**
   * After an ignored add every entry keeps its parent, and the entry's own
   * key is registered (new, or already there) unless it resolves to nothing.
   */
  lemma RegisteredKeeps(reg: Reg, entry: Input)
    ensures forall k :: k in reg ==> k in Registered(reg, entry) && Registered(reg, entry)[k] == reg[k]
    ensures Registered(reg, entry).Keys ==
      reg.Keys + (if !entry.Falsy() && GetValue(entry).value != "" then {GetValue(entry).value} else {})
  {
    AddedSucceeds(reg, entry, Undefined);
  }

  /** Every tuple names the wildcard or a registered role, and the wildcard or a registered resource. */
  ghost predicate NoOrphans(m: Matrix, roleReg: Reg, resReg: Reg) {
    forall t :: t in m ==> (t.role == ASTERISK || t.role in roleReg) && (t.resource == ASTERISK || t.resource in resReg)
  }

  /**
   * On safe tuples the orphan test over the key parts is the test over the
   * tuples themselves: some part is an unregistered id exactly when some
   * tuple names an unregistered role or resource.
   */
  lemma SafeOrphans(m: Matrix, order: seq<Tuple>, roleReg: Reg, resReg: Reg)
    requires forall t :: t in order <==> t in m
    requires SafeTuples(order)
    ensures Separable(order)
    ensures OrphanIn(ResourceParts(order), resReg.Keys) || OrphanIn(RoleParts(order), roleReg.Keys) <==>
      !NoOrphans(m, roleReg, resReg)
  {
    SafeKeysSeparate(order);
    RoleOrphanIn(m, order, roleReg.Keys);
    ResourceOrphanIn(m, order, resReg.Keys);
  }

  /** The role column holds an unregistered id exactly when some tuple names an unregistered role. */
  lemma RoleOrphanIn(m: Matrix, order: seq<Tuple>, registered: set<string>)
    requires forall t :: t in order <==> t in m
    ensures OrphanIn(Roles(order), registered) <==> exists t :: t in m && t.role != ASTERISK && t.role !in registered
  {
    if OrphanIn(Roles(order), registered) {
      var k :| k in Roles(order) && k != ASTERISK && k !in registered;
      var i :| 0 <= i < |order| && Roles(order)[i] == k;
      assert order[i] in m;
    }
    if exists t :: t in m && t.role != ASTERISK && t.role !in registered {
      var t :| t in m && t.role != ASTERISK && t.role !in registered;
      var i :| 0 <= i < |order| && order[i] == t;
      assert Roles(order)[i] == t.role;
    }
  }

  /** The resource column holds an unregistered id exactly when some tuple names an unregistered resource. */
  lemma ResourceOrphanIn(m: Matrix, order: seq<Tuple>, registered: set<string>)
    requires forall t :: t in order <==> t in m
    ensures OrphanIn(Resources(order), registered) <==> exists t :: t in m && t.resource != ASTERISK && t.resource !in registered
  {
    if OrphanIn(Resources(order), registered) {
      var k :| k in Resources(order) && k != ASTERISK && k !in registered;
      var i :| 0 <= i < |order| && Resources(order)[i] == k;
      assert order[i] in m;
    }
    if exists t :: t in m && t.resource != ASTERISK && t.resource !in registered {
      var t :| t in m && t.resource != ASTERISK && t.resource !in registered;
      var i :| 0 <= i < |order| && order[i] == t;
      assert Resources(order)[i] == t.resource;
    }
  }

  /**
   * allow/deny register before they grant, so a matrix without orphans
   * keeps none: the new tuple's role and resource are registered, or are
   * the wildcard that stands for an empty id.
   */
  lemma GrantKeepsNoOrphans(m: Matrix, roleReg: Reg, resReg: Reg, role: Input, resource: Input, a: Action, v: bool)
    requires NoOrphans(m, roleReg, resReg)
    requires !role.Falsy() && !resource.Falsy()
    ensures NoOrphans(Set(m, TupleOf(GetValue(role).value, GetValue(resource).value), a, v),
                      Registered(roleReg, role), Registered(resReg, resource))
  {
    RegisteredKeeps(roleReg, role);
    RegisteredKeeps(resReg, resource);
  }

  /** Why remove refuses an entry: it resolves to nothing, or it is not registered. */
  predicate Unremovable(reg: Reg, entry: Input) {
    entry.Falsy() || GetValue(entry).value == "" || GetValue(entry).value !in reg
  }

  /** The error remove raises for an entry it refuses. */
  function RemoveError(entry: Input): Error {
    if entry.Falsy() || GetValue(entry).value == "" then NullError else NotFoundError(GetValue(entry).value)
  }

  /** The keys remove takes out of a registry: the subtree of `e`, or `e` alone. */
  ghost function Gone(reg: Reg, rank: map<string, nat>, e: string, cascade: bool): set<string>
    requires Ranked(reg, rank)
  {
    if cascade then Subtree(reg, rank, e) else {e}
  }

  /**
   * For a registered role and resource, the exact tuple is probed first:
   * whenever it answers, isAllowed/isDenied answer as it does, whatever
   * their ancestors say.
   */
  lemma OwnTupleWins(m: Matrix, a: Action, deny: bool, roleReg: Reg, roleRank: map<string, nat>,
                     resReg: Reg, resRank: map<string, nat>, roleId: string, resourceId: string)
    requires Forest(roleReg, roleRank) && Forest(resReg, resRank)
    requires roleId in roleReg && resourceId in resReg
    requires ProbeAt(m, a, deny, roleId, resourceId).Some?
    ensures Decide(m, a, deny, Path(roleReg, roleRank, roleId), Path(resReg, resRank, resourceId)) ==
      ProbeAt(m, a, deny, roleId, resourceId)
  {
    PathShape(roleReg, roleRank, roleId);
    PathShape(resReg, resRank, resourceId);
    OwnTupleDecides(m, a, deny, Path(roleReg, roleRank, roleId), Path(resReg, resRank, resourceId));
  }

  /** An unregistered role and resource are judged by the default tuple "*::*" alone. */
  lemma UnregisteredUsesDefault(m: Matrix, a: Action, deny: bool, roleReg: Reg, roleRank: map<string, nat>,
                                resReg: Reg, resRank: map<string, nat>, roleId: string, resourceId: string)
    requires Forest(roleReg, roleRank) && Forest(resReg, resRank)
    requires roleId !in roleReg && resourceId !in resReg
    ensures Decide(m, a, deny, Path(roleReg, roleRank, roleId), Path(resReg, resRank, resourceId)) ==
      Probe(m, a, deny, DefaultTuple)
  {
    PathShape(roleReg, roleRank, roleId);
    PathShape(resReg, resRank, resourceId);
    UnregisteredFallsToDefault(m, a, deny);
  }

  /** On a fresh matrix every query is denied: isAllowed is false and isDenied true. */
  lemma FreshAclDenies(a: Action, roleReg: Reg, roleRank: map<string, nat>,
                       resReg: Reg, resRank: map<string, nat>, roleId: string, resourceId: string)
    requires Forest(roleReg, roleRank) && Forest(resReg, resRank)
    ensures Decide(Initial, a, false, Path(roleReg, roleRank, roleId), Path(resReg, resRank, resourceId)) == Some(false)
    ensures Decide(Initial, a, true, Path(roleReg, roleRank, roleId), Path(resReg, resRank, resourceId)) == Some(true)
  {
    PathShape(roleReg, roleRank, roleId);
    PathShape(resReg, resRank, resourceId);
    FreshMatrixDenies(a, Path(roleReg, roleRank, roleId), Path(resReg, resRank, resourceId));
  }

  /** The add that allow, deny and their all-variants attempt, ignoring its error. */
  method Register(reg: Registry, entry: Input)
    requires reg.Valid()
    modifies reg
    ensures reg.Valid()
    ensures reg.registry == Registered(old(reg.registry), entry)
    ensures reg.records == Recorded(old(reg.records), old(reg.registry), entry)
  {
    var ignored := reg.Add(entry, Undefined);
  }

  /** The matrix and key order after removeByRole for each of the ids `done`, starting from `m0` and `o0`. */
  ghost predicate PurgedRoles(m0: Matrix, o0: seq<Tuple>, done: set<string>, m: Matrix, o: seq<Tuple>) {
    m == DropRoles(m0, done) && o == FilterOut(o0, TuplesOfRoles(m0, done))
  }

  /** One more removeByRole extends the purged ids by one. */
  lemma PurgeRoleStep(m0: Matrix, o0: seq<Tuple>, done: set<string>, id: string, m: Matrix, o: seq<Tuple>)
    requires PurgedRoles(m0, o0, done, m, o)
    ensures PurgedRoles(m0, o0, done + {id}, DropRole(m, id), FilterOut(o, TuplesOfRole(m, id)))
  {
    DropRolesStep(m0, done, id);
    FilterOutTwice(o0, TuplesOfRoles(m0, done), TuplesOfRole(m, id));
    TuplesOfRolesStep(m0, done, id);
  }

  /** The loop of removeRole: removeByRole for every removed role id, in turn. */
  method RemoveEachRole(p: Permission, ids: seq<string>)
    requires p.Valid()
    modifies p
    ensures p.Valid()
    ensures p.perms == DropRoles(old(p.perms), Elems(ids))
    ensures p.order == FilterOut(old(p.order), TuplesOfRoles(old(p.perms), Elems(ids)))
  {
    ghost var m0, o0 := p.perms, p.order;
    assert DropRoles(m0, {}) == m0;
    assert Elems(ids[..0]) == {} && TuplesOfRoles(m0, {}) == {};
    FilterOutNone(o0, {});
    for i := 0 to |ids|
      invariant p.Valid()
      invariant PurgedRoles(m0, o0, Elems(ids[..i]), p.perms, p.order)
    {
      assert Elems(ids[..i + 1]) == Elems(ids[..i]) + {ids[i]} by {
        assert ids[..i + 1] == ids[..i] + [ids[i]];
      }
      PurgeRoleStep(m0, o0, Elems(ids[..i]), ids[i], p.perms, p.order);
      var count := p.RemoveByRole(ids[i]);
    }
    assert ids[..|ids|] == ids;
  }

  /** The matrix and key order after removeByResource for each of the ids `done`, starting from `m0` and `o0`. */
  ghost predicate PurgedResources(m0: Matrix, o0: seq<Tuple>, done: set<string>, m: Matrix, o: seq<Tuple>) {
    m == DropResources(m0, done) && o == FilterOut(o0, TuplesOfResources(m0, done))
  }

  /** One more removeByResource extends the purged ids by one. */
  lemma PurgeResourceStep(m0: Matrix, o0: seq<Tuple>, done: set<string>, id: string, m: Matrix, o: seq<Tuple>)
    requires PurgedResources(m0, o0, done, m, o)
    ensures PurgedResources(m0, o0, done + {id}, DropResource(m, id), FilterOut(o, TuplesOfResource(m, id)))
  {
    DropResourcesStep(m0, done, id);
    FilterOutTwice(o0, TuplesOfResources(m0, done), TuplesOfResource(m, id));
    TuplesOfResourcesStep(m0, done, id);
  }

  /** The loop of removeResource: removeByResource for every removed resource id, in turn. */
  method RemoveEachResource(p: Permission, ids: seq<string>)
    requires p.Valid()
    modifies p
    ensures p.Valid()
    ensures p.perms == DropResources(old(p.perms), Elems(ids))
    ensures p.order == FilterOut(old(p.order), TuplesOfResources(old(p.perms), Elems(ids)))
  {
    ghost var m0, o0 := p.perms, p.order;
    assert DropResources(m0, {}) == m0;
    assert Elems(ids[..0]) == {} && TuplesOfResources(m0, {}) == {};
    FilterOutNone(o0, {});
    for i := 0 to |ids|
      invariant p.Valid()
      invariant PurgedResources(m0, o0, Elems(ids[..i]), p.perms, p.order)
    {
      assert Elems(ids[..i + 1]) == Elems(ids[..i]) + {ids[i]} by {
        assert ids[..i + 1] == ids[..i] + [ids[i]];
      }
      PurgeResourceStep(m0, o0, Elems(ids[..i]), ids[i], p.perms, p.order);
      var count := p.RemoveByResource(ids[i]);
    }
    assert ids[..|ids|] == ids;
  }

  /**
   * The keys of `keys` that `reg` does not hold, in order (one of the
   * accumulating loops of getOrphanPermissions); has() refuses the empty id.
   */
  method Unregistered(keys: seq<string>, reg: Registry) returns (r: Result<seq<string>, Error>)
    ensures r.Err? <==> "" in keys
    ensures r.Err? ==> r.error == NullError
    ensures r.Ok? ==> r.value == FilterOut(keys, reg.registry.Keys)
  {
    var orphans: seq<string> := [];
    for i := 0 to |keys|
      invariant Sifted(keys, reg.registry.Keys, i, orphans)
    {
      var known := reg.Has(Str(keys[i]));
      if known.Err? {
        assert keys[i] in keys;
        return Err(known.error);
      }
      SiftStep(keys, reg.registry.Keys, i, orphans);
      if !known.value {
        orphans := orphans + [keys[i]];
      }
    }
    SiftEnd(keys, reg.registry.Keys, orphans);
    r := Ok(orphans);
  }

  class Acl {
    const permissions: Permission
    const resources: Registry
    const roles: Registry

    ghost predicate Valid()
      reads this, permissions, resources, roles
    {
      permissions.Valid() && resources.Valid() && roles.Valid() && resources != roles
    }

    constructor (perms: Permission, resourceReg: Registry, roleReg: Registry)
      requires perms.Valid() && resourceReg.Valid() && roleReg.Valid() && resourceReg != roleReg
      ensures Valid()
      ensures permissions == perms && resources == resourceReg && roles == roleReg
    {
      permissions := perms;
      resources := resourceReg;
      roles := roleReg;
    }

    /** addResource: add to the resource hierarchy, with add's errors. */
    method AddResource(resource: Input, parent: Input) returns (out: Outcome<Error>)
      requires Valid()
      modifies resources
      ensures Valid()
      ensures match Added(old(resources.registry), resource, parent)
        case Err(err) => out == Fail(err) && resources.registry == old(resources.registry) &&
          resources.records == old(resources.records)
        case Ok(reg) => (out == Pass && resources.registry == reg &&
          resources.records == old(resources.records)[GetValue(resource).value := resource])
    {
      out := resources.Add(resource, parent);
    }

    /** addRole: add to the role hierarchy, with add's errors. */
    method AddRole(role: Input, parent: Input) returns (out: Outcome<Error>)
      requires Valid()
      modifies roles
      ensures Valid()
      ensures match Added(old(roles.registry), role, parent)
        case Err(err) => out == Fail(err) && roles.registry == old(roles.registry) && roles.records == old(roles.records)
        case Ok(reg) => out == Pass && roles.registry == reg && roles.records == old(roles.records)[GetValue(role).value := role]
    {
      out := roles.Add(role, parent);
    }

    /** allow: register the role and the resource (ignoring add's errors), then grant the action. */
    method Allow(role: Input, resource: Input, action: string) returns (out: Outcome<Error>)
      requires Valid()
      modifies roles, resources, permissions
      ensures Valid()
      ensures roles.registry == Registered(old(roles.registry), role)
      ensures roles.records == Recorded(old(roles.records), old(roles.registry), role)
      ensures resources.registry == Registered(old(resources.registry), resource)
      ensures resources.records == Recorded(old(resources.records), old(resources.registry), resource)
      ensures out.Fail? <==> role.Falsy() || resource.Falsy()
      ensures out.Fail? ==> (out.error == NullError &&
        permissions.perms == old(permissions.perms) && permissions.order == old(permissions.order))
      ensures out.Pass? ==>
        var t := TupleOf(GetValue(role).value, GetValue(resource).value);
        permissions.perms == Set(old(permissions.perms), t, Parse(action), true) &&
        permissions.order == old(permissions.order) + (if t in old(permissions.perms) then [] else [t])
    {
      Register(roles, role);
      Register(resources, resource);
      out := permissions.Allow(role, resource, action);
    }

    /** deny: register the role and the resource (ignoring add's errors), then deny the action. */
    method Deny(role: Input, resource: Input, action: string) returns (out: Outcome<Error>)
      requires Valid()
      modifies roles, resources, permissions
      ensures Valid()
      ensures roles.registry == Registered(old(roles.registry), role)
      ensures roles.records == Recorded(old(roles.records), old(roles.registry), role)
      ensures resources.registry == Registered(old(resources.registry), resource)
      ensures resources.records == Recorded(old(resources.records), old(resources.registry), resource)
      ensures out.Fail? <==> role.Falsy() || resource.Falsy()
      ensures out.Fail? ==> (out.error == NullError &&
        permissions.perms == old(permissions.perms) && permissions.order == old(permissions.order))
      ensures out.Pass? ==>
        var t := TupleOf(GetValue(role).value, GetValue(resource).value);
        permissions.perms == Set(old(permissions.perms), t, Parse(action), false) &&
        permissions.order == old(permissions.order) + (if t in old(permissions.perms) then [] else [t])
    {
      Register(roles, role);
      Register(resources, resource);
      out := permissions.Deny(role, resource, action);
    }

    /** allowAllResource: register the role, then allow it ALL on the wildcard resource. */
    method AllowAllResource(role: Input) returns (out: Outcome<Error>)
      requires Valid()
      modifies roles, permissions
      ensures Valid()
      ensures roles.registry == Registered(old(roles.registry), role)
      ensures roles.records == Recorded(old(roles.records), old(roles.registry), role)
      ensures out.Fail? <==> role.Falsy()
      ensures out.Fail? ==> (out.error == NullError &&
        permissions.perms == old(permissions.perms) && permissions.order == old(permissions.order))
      ensures out.Pass? ==>
        var t := TupleOf(GetValue(role).value, ASTERISK);
        permissions.perms == Set(old(permissions.perms), t, ALL, true) &&
        permissions.order == old(permissions.order) + (if t in old(permissions.perms) then [] else [t])
    {
      Register(roles, role);
      out := permissions.Allow(role, Str(ASTERISK), "");
    }

    /** allowAllRole: register the resource, then allow ALL on it for the wildcard role. */
    method AllowAllRole(resource: Input) returns (out: Outcome<Error>)
      requires Valid()
      modifies resources, permissions
      ensures Valid()
      ensures resources.registry == Registered(old(resources.registry), resource)
      ensures resources.records == Recorded(old(resources.records), old(resources.registry), resource)
      ensures out.Fail? <==> resource.Falsy()
      ensures out.Fail? ==> (out.error == NullError &&
        permissions.perms == old(permissions.perms) && permissions.order == old(permissions.order))
      ensures out.Pass? ==>
        var t := TupleOf(ASTERISK, GetValue(resource).value);
        permissions.perms == Set(old(permissions.perms), t, ALL, true) &&
        permissions.order == old(permissions.order) + (if t in old(permissions.perms) then [] else [t])
    {
      Register(resources, resource);
      out := permissions.Allow(Str(ASTERISK), resource, "");
    }

    /** denyAllResource: register the role, then deny it ALL on the wildcard resource. */
    method DenyAllResource(role: Input) returns (out: Outcome<Error>)
      requires Valid()
      modifies roles, permissions
      ensures Valid()
      ensures roles.registry == Registered(old(roles.registry), role)
      ensures roles.records == Recorded(old(roles.records), old(roles.registry), role)
      ensures out.Fail? <==> role.Falsy()
      ensures out.Fail? ==> (out.error == NullError &&
        permissions.perms == old(permissions.perms) && permissions.order == old(permissions.order))
      ensures out.Pass? ==>
        var t := TupleOf(GetValue(role).value, ASTERISK);
        permissions.perms == Set(old(permissions.perms), t, ALL, false) &&
        permissions.order == old(permissions.order) + (if t in old(permissions.perms) then [] else [t])
    {
      Register(roles, role);
      out := permissions.Deny(role, Str(ASTERISK), "");
    }

    /** denyAllRole: register the resource, then deny ALL on it for the wildcard role. */
    method DenyAllRole(resource: Input) returns (out: Outcome<Error>)
      requires Valid()
      modifies resources, permissions
      ensures Valid()
      ensures resources.registry == Registered(old(resources.registry), resource)
      ensures resources.records == Recorded(old(resources.records), old(resources.registry), resource)
      ensures out.Fail? <==> resource.Falsy()
      ensures out.Fail? ==> (out.error == NullError &&
        permissions.perms == old(permissions.perms) && permissions.order == old(permissions.order))
      ensures out.Pass? ==>
        var t := TupleOf(ASTERISK, GetValue(resource).value);
        permissions.perms == Set(old(permissions.perms), t, ALL, false) &&
        permissions.order == old(permissions.order) + (if t in old(permissions.perms) then [] else [t])
    {
      Register(resources, resource);
      out := permissions.Deny(Str(ASTERISK), resource, "");
    }

    /** clear: empty the matrix and both registries. */
    method Clear()
      requires Valid()
      modifies permissions, resources, roles
      ensures Valid()
      ensures permissions.perms == map[] && permissions.order == []
      ensures resources.registry == map[] && resources.records == map[]
      ensures roles.registry == map[] && roles.records == map[]
    {
      permissions.Clear();
      resources.Clear();
      roles.Clear();
    }

    /** makeDefaultAllow: the default tuple becomes allowed on ALL. */
    method MakeDefaultAllow()
      requires Valid()
      modifies permissions
      ensures Valid()
      ensures permissions.perms == old(permissions.perms)[DefaultTuple := map[ALL := true]]
      ensures permissions.order ==
        old(permissions.order) + (if DefaultTuple in old(permissions.perms) then [] else [DefaultTuple])
    {
      permissions.MakeDefaultAllow();
    }

    /** makeDefaultDeny: the default tuple becomes denied on ALL. */
    method MakeDefaultDeny()
      requires Valid()
      modifies permissions
      ensures Valid()
      ensures permissions.perms == old(permissions.perms)[DefaultTuple := map[ALL := false]]
      ensures permissions.order ==
        old(permissions.order) + (if DefaultTuple in old(permissions.perms) then [] else [DefaultTuple])
    {
      permissions.MakeDefaultDeny();
    }

    /** remove: the matrix's remove, errors included. */
    method Remove(role: Input, resource: Input, action: string) returns (out: Outcome<Error>)
      requires Valid()
      modifies permissions
      ensures Valid()
      ensures role.Falsy() || resource.Falsy() ==>
        out == Fail(NullError) && permissions.perms == old(permissions.perms) && permissions.order == old(permissions.order)
      ensures !role.Falsy() && !resource.Falsy() ==>
        match Removed(old(permissions.perms), GetValue(role).value, GetValue(resource).value, Parse(action))
        case Err(e) => out == Fail(e) && permissions.perms == old(permissions.perms) && permissions.order == old(permissions.order)
        case Ok(m) => (out == Pass && permissions.perms == m &&
          permissions.order == FilterOut(old(permissions.order), old(permissions.perms).Keys - m.Keys))
    {
      out := permissions.Remove(role, resource, action);
    }

    /**
     * removeRole: a null role is refused; otherwise the role leaves its
     * registry (with its subtree, or handing its children to its parent,
     * with remove's errors) and every tuple of every removed role leaves
     * the matrix.
     */
    method RemoveRole(role: Input, removeDescendants: bool) returns (out: Outcome<Error>)
      requires Valid()
      modifies roles, permissions
      ensures Valid()
      ensures role.Null? ==> out == Fail(NullRemoval("role"))
      ensures !role.Null? ==> (out.Fail? <==> Unremovable(old(roles.registry), role))
      ensures !role.Null? && out.Fail? ==> out.error == RemoveError(role)
      ensures out.Fail? ==> (roles.registry == old(roles.registry) && roles.records == old(roles.records) &&
        permissions.perms == old(permissions.perms) && permissions.order == old(permissions.order))
      ensures out.Pass? ==>
        var e := GetValue(role).value;
        var gone := Gone(old(roles.registry), old(roles.rank), e, removeDescendants);
        roles.records == old(roles.records) - gone &&
        roles.registry == (if removeDescendants then old(roles.registry) - gone else Reparent(old(roles.registry), e)) &&
        permissions.perms == DropRoles(old(permissions.perms), gone) &&
        permissions.order == FilterOut(old(permissions.order), TuplesOfRoles(old(permissions.perms), gone))
    {
      if role.Null? {
        return Fail(NullRemoval("role"));
      }
      var r := roles.Remove(role, removeDescendants);
      if r.Err? {
        return Fail(r.error);
      }
      RemoveEachRole(permissions, r.value);
      assert !removeDescendants ==> Elems(r.value) == {GetValue(role).value};
      out := Pass;
    }

    /**
     * removeResource: a null resource is refused; otherwise the resource
     * leaves its registry (with its subtree, or handing its children to its
     * parent, with remove's errors) and every tuple of every removed
     * resource leaves the matrix.
     */
    method RemoveResource(resource: Input, removeDescendants: bool) returns (out: Outcome<Error>)
      requires Valid()
      modifies resources, permissions
      ensures Valid()
      ensures resource.Null? ==> out == Fail(NullRemoval("resource"))
      ensures !resource.Null? ==> (out.Fail? <==> Unremovable(old(resources.registry), resource))
      ensures !resource.Null? && out.Fail? ==> out.error == RemoveError(resource)
      ensures out.Fail? ==> (resources.registry == old(resources.registry) && resources.records == old(resources.records) &&
        permissions.perms == old(permissions.perms) && permissions.order == old(permissions.order))
      ensures out.Pass? ==>
        var e := GetValue(resource).value;
        var gone := Gone(old(resources.registry), old(resources.rank), e, removeDescendants);
        resources.records == old(resources.records) - gone &&
        resources.registry == (if removeDescendants then old(resources.registry) - gone else Reparent(old(resources.registry), e)) &&
        permissions.perms == DropResources(old(permissions.perms), gone) &&
        permissions.order == FilterOut(old(permissions.order), TuplesOfResources(old(permissions.perms), gone))
    {
      if resource.Null? {
        return Fail(NullRemoval("resource"));
      }
      var r := resources.Remove(resource, removeDescendants);
      if r.Err? {
        return Fail(r.error);
      }
      RemoveEachResource(permissions, r.value);
      assert !removeDescendants ==> Elems(r.value) == {GetValue(resource).value};
      out := Pass;
    }

    /** importPermissions: refused unless the matrix is empty; then the snapshot replaces it. */
    method ImportPermissions(m: Matrix, keys: seq<Tuple>) returns (out: Outcome<Error>)
      requires Valid()
      requires NoDup(keys) && forall t :: t in keys <==> t in m
      modifies permissions
      ensures Valid()
      ensures out.Fail? <==> |old(permissions.perms)| != 0
      ensures out.Fail? ==> (out.error == NotEmpty("permissions") &&
        permissions.perms == old(permissions.perms) && permissions.order == old(permissions.order))
      ensures out.Pass? ==> permissions.perms == m && permissions.order == keys
    {
      if permissions.Size() != 0 {
        return Fail(NotEmpty("permissions"));
      }
      permissions.ImportMap(m, keys);
      out := Pass;
    }

    /** importResources: refused unless the resource registry is empty; then the snapshot replaces it. */
    method ImportResources(reg: Reg, recs: map<string, Input>, ghost order: map<string, nat>) returns (out: Outcome<Error>)
      requires Valid()
      requires Forest(reg, order)
      modifies resources
      ensures Valid()
      ensures out.Fail? <==> |old(resources.registry)| != 0
      ensures out.Fail? ==> (out.error == NotEmpty("resources") &&
        resources.registry == old(resources.registry) && resources.records == old(resources.records))
      ensures out.Pass? ==> resources.registry == reg && resources.records == recs
    {
      if resources.Size() != 0 {
        return Fail(NotEmpty("resources"));
      }
      resources.ImportRegistry(reg, recs, order);
      out := Pass;
    }

    /** importRoles: refused unless the role registry is empty; then the snapshot replaces it. */
    method ImportRoles(reg: Reg, recs: map<string, Input>, ghost order: map<string, nat>) returns (out: Outcome<Error>)
      requires Valid()
      requires Forest(reg, order)
      modifies roles
      ensures Valid()
      ensures out.Fail? <==> |old(roles.registry)| != 0
      ensures out.Fail? ==> (out.error == NotEmpty("roles") &&
        roles.registry == old(roles.registry) && roles.records == old(roles.records))
      ensures out.Pass? ==> roles.registry == reg && roles.records == recs
    {
      if roles.Size() != 0 {
        return Fail(NotEmpty("roles"));
      }
      roles.ImportRegistry(reg, recs, order);
      out := Pass;
    }

    /**
     * getOrphanPermissions: null (None) for an empty matrix; InvalidError
     * when some key does not split into two parts; otherwise the resource
     * parts and the role parts of the keys, each once, in first-seen order
     * and without the wildcard, that are not registered (has() refuses an
     * empty part with a NullError).
     */
    method GetOrphanPermissions() returns (r: Result<Option<Orphans>, Error>)
      requires Valid()
      ensures |permissions.perms| == 0 ==> r == Ok(None)
      ensures |permissions.perms| != 0 && !Separable(permissions.order) ==> r == Err(KeyFormError)
      ensures |permissions.perms| != 0 && Separable(permissions.order) ==>
        (r.Err? <==> "" in ResourceParts(permissions.order) || "" in RoleParts(permissions.order)) &&
        (r.Err? ==> r.error == NullError)
      ensures r.Ok? && |permissions.perms| != 0 ==> r.value.Some?
      ensures r.Ok? && r.value.Some? ==> (Separable(permissions.order) &&
        r.value.value.resource == FilterOut(Dedup(FilterOut(ResourceParts(permissions.order), {ASTERISK})), resources.registry.Keys) &&
        r.value.value.role == FilterOut(Dedup(FilterOut(RoleParts(permissions.order), {ASTERISK})), roles.registry.Keys))
      ensures r.Ok? && r.value.Some? ==> (Separable(permissions.order) &&
        (forall k :: k in r.value.value.resource <==>
          k in ResourceParts(permissions.order) && k != ASTERISK && k !in resources.registry) &&
        (forall k :: k in r.value.value.role <==>
          k in RoleParts(permissions.order) && k != ASTERISK && k !in roles.registry))
    {
      if permissions.Size() == 0 {
        return Ok(None);
      }
      var resourceKeys := permissions.GetResourceKeys();
      if resourceKeys.Err? {
        return Err(resourceKeys.error);
      }
      Orphaned(ResourceParts(permissions.order), resourceKeys.value, resources.registry.Keys);
      var orphanResources := Unregistered(resourceKeys.value, resources);
      if orphanResources.Err? {
        return Err(orphanResources.error);
      }
      var roleKeys := permissions.GetRoleKeys();
      Orphaned(RoleParts(permissions.order), roleKeys.value, roles.registry.Keys);
      var orphanRoles := Unregistered(roleKeys.value, roles);
      if orphanRoles.Err? {
        return Err(orphanRoles.error);
      }
      r := Ok(Some(Orphans(orphanResources.value, orphanRoles.value)));
    }

    /**
     * hasOrphanPermissions: false for an empty matrix; the errors of
     * getOrphanPermissions; otherwise whether some key part other than the
     * wildcard is an unregistered resource or role.
     */
    method HasOrphanPermissions() returns (r: Result<bool, Error>)
      requires Valid()
      ensures r.Err? <==> (|permissions.perms| != 0 && (!Separable(permissions.order) ||
        "" in ResourceParts(permissions.order) || "" in RoleParts(permissions.order)))
      ensures r.Err? ==> r.error == (if Separable(permissions.order) then NullError else KeyFormError)
      ensures r.Ok? ==> Separable(permissions.order) && (r.value <==>
        OrphanIn(ResourceParts(permissions.order), resources.registry.Keys) ||
        OrphanIn(RoleParts(permissions.order), roles.registry.Keys))
    {
      var orphans := GetOrphanPermissions();
      if orphans.Err? {
        return Err(orphans.error);
      }
      if orphans.value.None? {
        assert |permissions.order| == permissions.Size() == 0;
        return Ok(false);
      }
      var o := orphans.value.value;
      if |o.resource| > 0 {
        assert o.resource[0] in o.resource;
        return Ok(true);
      }
      if |o.role| > 0 {
        assert o.role[0] in o.role;
        return Ok(true);
      }
      r := Ok(false);
    }

    /**
     * The nested loops of isAllowed/isDenied: roles outer, resources inner,
     * the aggregate query for ALL and the per-action query otherwise; the
     * first answer that is not null.
     */
    method Walk(rolePath: seq<string>, resPath: seq<string>, a: Action, deny: bool) returns (g: Option<bool>)
      requires Valid()
      ensures g == Decide(permissions.perms, a, deny, rolePath, resPath)
    {
      ghost var m := permissions.perms;
      for i := 0 to |rolePath|
        invariant NullBefore(m, a, deny, rolePath, resPath, i, 0)
      {
        for j := 0 to |resPath|
          invariant NullBefore(m, a, deny, rolePath, resPath, i, j)
        {
          var grant := Query(rolePath[i], resPath[j], a, deny);
          if grant.Some? {
            DecideFirst(m, a, deny, rolePath, resPath, i, j);
            return grant;
          }
          NullBeforeNext(m, a, deny, rolePath, resPath, i, j);
        }
        NullBeforeRow(m, a, deny, rolePath, resPath, i);
      }
      DecideNone(m, a, deny, rolePath, resPath);
      g := None;
    }

    /**
     * One probe of the walk: the aggregate query for ALL and the per-action
     * query otherwise, on the tuple of one role and one resource.
     */
    method Query(roleId: string, resourceId: string, a: Action, deny: bool) returns (grant: Option<bool>)
      requires Valid()
      ensures grant == ProbeAt(permissions.perms, a, deny, roleId, resourceId)
    {
      var aro, aco := Str(roleId), Str(resourceId);
      assert QueryTuple(aro, aco) == TupleOf(roleId, resourceId);
      if a == ALL {
        if deny {
          grant := permissions.IsDeniedAll(aro, aco);
        } else {
          grant := permissions.IsAllowedAll(aro, aco);
        }
      } else if deny {
        grant := permissions.IsDenied(aro, aco, a);
        DeniedIsNegatedAllowed(permissions.perms, TupleOf(roleId, resourceId), a);
      } else {
        grant := permissions.IsAllowed(aro, aco, a);
      }
    }

    /**
     * isAllowed: a falsy role or resource is a NullError (traverseRoot
     * refuses it); otherwise the first answer along the two paths, false
     * when there is none. A missing action means ALL.
     */
    method IsAllowed(role: Input, resource: Input, action: string) returns (r: Result<bool, Error>)
      requires Valid()
      ensures r.Err? <==> role.Falsy() || resource.Falsy()
      ensures r.Err? ==> r.error == NullError
      ensures r.Ok? ==> r.value == Decide(permissions.perms, Parse(action), false,
        Path(roles.registry, roles.rank, GetValue(role).value),
        Path(resources.registry, resources.rank, GetValue(resource).value)).GetOr(false)
    {
      var resPath := resources.TraverseRoot(resource);
      if resPath.Err? {
        return Err(resPath.error);
      }
      var rolePath := roles.TraverseRoot(role);
      if rolePath.Err? {
        return Err(rolePath.error);
      }
      var grant := Walk(rolePath.value, resPath.value, Parse(action), false);
      r := Ok(grant.GetOr(false));
    }

    /** isDenied: isAllowed's walk with the deny queries. */
    method IsDenied(role: Input, resource: Input, action: string) returns (r: Result<bool, Error>)
      requires Valid()
      ensures r.Err? <==> role.Falsy() || resource.Falsy()
      ensures r.Err? ==> r.error == NullError
      ensures r.Ok? ==> r.value == Decide(permissions.perms, Parse(action), true,
        Path(roles.registry, roles.rank, GetValue(role).value),
        Path(resources.registry, resources.rank, GetValue(resource).value)).GetOr(false)
    {
      var resPath := resources.TraverseRoot(resource);
      if resPath.Err? {
        return Err(resPath.error);
      }
      var rolePath := roles.TraverseRoot(role);
      if rolePath.Err? {
        return Err(rolePath.error);
      }
      var grant := Walk(rolePath.value, resPath.value, Parse(action), true);
      r := Ok(grant.GetOr(false));
    }

    /** isAllowedStrict: only the exact tuple (falsy ids become the wildcard); null counts as false. */
    method IsAllowedStrict(role: Input, resource: Input, action: string) returns (b: bool)
      requires Valid()
      ensures b <==> Probe(permissions.perms, Parse(action), false, QueryTuple(role, resource)) == Some(true)
    {
      var a := Parse(action);
      if a == ALL {
        var g := permissions.IsAllowedAll(role, resource);
        b := g == Some(true);
      } else {
        b := permissions.IsAllowed(role, resource, a) == Some(true);
      }
    }

    /** isDeniedStrict: only the exact tuple (falsy ids become the wildcard); null counts as false. */
    method IsDeniedStrict(role: Input, resource: Input, action: string) returns (b: bool)
      requires Valid()
      ensures b <==> Probe(permissions.perms, Parse(action), true, QueryTuple(role, resource)) == Some(true)
    {
      var a := Parse(action);
      if a == ALL {
        var g := permissions.IsDeniedAll(role, resource);
        b := g == Some(true);
      } else {
        b := permissions.IsDenied(role, resource, a) == Some(true);
        DeniedIsNegatedAllowed(permissions.perms, QueryTuple(role, resource), a);
      }
    }
  }
}
