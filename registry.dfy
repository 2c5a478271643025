/**
 * The Registry class of src/registry.js: the parent map of one hierarchy
 * (roles or resources) and the records of the values that were added,
 * updated in place by add, remove and clear.
 */
module Registries {
  import opened Common
  import opened Seqs
  import opened Forests

  /** findChildren: the entries whose parent is `parentId`, each once. */
  method FindChildren(reg: Reg, parentId: string) returns (children: seq<string>)
    ensures NoDup(children)
    ensures forall k :: k in children <==> k in reg && reg[k] == parentId
  {
    children := [];
    var rest := reg.Keys;
    while rest != {}
      invariant rest <= reg.Keys
      invariant NoDup(children)
      invariant forall k :: k in children <==> k in reg && k !in rest && reg[k] == parentId
      decreases |rest|
    {
      var k :| k in rest;
      if reg[k] == parentId {
        NoDupAppend(children, [k]);
        children := children + [k];
      }
      rest := rest - {k};
    }
  }

  /**
   * What cascading remove deletes: `e` after the keys `below` that
   * remDescendants removed, which hold every child of `e`, are closed under
   * children and reach `e` through their parents. That is exactly `e`'s
   * subtree, and what remains is still a forest.
   */
  lemma RemovalIsSubtree(start: Reg, rank: map<string, nat>, e: string, below: seq<string>)
    requires Forest(start, rank) && e in start && e !in below
    requires Elems(below) <= start.Keys && DownClosed(start, Elems(below))
    requires forall k :: k in start && start[k] == e ==> k in below
    requires forall k :: k in below ==> start[k] == e || start[k] in Elems(below)
    ensures Elems(below + [e]) == Subtree(start, rank, e)
    ensures (start - Elems(below)) - {e} == start - Elems(below + [e])
    ensures Forest(start - Elems(below + [e]), rank)
  {
    var d := Elems(below + [e]);
    assert d == Elems(below) + {e};
    MapMinusTwice(start, Elems(below), {e});
    assert DownClosed(start, d);
    assert Rooted(start, d, {e});
    SubtreeExact(start, rank, e, d);
    ClosedRemovalKeepsForest(start, rank, d);
  }

  /** Every key of `s` ranks above `parentId`. */
  ghost predicate Below(rank: map<string, nat>, parentId: string, s: seq<string>) {
    parentId in rank && forall k :: k in s ==> k in rank && rank[k] > rank[parentId]
  }

  /**
   * What a removal of whole subtrees under `parentId` took out of `start`:
   * each key once, closed under children, and every key one of `roots` or
   * the child of a removed key.
   */
  ghost predicate Swept(start: Reg, rank: map<string, nat>, parentId: string, removed: seq<string>, roots: set<string>) {
    NoDup(removed) && Elems(removed) <= start.Keys &&
    DownClosed(start, Elems(removed)) && Rooted(start, Elems(removed), roots) &&
    Below(rank, parentId, removed)
  }

  /**
   * Partway through the loop for `entryId`: `entryId` first, and closed
   * under children except for the children of `entryId` still registered.
   */
  ghost predicate Partial(start: Reg, rank: map<string, nat>, parentId: string, entryId: string, removed: seq<string>) {
    NoDup(removed) && |removed| >= 1 && removed[0] == entryId && Elems(removed) <= start.Keys &&
    (forall k :: k in start && start[k] in Elems(removed) && start[k] != entryId ==> k in Elems(removed)) &&
    Rooted(start, Elems(removed), {entryId}) && Below(rank, parentId, removed)
  }

  /** Keys `sub` removed from what `removed` left of `start` join `removed`. */
  lemma AppendRemoved(start: Reg, removed: seq<string>, sub: seq<string>)
    requires NoDup(removed) && NoDup(sub) && Elems(removed) <= start.Keys
    requires Elems(sub) <= (start - Elems(removed)).Keys
    ensures NoDup(removed + sub) && Elems(removed + sub) == Elems(removed) + Elems(sub)
    ensures Elems(removed + sub) <= start.Keys
    ensures (start - Elems(removed)) - Elems(sub) == start - Elems(removed + sub)
    ensures forall k :: k in start - Elems(removed) ==> (start - Elems(removed))[k] == start[k]
  {
    assert forall y :: y in sub ==> y in Elems(sub);
    assert forall y :: y in Elems(sub) ==> y !in Elems(removed);
    assert forall y :: y in removed ==> y in Elems(removed);
    NoDupAppend(removed, sub);
    MapMinusTwice(start, Elems(removed), Elems(sub));
  }

  /** Closure and rootedness of `sub` within what was left carry over to `start`. */
  lemma SubFacts(start: Reg, removed: seq<string>, sub: seq<string>, roots: set<string>)
    requires DownClosed(start - Elems(removed), Elems(sub))
    requires Rooted(start - Elems(removed), Elems(sub), roots)
    ensures forall k :: k in start && k !in Elems(removed) && start[k] in Elems(sub) ==> k in Elems(sub)
    ensures forall k :: k in Elems(sub) ==> k in roots || start[k] in Elems(sub)
  {
    var before := start - Elems(removed);
    forall k | k in start && k !in Elems(removed)
      ensures before[k] == start[k]
    {
    }
  }

  /** Deleting `entryId` alone starts its loop. */
  lemma RemOneBegins(start: Reg, rank: map<string, nat>, parentId: string, entryId: string)
    requires Ranked(start, rank) && entryId in start && start[entryId] == parentId
    requires parentId != TOP && parentId in rank
    ensures Partial(start, rank, parentId, entryId, [entryId])
    ensures start - Elems([entryId]) == start - {entryId}
    ensures |start - {entryId}| < |start|
    ensures Ranked(start - {entryId}, rank)
  {
    assert Elems([entryId]) == {entryId};
    assert rank[entryId] > rank[parentId];
    MapMinusShrinks(start, {entryId}, entryId);
    RankedMinus(start, rank, {entryId});
  }

  /**
   * One round of the loop for `entryId` removes at least one of its
   * remaining children, so less is registered, and ranks still decrease.
   */
  lemma RemOneShrinks(start: Reg, rank: map<string, nat>, entryId: string,
                      removed: seq<string>, children: seq<string>, sub: seq<string>)
    requires Ranked(start, rank)
    requires NoDup(removed) && NoDup(sub) && Elems(removed) <= start.Keys
    requires Elems(sub) <= (start - Elems(removed)).Keys
    requires HasChildIn(start - Elems(removed), entryId)
    requires forall k :: k in start - Elems(removed) && (start - Elems(removed))[k] == entryId ==> k in children
    requires Elems(children) <= Elems(sub)
    ensures (start - Elems(removed)) - Elems(sub) == start - Elems(removed + sub)
    ensures |start - Elems(removed + sub)| < |start - Elems(removed)|
    ensures Ranked(start - Elems(removed + sub), rank)
  {
    var before := start - Elems(removed);
    AppendRemoved(start, removed, sub);
    var k0 :| k0 in before && before[k0] == entryId;
    assert k0 in children;
    MapMinusShrinks(before, Elems(sub), k0);
    RankedMinus(start, rank, Elems(removed + sub));
  }

  /** One round of the loop for `entryId` keeps the loop state. */
  lemma RemOneGrows(start: Reg, rank: map<string, nat>, parentId: string, entryId: string,
                    removed: seq<string>, children: seq<string>, sub: seq<string>)
    requires entryId in rank && parentId in rank && rank[entryId] > rank[parentId]
    requires Partial(start, rank, parentId, entryId, removed)
    requires forall k :: k in children ==> k in start && start[k] == entryId
    requires Swept(start - Elems(removed), rank, entryId, sub, Elems(children))
    ensures Partial(start, rank, parentId, entryId, removed + sub)
  {
    var all := removed + sub;
    AppendRemoved(start, removed, sub);
    assert removed[0] == all[0];
    SubFacts(start, removed, sub, Elems(children));
    assert removed[0] in Elems(removed);
  }

  /** When `entryId` has no child left, what its loop removed is closed under children. */
  lemma RemOneEnds(start: Reg, rank: map<string, nat>, parentId: string, entryId: string, removed: seq<string>)
    requires Partial(start, rank, parentId, entryId, removed)
    requires !HasChildIn(start - Elems(removed), entryId)
    ensures Swept(start, rank, parentId, removed, {entryId})
  {
    var rest := start - Elems(removed);
    forall k | k in start && k !in Elems(removed)
      ensures start[k] !in Elems(removed)
    {
      assert k in rest && rest[k] == start[k];
    }
  }

  /** The next sibling is still registered when its turn comes. */
  lemma DescReady(start: Reg, rank: map<string, nat>, parentId: string, entryIds: seq<string>, i: int, removed: seq<string>)
    requires Ranked(start, rank) && NoDup(entryIds) && 0 <= i < |entryIds|
    requires forall id :: id in entryIds ==> id in start && start[id] == parentId
    requires Swept(start, rank, parentId, removed, Elems(entryIds[..i]))
    ensures entryIds[i] in start - Elems(removed) && (start - Elems(removed))[entryIds[i]] == parentId
    ensures Ranked(start - Elems(removed), rank)
    ensures |start - Elems(removed)| <= |start|
  {
    var entryId := entryIds[i];
    assert entryId in entryIds;
    assert entryId !in entryIds[..i];
    assert parentId !in Elems(removed);
    RankedMinus(start, rank, Elems(removed));
    SubsetCardinality((start - Elems(removed)).Keys, start.Keys);
  }

  /** One sibling's subtree joins what its elder siblings' removals took. */
  lemma DescStep(start: Reg, rank: map<string, nat>, parentId: string, entryIds: seq<string>, i: int,
                 removed: seq<string>, sub: seq<string>)
    requires 0 <= i < |entryIds|
    requires Swept(start, rank, parentId, removed, Elems(entryIds[..i])) && Elems(entryIds[..i]) <= Elems(removed)
    requires |sub| >= 1 && sub[0] == entryIds[i]
    requires Swept(start - Elems(removed), rank, parentId, sub, {entryIds[i]})
    ensures Swept(start, rank, parentId, removed + sub, Elems(entryIds[..i + 1]))
    ensures Elems(entryIds[..i + 1]) <= Elems(removed + sub)
    ensures (start - Elems(removed)) - Elems(sub) == start - Elems(removed + sub)
  {
    var before := start - Elems(removed);
    var all := removed + sub;
    assert entryIds[..i + 1] == entryIds[..i] + [entryIds[i]];
    assert Elems(entryIds[..i + 1]) == Elems(entryIds[..i]) + {entryIds[i]};
    assert sub[0] in sub;
    AppendRemoved(start, removed, sub);
    SubFacts(start, removed, sub, {entryIds[i]});
  }

  /** Some entry has `parentId` as its parent. */
  ghost predicate HasChildIn(reg: Reg, parentId: string) {
    exists k :: k in reg && reg[k] == parentId
  }

  class Registry {
    /** Each entry's parent; TOP for a top-level entry. */
    var registry: Reg
    /** The value each entry was added with. */
    var records: map<string, Input>
    /** The order in which parents precede their children. */
    ghost var rank: map<string, nat>

    ghost predicate Valid()
      reads this
    {
      Forest(registry, rank)
    }

    constructor ()
      ensures Valid()
      ensures registry == map[] && records == map[]
    {
      registry := map[];
      records := map[];
      rank := map[];
    }

    /** The number of registered entries (size). */
    function Size(): nat
      reads this
    {
      |registry|
    }

    /** has: NullError for a falsy value, otherwise whether its key is registered. */
    function Has(entry: Input): (r: Result<bool, Error>)
      reads this
      ensures r.Err? <==> entry.Falsy()
      ensures r.Err? ==> r.error == NullError
      ensures r.Ok? ==> (r.value <==> GetValue(entry).value in registry)
    {
      match GetValue(entry)
      case Err(err) => Err(err)
      case Ok(k) => Ok(k in registry)
    }

    /** add: record the entry under its parent, or fail as `Added` says and change nothing. */
    method Add(entry: Input, parent: Input) returns (out: Outcome<Error>)
      requires Valid()
      modifies this
      ensures Valid()
      ensures match Added(old(registry), entry, parent)
        case Err(err) => out == Fail(err) && registry == old(registry) && records == old(records)
        case Ok(reg) => out == Pass && registry == reg && records == old(records)[GetValue(entry).value := entry]
    {
      var e := GetValue(entry);
      if e.Err? {
        return Fail(e.error);
      }
      var key := e.value;
      // has() resolves the key again, and an empty key is falsy
      if key == "" {
        return Fail(NullError);
      }
      if key in registry {
        return Fail(DuplicateError(key));
      }
      var p := TOP;
      if !parent.Falsy() {
        p := GetValue(parent).value;
        if p == "" {
          return Fail(NullError);
        }
        if p !in registry {
          return Fail(NotFoundError(p));
        }
      }
      AddKeepsForest(registry, rank, key, p);
      registry := registry[key := p];
      rank := RankAfterAdd(rank, key, p);
      records := records[key := entry];
      out := Pass;
    }

    /** clear: empty both maps. */
    method Clear()
      modifies this
      ensures Valid()
      ensures registry == map[] && records == map[]
    {
      registry := map[];
      records := map[];
      rank := map[];
    }

    /** hasChild: the scan over the parent map for an entry whose parent is `parentId`. */
    method HasChild(parentId: string) returns (b: bool)
      ensures b <==> HasChildIn(registry, parentId)
    {
      var rest := registry.Keys;
      while rest != {}
        invariant rest <= registry.Keys
        invariant forall k :: k in registry && k !in rest ==> registry[k] != parentId
        decreases |rest|
      {
        var k :| k in rest;
        if registry[k] == parentId {
          return true;
        }
        rest := rest - {k};
      }
      return false;
    }

    /**
     * traverseRoot: NullError for a falsy value; otherwise the walk from the
     * key up through its registered ancestors, then "*". An unregistered key
     * gives ["*"] alone.
     */
    method TraverseRoot(entry: Input) returns (r: Result<seq<string>, Error>)
      requires Valid()
      ensures r.Err? <==> entry.Falsy()
      ensures r.Err? ==> r.error == NullError
      ensures r.Ok? ==> r.value == Chain(registry, rank, GetValue(entry).value) + [ASTERISK]
    {
      var v := GetValue(entry);
      if v.Err? {
        return Err(v.error);
      }
      var path: seq<string> := [];
      var eId := v.value;
      while eId in registry
        invariant path + Chain(registry, rank, eId) == Chain(registry, rank, v.value)
        decreases if eId in registry then rank[eId] + 1 else 0
      {
        WalkStep(registry, rank, path, eId);
        path := path + [eId];
        eId := registry[eId];
      }
      assert Chain(registry, rank, eId) == [];
      assert path == Chain(registry, rank, v.value);
      r := Ok(path + [ASTERISK]);
    }

    /**
     * remDescendants: delete each of `entryIds` (siblings under `parentId`)
     * with all its descendants. The keys removed are the given ones and
     * everything below them, each once.
     */
    method RemDescendants(entryIds: seq<string>, ghost parentId: string) returns (removed: seq<string>)
      requires Ranked(registry, rank) && parentId != TOP && parentId in rank
      requires NoDup(entryIds)
      requires forall id :: id in entryIds ==> id in registry && registry[id] == parentId
      modifies this
      decreases |registry|, 1
      ensures rank == old(rank) && records == old(records)
      ensures Elems(entryIds) <= Elems(removed)
      ensures Swept(old(registry), rank, parentId, removed, Elems(entryIds))
      ensures registry == old(registry) - Elems(removed)
    {
      ghost var start := registry;
      removed := [];
      assert start - Elems(removed) == start;
      for i := 0 to |entryIds|
        invariant rank == old(rank) && records == old(records)
        invariant Elems(entryIds[..i]) <= Elems(removed)
        invariant Swept(start, rank, parentId, removed, Elems(entryIds[..i]))
        invariant registry == start - Elems(removed)
      {
        DescReady(start, rank, parentId, entryIds, i, removed);
        var sub := RemOne(entryIds[i], parentId);
        DescStep(start, rank, parentId, entryIds, i, removed, sub);
        removed := removed + sub;
      }
      assert entryIds[..|entryIds|] == entryIds;
    }

    /**
     * The body remDescendants runs for one key: delete it, then, while it
     * still has children, remove those children's subtrees. The key comes
     * first in what it returns.
     */
    method RemOne(entryId: string, ghost parentId: string) returns (removed: seq<string>)
      requires Ranked(registry, rank) && parentId != TOP && parentId in rank
      requires entryId in registry && registry[entryId] == parentId
      modifies this
      decreases |registry|, 0
      ensures rank == old(rank) && records == old(records)
      ensures |removed| >= 1 && removed[0] == entryId
      ensures Swept(old(registry), rank, parentId, removed, {entryId})
      ensures registry == old(registry) - Elems(removed)
    {
      ghost var start := registry;
      RemOneBegins(start, rank, parentId, entryId);
      registry := registry - {entryId};
      removed := [entryId];
      var more := HasChild(entryId);
      while more
        invariant rank == old(rank) && records == old(records)
        invariant Partial(start, rank, parentId, entryId, removed)
        invariant registry == start - Elems(removed)
        invariant Ranked(registry, rank)
        invariant |registry| < |start|
        invariant more <==> HasChildIn(registry, entryId)
        decreases |registry|
      {
        var children := FindChildren(registry, entryId);
        var sub := RemDescendants(children, entryId);
        RemOneShrinks(start, rank, entryId, removed, children, sub);
        RemOneGrows(start, rank, parentId, entryId, removed, children, sub);
        removed := removed + sub;
        more := HasChild(entryId);
      }
      RemOneEnds(start, rank, parentId, entryId, removed);
    }

    /**
     * remove: NullError for a falsy or empty value, NotFoundError for an
     * unregistered key; otherwise the key is deleted along with its record
     * and returned last. With `removeDescendants` its whole subtree goes
     * too (every key returned, each once); without it, its children move up
     * to its own parent.
     */
    method Remove(entry: Input, removeDescendants: bool) returns (r: Result<seq<string>, Error>)
      requires Valid()
      modifies this
      ensures Valid()
      ensures r.Err? <==> entry.Falsy() || GetValue(entry).value == "" || GetValue(entry).value !in old(registry)
      ensures r.Err? ==> registry == old(registry) && records == old(records)
      ensures r.Err? ==> r.error == (if entry.Falsy() || GetValue(entry).value == "" then NullError
                                     else NotFoundError(GetValue(entry).value))
      ensures r.Ok? ==>
        var e := GetValue(entry).value;
        NoDup(r.value) && |r.value| >= 1 && r.value[|r.value| - 1] == e &&
        records == old(records) - Elems(r.value)
      ensures r.Ok? && removeDescendants ==>
        Elems(r.value) == Subtree(old(registry), old(rank), GetValue(entry).value) &&
        registry == old(registry) - Elems(r.value)
      ensures r.Ok? && !removeDescendants ==>
        r.value == [GetValue(entry).value] && registry == Reparent(old(registry), GetValue(entry).value)
    {
      var v := GetValue(entry);
      if v.Err? {
        return Err(v.error);
      }
      var e := v.value;
      if e == "" {
        return Err(NullError);
      }
      if e !in registry {
        return Err(NotFoundError(e));
      }
      var removed := Detach(e, removeDescendants);
      DropRecords(removed);
      r := Ok(removed);
    }

    /** The registry half of remove, for a registered key. */
    method Detach(e: string, removeDescendants: bool) returns (removed: seq<string>)
      requires Valid() && e in registry
      modifies this
      ensures Valid() && records == old(records)
      ensures NoDup(removed) && |removed| >= 1 && removed[|removed| - 1] == e
      ensures removeDescendants ==>
        Elems(removed) == Subtree(old(registry), old(rank), e) &&
        registry == old(registry) - Elems(removed)
      ensures !removeDescendants ==> removed == [e] && registry == Reparent(old(registry), e)
    {
      if removeDescendants {
        removed := CutSubtree(e);
      } else {
        LiftChildren(e);
        removed := [e];
      }
    }

    /** Cascading removal: the children's subtrees go first, then `e`. */
    method CutSubtree(e: string) returns (removed: seq<string>)
      requires Valid() && e in registry
      modifies this
      ensures Valid() && records == old(records)
      ensures NoDup(removed) && |removed| >= 1 && removed[|removed| - 1] == e
      ensures Elems(removed) == Subtree(old(registry), old(rank), e)
      ensures registry == old(registry) - Elems(removed)
    {
      var below := CutBelow(e);
      removed := below + [e];
      registry := registry - {e};
    }

    /**
     * The descendants of `e` removed, `e` itself kept. With `e` after them
     * they are each once exactly `e`'s subtree, and removing `e` as well
     * leaves a forest.
     */
    method CutBelow(e: string) returns (below: seq<string>)
      requires Valid() && e in registry
      modifies this
      ensures rank == old(rank) && records == old(records)
      ensures registry == old(registry) - Elems(below)
      ensures NoDup(below + [e]) && Elems(below + [e]) == Subtree(old(registry), rank, e)
      ensures registry - {e} == old(registry) - Elems(below + [e])
      ensures Forest(registry - {e}, rank)
    {
      ghost var start := registry;
      var more := HasChild(e);
      if more {
        var childIds := FindChildren(registry, e);
        below := RemDescendants(childIds, e);
      } else {
        below := [];
        assert registry - Elems(below) == registry;
      }
      RemovalIsSubtree(start, rank, e, below);
      NoDupAppend(below, [e]);
    }

    /** Removal without descendants: the children of `e` move up to `e`'s parent. */
    method LiftChildren(e: string)
      requires Valid() && e in registry
      modifies this
      ensures Valid() && records == old(records)
      ensures registry == Reparent(old(registry), e)
    {
      ghost var start := registry;
      var more := HasChild(e);
      if more {
        var parentId := registry[e];
        var childIds := FindChildren(registry, e);
        MoveChildren(childIds, e, parentId);
      }
      registry := registry - {e};
      assert registry == Reparent(start, e);
      ReparentKeepsForest(start, rank, e);
    }

    /** The reparenting loop of remove: each child of `e` gets `parentId` as its parent. */
    method MoveChildren(childIds: seq<string>, ghost e: string, parentId: string)
      requires forall k :: k in childIds ==> k in registry
      modifies this
      ensures records == old(records) && rank == old(rank)
      ensures registry.Keys == old(registry).Keys
      ensures forall k :: k in registry ==> registry[k] == if k in childIds then parentId else old(registry)[k]
    {
      for j := 0 to |childIds|
        invariant records == old(records) && rank == old(rank)
        invariant registry.Keys == old(registry).Keys
        invariant forall k :: k in registry ==> registry[k] == if k in childIds[..j] then parentId else old(registry)[k]
      {
        assert childIds[..j + 1] == childIds[..j] + [childIds[j]];
        registry := registry[childIds[j] := parentId];
      }
      assert childIds[..|childIds|] == childIds;
    }

    /** The record loop of remove: delete the record of every removed key. */
    method DropRecords(removed: seq<string>)
      modifies this
      ensures registry == old(registry) && rank == old(rank)
      ensures records == old(records) - Elems(removed)
    {
      assert records - {} == records;
      for j := 0 to |removed|
        invariant registry == old(registry) && rank == old(rank)
        invariant records == old(records) - Elems(removed[..j])
      {
        assert Elems(removed[..j + 1]) == Elems(removed[..j]) + {removed[j]};
        MapMinusTwice(old(records), Elems(removed[..j]), {removed[j]});
        records := records - {removed[j]};
      }
      assert removed[..|removed|] == removed;
    }

    /** importRegistry: replace both maps with a stored hierarchy and its records. */
    method ImportRegistry(reg: Reg, recs: map<string, Input>, ghost order: map<string, nat>)
      requires Forest(reg, order)
      modifies this
      ensures Valid()
      ensures registry == reg && records == recs
    {
      registry := reg;
      records := recs;
      rank := order;
    }
  }
}
