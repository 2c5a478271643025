/**
 * The hierarchy a registry stores (src/registry.js): a map from each
 * entry to its parent, the empty string standing for the top level.
 * A ghost rank that drops from child to parent is what makes the walks of
 * traverseRoot and remDescendants terminate: add only accepts a parent
 * that is already registered, so no entry can become its own ancestor.
 */
module Forests {
  import opened Common
  import opened Seqs

  type Reg = map<string, string>

  /** The parent recorded for a top-level entry. */
  const TOP: string := ""

  /** Every parent link leads to a lower rank (the parent itself may be gone). */
  ghost predicate Ranked(reg: Reg, rank: map<string, nat>) {
    TOP !in reg &&
    (forall k :: k in reg ==> k in rank) &&
    forall k {:trigger reg[k]} :: k in reg && reg[k] != TOP ==> reg[k] in rank && rank[reg[k]] < rank[k]
  }

  /** The registry invariant: ranked, and every parent is the top level or a registered entry. */
  ghost predicate Forest(reg: Reg, rank: map<string, nat>) {
    Ranked(reg, rank) && forall k {:trigger Parented(reg, k)} :: k in reg ==> Parented(reg, k)
  }

  /** The parent of `k` is the top level or a registered entry. */
  ghost predicate Parented(reg: Reg, k: string)
    requires k in reg
  {
    reg[k] == TOP || reg[k] in reg
  }

  /**
   * The registered ancestors of `k`, starting with `k` itself: the entries
   * traverseRoot pushes before the final "*". Each is the parent of the one
   * before it, the ranks strictly drop, and the walk stops at an entry
   * whose parent is not registered.
   */
  ghost function Chain(reg: Reg, rank: map<string, nat>, k: string): (c: seq<string>)
    requires Ranked(reg, rank)
    decreases if k in reg then rank[k] + 1 else 0
    ensures k !in reg ==> c == []
    ensures k in reg ==> |c| >= 1 && c[0] == k
    ensures forall x :: x in c ==> x in reg
    ensures |c| > 0 ==> reg[c[|c| - 1]] !in reg
  {
    if k !in reg then []
    else [k] + Chain(reg, rank, reg[k])
  }

  /** Ranks strictly drop along a walk, so no entry occurs in it twice. */
  lemma {:induction false} ChainDescends(reg: Reg, rank: map<string, nat>, k: string)
    requires Ranked(reg, rank)
    ensures var c := Chain(reg, rank, k);
      (forall i, j :: 0 <= i < j < |c| ==> rank[c[i]] > rank[c[j]]) && NoDup(c)
    decreases if k in reg then rank[k] + 1 else 0
  {
    if k in reg {
      var c := Chain(reg, rank, k);
      var rest := Chain(reg, rank, reg[k]);
      ChainDescends(reg, rank, reg[k]);
      assert c == [k] + rest;
      assert forall j :: 0 <= j < |rest| ==> rank[rest[j]] < rank[k] by {
        if |rest| > 0 {
          assert rest[0] == reg[k];
        }
      }
      assert forall i :: 0 < i < |c| ==> c[i] == rest[i - 1];
    }
  }

  /** Each entry of a walk is followed by its parent. */
  lemma {:induction false} ChainLinks(reg: Reg, rank: map<string, nat>, k: string)
    requires Ranked(reg, rank)
    ensures forall i {:trigger reg[Chain(reg, rank, k)[i]]} :: 0 <= i < |Chain(reg, rank, k)| - 1 ==>
      reg[Chain(reg, rank, k)[i]] == Chain(reg, rank, k)[i + 1]
    decreases if k in reg then rank[k] + 1 else 0
  {
    if k in reg {
      var c := Chain(reg, rank, k);
      var rest := Chain(reg, rank, reg[k]);
      ChainLinks(reg, rank, reg[k]);
      assert c == [k] + rest;
      forall i | 0 <= i < |c| - 1
        ensures reg[c[i]] == c[i + 1]
      {
        if i > 0 {
          assert c[i] == rest[i - 1] && c[i + 1] == rest[i];
          assert 0 <= i - 1 < |rest| - 1;
          assert reg[rest[i - 1]] == rest[i];
        } else {
          assert c[1] == rest[0];
          assert reg[k] in reg;
          assert rest[0] == reg[k];
        }
      }
    }
  }

  /**
   * traverseRoot's path in a forest: a registered entry's path starts with
   * the entry, goes from each entry to its parent, reaches a top-level
   * entry and ends with "*"; an unregistered key's path is "*" alone.
   */
  lemma PathShape(reg: Reg, rank: map<string, nat>, k: string)
    requires Forest(reg, rank)
    ensures k !in reg ==> Chain(reg, rank, k) + [ASTERISK] == [ASTERISK]
    ensures k in reg ==>
      var path := Chain(reg, rank, k) + [ASTERISK];
      |path| >= 2 && path[0] == k && path[|path| - 1] == ASTERISK &&
      reg[path[|path| - 2]] == TOP &&
      forall i :: 0 <= i < |path| - 2 ==> reg[path[i]] == path[i + 1]
  {
    var c := Chain(reg, rank, k);
    var path := c + [ASTERISK];
    ChainLinks(reg, rank, k);
    assert forall i :: 0 <= i < |c| ==> path[i] == c[i];
    if k in reg {
      assert Parented(reg, c[|c| - 1]);
    }
  }

  /** traverseRoot's path for a key: its walk, then "*". */
  ghost function Path(reg: Reg, rank: map<string, nat>, k: string): seq<string>
    requires Ranked(reg, rank)
  {
    Chain(reg, rank, k) + [ASTERISK]
  }

  /** The entries whose chain passes through `e`: `e` and all its descendants. */
  ghost function Subtree(reg: Reg, rank: map<string, nat>, e: string): set<string>
    requires Ranked(reg, rank)
  {
    set k | k in reg && e in Chain(reg, rank, k)
  }

  /** Every registered child of an entry in `d` is in `d`. */
  ghost predicate DownClosed(reg: Reg, d: set<string>) {
    forall k {:trigger reg[k]} :: k in reg && reg[k] in d ==> k in d
  }

  /** Every entry of `d` is registered, and is one of `roots` or has its parent in `d`. */
  ghost predicate Rooted(reg: Reg, d: set<string>, roots: set<string>) {
    d <= reg.Keys && forall k {:trigger reg[k]} :: k in d ==> k in roots || reg[k] in d
  }

  /** A set that holds `e` and is closed under children holds every descendant of `e`. */
  lemma {:induction false} DescendantIn(reg: Reg, rank: map<string, nat>, e: string, d: set<string>, k: string)
    requires Ranked(reg, rank) && e in d && DownClosed(reg, d)
    requires k in reg && e in Chain(reg, rank, k)
    ensures k in d
    decreases rank[k]
  {
    if k != e {
      var p := reg[k];
      assert Chain(reg, rank, k) == [k] + Chain(reg, rank, p);
      assert e in Chain(reg, rank, p);
      DescendantIn(reg, rank, e, d, p);
    }
  }

  /** Every entry of a set rooted at `e` descends from `e`. */
  lemma {:induction false} InDescends(reg: Reg, rank: map<string, nat>, e: string, d: set<string>, k: string)
    requires Ranked(reg, rank) && e in reg && Rooted(reg, d, {e})
    requires k in d
    ensures e in Chain(reg, rank, k)
    decreases rank[k]
  {
    if k != e {
      var p := reg[k];
      InDescends(reg, rank, e, d, p);
      assert Chain(reg, rank, k) == [k] + Chain(reg, rank, p);
    }
  }

  /**
   * A set of entries that holds `e`, is closed under children and in which
   * every entry other than `e` has its parent, is exactly `e`'s subtree.
   */
  lemma SubtreeExact(reg: Reg, rank: map<string, nat>, e: string, d: set<string>)
    requires Ranked(reg, rank) && e in reg && e in d
    requires DownClosed(reg, d) && Rooted(reg, d, {e})
    ensures d == Subtree(reg, rank, e)
  {
    forall k | k in d
      ensures k in Subtree(reg, rank, e)
    {
      InDescends(reg, rank, e, d, k);
    }
    forall k | k in Subtree(reg, rank, e)
      ensures k in d
    {
      DescendantIn(reg, rank, e, d, k);
    }
  }

  /** Removing any keys keeps the ranks decreasing towards the top. */
  lemma RankedMinus(reg: Reg, rank: map<string, nat>, d: set<string>)
    requires Ranked(reg, rank)
    ensures Ranked(reg - d, rank)
  {
    forall k | k in reg - d
      ensures (reg - d)[k] == reg[k]
    {
    }
  }

  /** Removing a set closed under children leaves a forest. */
  lemma ClosedRemovalKeepsForest(reg: Reg, rank: map<string, nat>, d: set<string>)
    requires Forest(reg, rank) && DownClosed(reg, d)
    ensures Forest(reg - d, rank)
  {
    forall k | k in reg - d
      ensures Parented(reg - d, k)
    {
      assert Parented(reg, k);
    }
  }

  /** Removal of `e` that hands each of its children to `e`'s own parent. */
  function Reparent(reg: Reg, e: string): (r: Reg)
    requires e in reg
    ensures r.Keys == reg.Keys - {e}
    ensures |r| == |reg| - 1
  {
    var r := map k | k in reg && k != e :: if reg[k] == e then reg[e] else reg[k];
    assert r.Keys == reg.Keys - {e};
    r
  }

  /** Reparenting keeps the forest invariant under the same ranks. */
  lemma ReparentKeepsForest(reg: Reg, rank: map<string, nat>, e: string)
    requires Forest(reg, rank) && e in reg
    ensures Forest(Reparent(reg, e), rank)
  {
    var r := Reparent(reg, e);
    forall k | k in r
      ensures r[k] == TOP || (r[k] in rank && rank[r[k]] < rank[k])
    {
      if reg[k] == e {
        assert rank[e] < rank[k];
      }
    }
    forall k | k in r
      ensures Parented(r, k)
    {
      assert Parented(reg, k);
      if reg[k] == e {
        assert Parented(reg, e);
      }
    }
  }

  /** After reparenting, every remaining entry keeps all its ancestors except `e`, in order. */
  lemma {:induction false} ReparentChain(reg: Reg, rank: map<string, nat>, e: string, k: string)
    requires Forest(reg, rank) && e in reg && k != e
    ensures Forest(Reparent(reg, e), rank)
    ensures Chain(Reparent(reg, e), rank, k) == FilterOut(Chain(reg, rank, k), {e})
    decreases if k in reg then rank[k] + 1 else 0
  {
    ReparentKeepsForest(reg, rank, e);
    if k in reg {
      var p := reg[k];
      ChainStep(reg, rank, k);
      FilterOutCons(k, Chain(reg, rank, p), {e});
      if p != e {
        ReparentStep(reg, rank, e, k, p);
        if p != TOP {
          ReparentChain(reg, rank, e, p);
        }
      } else {
        var q := reg[e];
        ReparentStep(reg, rank, e, k, q);
        ChainStep(reg, rank, e);
        FilterOutCons(e, Chain(reg, rank, q), {e});
        if q != TOP {
          ReparentChain(reg, rank, e, q);
        }
      }
    }
  }

  /** One step of a walk: an entry followed by its parent's chain. */
  lemma ChainStep(reg: Reg, rank: map<string, nat>, k: string)
    requires Ranked(reg, rank) && k in reg
    ensures Chain(reg, rank, k) == [k] + Chain(reg, rank, reg[k])
  {
  }

  /** traverseRoot's loop step: pushing `k` and moving to its parent leaves the whole walk unchanged. */
  lemma WalkStep(reg: Reg, rank: map<string, nat>, path: seq<string>, k: string)
    requires Ranked(reg, rank) && k in reg
    ensures path + Chain(reg, rank, k) == (path + [k]) + Chain(reg, rank, reg[k])
  {
    ChainStep(reg, rank, k);
  }

  /** One step of a walk after reparenting, to the new parent `q`. */
  lemma ReparentStep(reg: Reg, rank: map<string, nat>, e: string, k: string, q: string)
    requires Forest(reg, rank) && e in reg && k in reg && k != e
    requires q == (if reg[k] == e then reg[e] else reg[k])
    requires Forest(Reparent(reg, e), rank)
    ensures Chain(Reparent(reg, e), rank, k) == [k] + Chain(Reparent(reg, e), rank, q)
  {
    ChainStep(Reparent(reg, e), rank, k);
  }

  /**
   * add, for the values given: NullError for a falsy or empty entry or
   * parent, DuplicateError for a registered entry, NotFoundError for an
   * unregistered parent, and otherwise the map with the entry recorded
   * under its parent, or under the top level when no parent is given.
   */
  function Added(reg: Reg, entry: Input, parent: Input): Result<Reg, Error> {
    match GetValue(entry)
    case Err(err) => Err(err)
    case Ok(e) =>
      if e == "" then Err(NullError)
      else if e in reg then Err(DuplicateError(e))
      else if parent.Falsy() then Ok(reg[e := TOP])
      else
        var p := GetValue(parent).value;
        if p == "" then Err(NullError)
        else if p !in reg then Err(NotFoundError(p))
        else Ok(reg[e := p])
  }

  /** The parent add records for an accepted entry. */
  function ParentKey(parent: Input): string {
    if parent.Falsy() then TOP else GetValue(parent).value
  }

  /**
   * add succeeds exactly when both keys resolve, the entry is new and a
   * given parent is registered; it then adds one key, with the parent
   * recorded, and changes no other entry.
   */
  lemma AddedSucceeds(reg: Reg, entry: Input, parent: Input)
    ensures Added(reg, entry, parent).Ok? <==>
      !entry.Falsy() && GetValue(entry).value != "" && GetValue(entry).value !in reg &&
      (parent.Falsy() || (GetValue(parent).value != "" && GetValue(parent).value in reg))
    ensures Added(reg, entry, parent).Ok? ==>
      var r := Added(reg, entry, parent).value;
      var e := GetValue(entry).value;
      r.Keys == reg.Keys + {e} && |r| == |reg| + 1 && r[e] == ParentKey(parent) &&
      forall k :: k in reg ==> r[k] == reg[k]
  {
  }

  /** add's errors, in the order the source checks them. */
  lemma AddedErrors(reg: Reg, entry: Input, parent: Input)
    ensures entry.Falsy() ==> Added(reg, entry, parent) == Err(NullError)
    ensures !entry.Falsy() && GetValue(entry).value != "" && GetValue(entry).value in reg ==>
      Added(reg, entry, parent) == Err(DuplicateError(GetValue(entry).value))
    ensures (!entry.Falsy() && GetValue(entry).value != "" && GetValue(entry).value !in reg &&
      !parent.Falsy() && GetValue(parent).value != "" && GetValue(parent).value !in reg) ==>
      Added(reg, entry, parent) == Err(NotFoundError(GetValue(parent).value))
  {
  }

  /** The rank an added entry gets: one above its parent. */
  function RankAfterAdd(rank: map<string, nat>, e: string, p: string): map<string, nat>
    requires p == TOP || p in rank
  {
    rank[e := if p == TOP then 0 else rank[p] + 1]
  }

  /** Adding an entry under the top level or a registered parent keeps the forest. */
  lemma AddKeepsForest(reg: Reg, rank: map<string, nat>, e: string, p: string)
    requires Forest(reg, rank) && e != TOP && e !in reg && (p == TOP || p in reg)
    ensures Forest(reg[e := p], RankAfterAdd(rank, e, p))
  {
    var reg', rank' := reg[e := p], RankAfterAdd(rank, e, p);
    forall k | k in reg'
      ensures Parented(reg', k)
      ensures reg'[k] != TOP ==> reg'[k] in rank' && rank'[reg'[k]] < rank'[k]
    {
      if k != e {
        assert Parented(reg, k);
      }
    }
  }

  /**
   * After an add, the new entry's walk is the entry followed by its
   * parent's walk, and every other entry's walk is unchanged.
   */
  lemma AddedChains(reg: Reg, rank: map<string, nat>, e: string, p: string)
    requires Forest(reg, rank) && e != TOP && e !in reg && (p == TOP || p in reg)
    ensures Ranked(reg[e := p], RankAfterAdd(rank, e, p))
    ensures Chain(reg[e := p], RankAfterAdd(rank, e, p), e) == [e] + Chain(reg, rank, p)
    ensures forall k :: k in reg ==> Chain(reg[e := p], RankAfterAdd(rank, e, p), k) == Chain(reg, rank, k)
  {
    var reg', rank' := reg[e := p], RankAfterAdd(rank, e, p);
    AddKeepsForest(reg, rank, e, p);
    forall k | k in reg
      ensures Chain(reg', rank', k) == Chain(reg, rank, k)
    {
      ChainUnchanged(reg, rank, e, p, k);
    }
    if p != TOP {
      ChainUnchanged(reg, rank, e, p, p);
    }
  }

  lemma {:induction false} ChainUnchanged(reg: Reg, rank: map<string, nat>, e: string, p: string, k: string)
    requires Forest(reg, rank) && e != TOP && e !in reg && (p == TOP || p in reg)
    requires Forest(reg[e := p], RankAfterAdd(rank, e, p))
    requires k in reg || k == TOP
    ensures Chain(reg[e := p], RankAfterAdd(rank, e, p), k) == Chain(reg, rank, k)
    decreases if k in reg then rank[k] + 1 else 0
  {
    if k in reg {
      var q := reg[k];
      assert Parented(reg, k);
      ChainUnchanged(reg, rank, e, p, q);
    }
  }
}
