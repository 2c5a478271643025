/**
 * The access decision of isAllowed/isDenied in src/acl.js, as a function
 * over the two paths to the root: the role path is walked in the outer
 * loop, the resource path in the inner loop, and the first probe of the
 * matrix that is not null decides.
 */
module Evaluation {
  import opened Common
  import opened Actions
  import opened TupleKeys
  import opened Matrices

  /**
   * One probe of the matrix: the aggregate query (isAllowedAll or
   * isDeniedAll) for ALL, the per-action query (isAllowed or isDenied)
   * for any other action.
   */
  function Probe(m: Matrix, a: Action, deny: bool, t: Tuple): Option<bool> {
    if a == ALL then (if deny then DeniedAll(m, t) else AllowedAll(m, t))
    else (if deny then Denied(m, t, a) else Allowed(m, t, a))
  }

  /** The probe of the pair at role `roleId` and resource `resourceId` of the paths. */
  function ProbeAt(m: Matrix, a: Action, deny: bool, roleId: string, resourceId: string): Option<bool> {
    Probe(m, a, deny, TupleOf(roleId, resourceId))
  }

  /** The inner loop: the first answer for one role along the resource path. */
  function Row(m: Matrix, a: Action, deny: bool, roleId: string, resPath: seq<string>): Option<bool>
    decreases |resPath|
  {
    if resPath == [] then None
    else
      var g := ProbeAt(m, a, deny, roleId, resPath[0]);
      if g.Some? then g else Row(m, a, deny, roleId, resPath[1..])
  }

  /** The outer loop: the first answer along the role path. */
  function Decide(m: Matrix, a: Action, deny: bool, rolePath: seq<string>, resPath: seq<string>): Option<bool>
    decreases |rolePath|
  {
    if rolePath == [] then None
    else
      var g := Row(m, a, deny, rolePath[0], resPath);
      if g.Some? then g else Decide(m, a, deny, rolePath[1..], resPath)
  }

  /** Every probe of the first `i` roles, and of the first `j` resources for role `i`, is null. */
  ghost predicate NullBefore(m: Matrix, a: Action, deny: bool, rolePath: seq<string>, resPath: seq<string>, i: int, j: int)
    requires 0 <= i <= |rolePath| && 0 <= j <= |resPath|
  {
    (forall r, c :: 0 <= r < i && 0 <= c < |resPath| ==> ProbeAt(m, a, deny, rolePath[r], resPath[c]).None?) &&
    (i < |rolePath| ==> forall c :: 0 <= c < j ==> ProbeAt(m, a, deny, rolePath[i], resPath[c]).None?)
  }

  /** A null probe at (i, j) extends the null prefix by one resource. */
  lemma NullBeforeNext(m: Matrix, a: Action, deny: bool, rolePath: seq<string>, resPath: seq<string>, i: int, j: int)
    requires 0 <= i < |rolePath| && 0 <= j < |resPath|
    requires NullBefore(m, a, deny, rolePath, resPath, i, j)
    requires ProbeAt(m, a, deny, rolePath[i], resPath[j]).None?
    ensures NullBefore(m, a, deny, rolePath, resPath, i, j + 1)
  {
  }

  /** A whole null row moves the null prefix to the next role. */
  lemma NullBeforeRow(m: Matrix, a: Action, deny: bool, rolePath: seq<string>, resPath: seq<string>, i: int)
    requires 0 <= i < |rolePath|
    requires NullBefore(m, a, deny, rolePath, resPath, i, |resPath|)
    ensures NullBefore(m, a, deny, rolePath, resPath, i + 1, 0)
  {
  }

  /** A row is null exactly when every probe in it is null. */
  lemma {:induction false} RowNone(m: Matrix, a: Action, deny: bool, roleId: string, resPath: seq<string>)
    ensures Row(m, a, deny, roleId, resPath).None? <==>
      forall c :: 0 <= c < |resPath| ==> ProbeAt(m, a, deny, roleId, resPath[c]).None?
    decreases |resPath|
  {
    if resPath != [] {
      RowNone(m, a, deny, roleId, resPath[1..]);
      assert forall c :: 1 <= c < |resPath| ==> resPath[1..][c - 1] == resPath[c];
    }
  }

  /** A row answers with its first non-null probe. */
  lemma {:induction false} RowFirst(m: Matrix, a: Action, deny: bool, roleId: string, resPath: seq<string>, j: int)
    requires 0 <= j < |resPath|
    requires forall c :: 0 <= c < j ==> ProbeAt(m, a, deny, roleId, resPath[c]).None?
    requires ProbeAt(m, a, deny, roleId, resPath[j]).Some?
    ensures Row(m, a, deny, roleId, resPath) == ProbeAt(m, a, deny, roleId, resPath[j])
    decreases |resPath|
  {
    if j > 0 {
      assert ProbeAt(m, a, deny, roleId, resPath[0]).None?;
      assert forall c :: 0 <= c < j - 1 ==> resPath[1..][c] == resPath[c + 1];
      RowFirst(m, a, deny, roleId, resPath[1..], j - 1);
    }
  }

  /** isAllowed/isDenied find no answer exactly when every probe of every pair is null. */
  lemma {:induction false} DecideNone(m: Matrix, a: Action, deny: bool, rolePath: seq<string>, resPath: seq<string>)
    ensures Decide(m, a, deny, rolePath, resPath).None? <==>
      forall r, c :: 0 <= r < |rolePath| && 0 <= c < |resPath| ==> ProbeAt(m, a, deny, rolePath[r], resPath[c]).None?
    decreases |rolePath|
  {
    if rolePath != [] {
      RowNone(m, a, deny, rolePath[0], resPath);
      DecideNone(m, a, deny, rolePath[1..], resPath);
      assert forall r :: 1 <= r < |rolePath| ==> rolePath[1..][r - 1] == rolePath[r];
    }
  }

  /**
   * isAllowed/isDenied answer with the first non-null probe in the order
   * of the two loops: all roles' rows before it are null, and so are the
   * earlier resources of its own row.
   */
  lemma {:induction false} DecideFirst(m: Matrix, a: Action, deny: bool, rolePath: seq<string>, resPath: seq<string>, i: int, j: int)
    requires 0 <= i < |rolePath| && 0 <= j < |resPath|
    requires NullBefore(m, a, deny, rolePath, resPath, i, j)
    requires ProbeAt(m, a, deny, rolePath[i], resPath[j]).Some?
    ensures Decide(m, a, deny, rolePath, resPath) == ProbeAt(m, a, deny, rolePath[i], resPath[j])
    decreases |rolePath|
  {
    if i == 0 {
      RowFirst(m, a, deny, rolePath[0], resPath, j);
    } else {
      NullBeforeTail(m, a, deny, rolePath, resPath, i, j);
      DecideFirst(m, a, deny, rolePath[1..], resPath, i - 1, j);
    }
  }

  /** Past a null first row, the null prefix carries over to the rest of the role path. */
  lemma NullBeforeTail(m: Matrix, a: Action, deny: bool, rolePath: seq<string>, resPath: seq<string>, i: int, j: int)
    requires 0 < i < |rolePath| && 0 <= j <= |resPath|
    requires NullBefore(m, a, deny, rolePath, resPath, i, j)
    ensures Row(m, a, deny, rolePath[0], resPath).None?
    ensures rolePath[1..][i - 1] == rolePath[i]
    ensures NullBefore(m, a, deny, rolePath[1..], resPath, i - 1, j)
  {
    var rest := rolePath[1..];
    forall r, c | 0 <= r < i - 1 && 0 <= c < |resPath|
      ensures ProbeAt(m, a, deny, rest[r], resPath[c]).None?
    {
      assert rest[r] == rolePath[r + 1];
    }
    RowNone(m, a, deny, rolePath[0], resPath);
  }

  /** For a named action, isDenied's decision is isAllowed's, negated; no answer stays no answer. */
  lemma {:induction false} DenyNegatesAllow(m: Matrix, a: Action, rolePath: seq<string>, resPath: seq<string>)
    requires a != ALL
    ensures Decide(m, a, true, rolePath, resPath) == Negate(Decide(m, a, false, rolePath, resPath))
    decreases |rolePath|
  {
    if rolePath != [] {
      RowNegates(m, a, rolePath[0], resPath);
      DenyNegatesAllow(m, a, rolePath[1..], resPath);
    }
  }

  lemma {:induction false} RowNegates(m: Matrix, a: Action, roleId: string, resPath: seq<string>)
    requires a != ALL
    ensures Row(m, a, true, roleId, resPath) == Negate(Row(m, a, false, roleId, resPath))
    decreases |resPath|
  {
    if resPath != [] {
      DeniedIsNegatedAllowed(m, TupleOf(roleId, resPath[0]), a);
      RowNegates(m, a, roleId, resPath[1..]);
    }
  }

  /**
   * When the role and the resource are both unregistered, both paths are
   * ["*"] and the decision is the default tuple's answer.
   */
  lemma UnregisteredFallsToDefault(m: Matrix, a: Action, deny: bool)
    ensures Decide(m, a, deny, [ASTERISK], [ASTERISK]) == Probe(m, a, deny, DefaultTuple)
  {
    assert TupleOf(ASTERISK, ASTERISK) == DefaultTuple;
    var star: seq<string> := [ASTERISK];
    assert star[1..] == [];
    assert Row(m, a, deny, ASTERISK, star) == Probe(m, a, deny, DefaultTuple);
  }

  /** The exact tuple comes first: when it answers, the walk up the hierarchies is never consulted. */
  lemma OwnTupleDecides(m: Matrix, a: Action, deny: bool, rolePath: seq<string>, resPath: seq<string>)
    requires |rolePath| >= 1 && |resPath| >= 1
    requires ProbeAt(m, a, deny, rolePath[0], resPath[0]).Some?
    ensures Decide(m, a, deny, rolePath, resPath) == ProbeAt(m, a, deny, rolePath[0], resPath[0])
  {
    DecideFirst(m, a, deny, rolePath, resPath, 0, 0);
  }

  /** A fresh matrix denies every query: the default tuple "*::*" answers at the end of every walk. */
  lemma FreshMatrixDenies(a: Action, rolePath: seq<string>, resPath: seq<string>)
    requires |rolePath| >= 1 && rolePath[|rolePath| - 1] == ASTERISK
    requires |resPath| >= 1 && resPath[|resPath| - 1] == ASTERISK
    ensures Decide(Initial, a, false, rolePath, resPath).Some?
    ensures Decide(Initial, a, false, rolePath, resPath) == Some(false)
    ensures Decide(Initial, a, true, rolePath, resPath) == Some(true)
  {
    InitialDeniesEverything(a);
    FreshMatrixDefault(a, false, rolePath, resPath);
    FreshMatrixDefault(a, true, rolePath, resPath);
  }

  /** On a fresh matrix the walk's answer is the default tuple's. */
  lemma FreshMatrixDefault(a: Action, deny: bool, rolePath: seq<string>, resPath: seq<string>)
    requires |rolePath| >= 1 && rolePath[|rolePath| - 1] == ASTERISK
    requires |resPath| >= 1 && resPath[|resPath| - 1] == ASTERISK
    ensures Decide(Initial, a, deny, rolePath, resPath) == Probe(Initial, a, deny, DefaultTuple)
  {
    InitialDeniesEverything(a);
    var i, j := |rolePath| - 1, |resPath| - 1;
    assert TupleOf(rolePath[i], resPath[j]) == DefaultTuple;
    assert ProbeAt(Initial, a, deny, rolePath[i], resPath[j]).Some?;
    DecideNone(Initial, a, deny, rolePath, resPath);
    DecideAnswerIsAProbe(Initial, a, deny, rolePath, resPath);
    var r, c :| 0 <= r < |rolePath| && 0 <= c < |resPath| &&
      Decide(Initial, a, deny, rolePath, resPath) == ProbeAt(Initial, a, deny, rolePath[r], resPath[c]);
    InitialOnlyDefault(a, deny, TupleOf(rolePath[r], resPath[c]));
  }

  /** A fresh matrix answers only on the default tuple. */
  lemma InitialOnlyDefault(a: Action, deny: bool, t: Tuple)
    requires Probe(Initial, a, deny, t).Some?
    ensures t == DefaultTuple
  {
  }

  /** A decision that is not null is the answer of some probe. */
  lemma {:induction false} DecideAnswerIsAProbe(m: Matrix, a: Action, deny: bool, rolePath: seq<string>, resPath: seq<string>)
    ensures Decide(m, a, deny, rolePath, resPath).Some? ==>
      exists r, c :: 0 <= r < |rolePath| && 0 <= c < |resPath| &&
        Decide(m, a, deny, rolePath, resPath) == ProbeAt(m, a, deny, rolePath[r], resPath[c])
    decreases |rolePath|
  {
    if rolePath != [] {
      var d := Decide(m, a, deny, rolePath, resPath);
      if Row(m, a, deny, rolePath[0], resPath).Some? {
        RowAnswerIsAProbe(m, a, deny, rolePath[0], resPath);
        var c :| 0 <= c < |resPath| && d == ProbeAt(m, a, deny, rolePath[0], resPath[c]);
        assert 0 <= 0 < |rolePath| && d == ProbeAt(m, a, deny, rolePath[0], resPath[c]);
      } else if d.Some? {
        var rest := rolePath[1..];
        DecideAnswerIsAProbe(m, a, deny, rest, resPath);
        var r, c :| 0 <= r < |rest| && 0 <= c < |resPath| && d == ProbeAt(m, a, deny, rest[r], resPath[c]);
        assert rest[r] == rolePath[r + 1];
        assert 0 <= r + 1 < |rolePath| && d == ProbeAt(m, a, deny, rolePath[r + 1], resPath[c]);
      }
    }
  }

  lemma {:induction false} RowAnswerIsAProbe(m: Matrix, a: Action, deny: bool, roleId: string, resPath: seq<string>)
    ensures Row(m, a, deny, roleId, resPath).Some? ==>
      exists c :: 0 <= c < |resPath| && Row(m, a, deny, roleId, resPath) == ProbeAt(m, a, deny, roleId, resPath[c])
    decreases |resPath|
  {
    if resPath != [] {
      RowAnswerIsAProbe(m, a, deny, roleId, resPath[1..]);
      if ProbeAt(m, a, deny, roleId, resPath[0]).None? && Row(m, a, deny, roleId, resPath[1..]).Some? {
        var c :| 0 <= c < |resPath[1..]| && Row(m, a, deny, roleId, resPath[1..]) == ProbeAt(m, a, deny, roleId, resPath[1..][c]);
        assert resPath[1..][c] == resPath[c + 1];
      }
    }
  }
}
