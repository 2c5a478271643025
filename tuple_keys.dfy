/**
 * The string form of a permission tuple key, "role::resource"
 * (makeKey, separateKey and the prefix/suffix tests of removeByRole and
 * removeByResource in src/permission.js), and when it agrees with the
 * pair form the permission matrix is modelled on.
 */
module TupleKeys {
  import opened Common

  const SEP: string := "::"

  /** makeKey's substitution of the wildcard for an empty identity. */
  function OrStar(s: string): string {
    if s == "" then ASTERISK else s
  }

  /** makeKey: the tuple key of a role and a resource. */
  function MakeKey(role: string, resource: string): string {
    OrStar(role) + SEP + OrStar(resource)
  }

  /** `s` contains the separator. */
  predicate HasSep(s: string) {
    exists i :: 0 <= i < |s| - 1 && s[i] == ':' && s[i + 1] == ':'
  }

  /** The first position of the separator in `s`, if any. */
  function SepIndex(s: string): (r: Option<nat>)
    ensures r.None? <==> !HasSep(s)
    ensures r.Some? ==> r.value + 1 < |s| && s[r.value] == ':' && s[r.value + 1] == ':'
    ensures r.Some? ==> forall j :: 0 <= j < r.value ==> !(s[j] == ':' && s[j + 1] == ':')
  {
    if |s| < 2 then None
    else if s[0] == ':' && s[1] == ':' then Some(0)
    else
      match SepIndex(s[1..])
      case None =>
        assert !HasSep(s) by {
          forall i | 0 <= i < |s| - 1 && s[i] == ':'
            ensures s[i + 1] != ':'
          {
            if i > 0 {
              assert s[1..][i - 1] == s[i] && s[1..][i] == s[i + 1];
            }
          }
        }
        None
      case Some(i) =>
        assert HasSep(s) by {
          assert s[i + 1] == s[1..][i] && s[i + 2] == s[1..][i + 1];
        }
        forall j | 0 < j < i + 1
          ensures !(s[j] == ':' && s[j + 1] == ':')
        {
          assert s[1..][j - 1] == s[j] && s[1..][j] == s[j + 1];
        }
        Some(i + 1)
  }

  /** JavaScript's `s.split("::")`: the pieces between non-overlapping separators, left to right. */
  function Split(s: string): (parts: seq<string>)
    ensures |parts| >= 1
    decreases |s|
  {
    match SepIndex(s)
    case None => [s]
    case Some(i) => [s[..i]] + Split(s[i + 2..])
  }

  /** The error separateKey throws for a malformed key. */
  const KeyFormError: Error := InvalidError("key", "Must have the form \"{string}::{string}\"")

  /** separateKey: the role and resource of a key, or InvalidError unless the key splits into exactly two parts. */
  function SeparateKey(key: string): (r: Result<(string, string), Error>)
    ensures r.Err? <==> |Split(key)| != 2
    ensures r.Err? ==> r.error == KeyFormError
    ensures r.Ok? ==> r.value.0 + SEP + r.value.1 == key
  {
    match SepIndex(key)
    case None => Err(KeyFormError)
    case Some(i) =>
      var rest := Split(key[i + 2..]);
      if |rest| != 1 then Err(KeyFormError)
      else
        assert SepIndex(key[i + 2..]).None?;
        assert key == key[..i] + SEP + key[i + 2..];
        Ok((key[..i], key[i + 2..]))
  }

  /**
   * An identity whose keys cannot be confused: no separator inside and no
   * colon at either end (a colon at the seam would join the separator).
   */
  predicate SafeId(s: string) {
    !HasSep(s) && (|s| > 0 ==> s[0] != ':' && s[|s| - 1] != ':')
  }

  /** The separator right after a safe role is the first one in the key. */
  lemma {:induction false} SepIndexAfterSafe(r: string, x: string)
    requires SafeId(r)
    ensures SepIndex(r + SEP + x) == Some(|r|)
  {
    var s := r + SEP + x;
    assert s[|r|] == ':' && s[|r| + 1] == ':';
    assert HasSep(s);
    var i := SepIndex(s).value;
    // no separator starts inside r
    forall j | 0 <= j < |r|
      ensures !(s[j] == ':' && s[j + 1] == ':')
    {
      if j + 1 < |r| {
        assert s[j] == r[j] && s[j + 1] == r[j + 1];
      } else {
        assert s[j] == r[|r| - 1];
      }
    }
  }

  /** Splitting a safe identity joined to anything by the separator peels off that identity. */
  lemma {:induction false} SplitAfterSafe(r: string, x: string)
    requires SafeId(r)
    ensures Split(r + SEP + x) == [r] + Split(x)
  {
    var key := r + SEP + x;
    SepIndexAfterSafe(r, x);
    assert key[..|r|] == r && key[|r| + 2..] == x;
  }

  /** separateKey splits two safe identities joined by the separator back into those two. */
  lemma {:induction false} SeparateJoin(r: string, x: string)
    requires SafeId(r) && SafeId(x)
    ensures SeparateKey(r + SEP + x) == Ok((r, x))
  {
    var key := r + SEP + x;
    SepIndexAfterSafe(r, x);
    assert key[..|r|] == r && key[|r| + 2..] == x;
    assert SepIndex(x) == None;
    assert Split(x) == [x];
  }

  /** separateKey inverts makeKey on safe identities. */
  lemma SeparateMakeKey(r: string, x: string)
    requires SafeId(r) && SafeId(x)
    ensures SeparateKey(MakeKey(r, x)) == Ok((OrStar(r), OrStar(x)))
  {
    assert SafeId(OrStar(r)) && SafeId(OrStar(x)) by {
      assert !HasSep(ASTERISK);
    }
    SeparateJoin(OrStar(r), OrStar(x));
  }

  /** An identity holding the separator yields a key of three parts: allow("a::b", "c") stores "a::b::c". */
  lemma SeparatorInIdInvalid()
    ensures SeparateKey(MakeKey("a::b", "c")) == Err(KeyFormError)
  {
    assert MakeKey("a::b", "c") == "a" + SEP + ("b" + SEP + "c");
    SplitAfterSafe("a", "b" + SEP + "c");
    SplitAfterSafe("b", "c");
    assert SepIndex("c") == None;
  }

  /** On safe identities different tuples have different keys. */
  lemma MakeKeyInjective(r1: string, x1: string, r2: string, x2: string)
    requires SafeId(r1) && SafeId(x1) && SafeId(r2) && SafeId(x2)
    requires MakeKey(r1, x1) == MakeKey(r2, x2)
    ensures OrStar(r1) == OrStar(r2) && OrStar(x1) == OrStar(x2)
  {
    SeparateMakeKey(r1, x1);
    SeparateMakeKey(r2, x2);
  }

  predicate StartsWith(s: string, p: string) {
    |p| <= |s| && s[..|p|] == p
  }

  predicate EndsWith(s: string, p: string) {
    |p| <= |s| && s[|s| - |p|..] == p
  }

  /** removeByRole's test, as written: the key starts with `roleId + "::"`. */
  predicate RoleKeyMatches(key: string, roleId: string) {
    StartsWith(key, roleId + SEP)
  }

  /** removeByResource's test, as written: the key ends with `"::" + resourceId`. */
  predicate ResourceKeyMatches(key: string, resourceId: string) {
    EndsWith(key, SEP + resourceId)
  }

  /** On safe identities the prefix test selects exactly the tuples of that role. */
  lemma RoleKeyMatchesExactly(r: string, x: string, q: string)
    requires SafeId(r) && SafeId(x) && SafeId(q) && r != "" && x != ""
    ensures RoleKeyMatches(MakeKey(r, x), q) <==> r == q
  {
    var key := r + SEP + x;
    assert MakeKey(r, x) == key;
    var p := q + SEP;
    assert p[|q|] == ':' && p[|q| + 1] == ':';
    if |q| < |r| {
      // the key has no separator where the prefix has one
      assert key[..|p|][|q|] == key[|q|] == r[|q|];
      if |q| + 1 < |r| {
        assert key[..|p|][|q| + 1] == key[|q| + 1] == r[|q| + 1];
        assert !(r[|q|] == ':' && r[|q| + 1] == ':');
      } else {
        assert r[|r| - 1] == r[|q|];
      }
    } else if |q| > |r| {
      // the prefix has no separator where the key has one
      assert p[|r|] == q[|r|];
      if |r| + 1 < |q| {
        assert p[|r| + 1] == q[|r| + 1];
        assert !(q[|r|] == ':' && q[|r| + 1] == ':');
      } else {
        assert q[|q| - 1] == q[|r|];
      }
      if |p| <= |key| {
        assert key[..|p|][|r|] == key[|r|] == ':';
        assert key[..|p|][|r| + 1] == key[|r| + 1] == ':';
      }
    } else {
      assert key[..|p|][..|q|] == r && p[..|q|] == q;
      assert r == q ==> key[..|p|] == p;
    }
  }

  /** On safe identities the suffix test selects exactly the tuples of that resource. */
  lemma ResourceKeyMatchesExactly(r: string, x: string, y: string)
    requires SafeId(r) && SafeId(x) && SafeId(y) && r != "" && x != ""
    ensures ResourceKeyMatches(MakeKey(r, x), y) <==> x == y
  {
    var key := r + SEP + x;
    assert MakeKey(r, x) == key;
    var p := SEP + y;
    var n := |key|;
    assert p[0] == ':' && p[1] == ':';
    if |y| < |x| {
      // the suffix's separator would fall inside x
      var e := key[n - |p|..];
      assert e[1] == key[n - |y| - 1] == x[|x| - |y| - 1];
      if |y| + 2 <= |x| {
        assert e[0] == key[n - |y| - 2] == x[|x| - |y| - 2];
        assert !(x[|x| - |y| - 2] == ':' && x[|x| - |y| - 1] == ':');
      }
    } else if |y| > |x| {
      // the key's separator would fall inside y
      assert p[|p| - |x| - 1] == y[|y| - |x| - 1];
      if |y| - |x| >= 2 {
        assert p[|p| - |x| - 2] == y[|y| - |x| - 2];
        assert !(y[|y| - |x| - 2] == ':' && y[|y| - |x| - 1] == ':');
      } else {
        assert y[0] == y[|y| - |x| - 1];
      }
      if |p| <= n {
        var e := key[n - |p|..];
        assert e[|p| - |x| - 1] == key[n - |x| - 1] == ':';
        assert e[|p| - |x| - 2] == key[n - |x| - 2] == ':';
      }
    } else {
      assert key[n - |p|..][2..] == x && p[2..] == y;
      assert x == y ==> key[n - |p|..] == p;
    }
  }

  /**
   * As written, the prefix test over-matches when a role ends with a colon:
   * removeByRole("a") also selects the tuple of role "a:" and resource "x",
   * whose key is "a:::x"; and the tuples ("a:", "b") and ("a", ":b") share
   * one key.
   */
  lemma RolePrefixOvermatches()
    ensures RoleKeyMatches(MakeKey("a:", "x"), "a") && OrStar("a:") != "a"
    ensures MakeKey("a:", "b") == MakeKey("a", ":b")
  {
    assert MakeKey("a:", "x") == "a:::x";
    assert MakeKey("a:", "x")[..3] == "a::";
    assert MakeKey("a:", "b") == "a:::b" == MakeKey("a", ":b");
  }

  /**
   * As written, the suffix test over-matches when a resource starts with a
   * colon: removeByResource("b") also selects the tuple of role "x" and
   * resource ":b", whose key is "x:::b".
   */
  lemma ResourceSuffixOvermatches()
    ensures ResourceKeyMatches(MakeKey("x", ":b"), "b") && OrStar(":b") != "b"
  {
    assert MakeKey("x", ":b") == "x:::b";
    assert MakeKey("x", ":b")[2..] == "::b";
  }
}
