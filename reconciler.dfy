/**
 * Applying every configured external, in order, to the entry list
 * (the loop of UpdateExternalsMojo.updateExternals); the first invalid external stops the run.
 */
module Reconciler {
  import opened Results
  import opened Externals
  import opened Resolver

  /** The entry list after resolving and upserting `exts` in order, or the first failure. */
  function Reconcile(s: seq<Entry>, exts: seq<External>, scmOf: Dependency -> Option<Scm>): (r: Result<seq<Entry>, Error>)
    ensures r.Success? ==> |s| <= |r.value| <= |s| + |exts|
    ensures r.Success? && exts != [] ==>
              Resolve(exts[|exts| - 1], scmOf).Success? && Resolve(exts[|exts| - 1], scmOf).value in r.value
    decreases |exts|
  {
    if exts == [] then Success(s)
    else
      match Resolve(exts[0], scmOf)
      case Failure(e) => Failure(e)
      case Success(b) => Reconcile(Upsert(s, b.location, b.path), exts[1..], scmOf)
  }

  /** All externals are valid. */
  predicate AllResolve(exts: seq<External>, scmOf: Dependency -> Option<Scm>) {
    forall k | 0 <= k < |exts| :: Resolve(exts[k], scmOf).Success?
  }

  /**
   * Fail-fast: the run succeeds exactly when every external is valid, whatever the
   * entries are; otherwise it fails with the error of the earliest invalid external.
   */
  lemma {:induction false} ReconcileFailsFast(s: seq<Entry>, exts: seq<External>, scmOf: Dependency -> Option<Scm>)
    ensures Reconcile(s, exts, scmOf).Success? <==> AllResolve(exts, scmOf)
    ensures forall k | 0 <= k < |exts| && Resolve(exts[k], scmOf).Failure? &&
                       (forall j | 0 <= j < k :: Resolve(exts[j], scmOf).Success?) ::
              Reconcile(s, exts, scmOf) == Failure(Resolve(exts[k], scmOf).error)
    decreases |exts|
  {
    if exts != [] {
      match Resolve(exts[0], scmOf)
      case Failure(e) =>
        assert !AllResolve(exts, scmOf);
      case Success(b) =>
        var t := Upsert(s, b.location, b.path);
        ReconcileFailsFast(t, exts[1..], scmOf);
        assert AllResolve(exts, scmOf) <==> AllResolve(exts[1..], scmOf) by {
          if AllResolve(exts[1..], scmOf) {
            forall k | 0 <= k < |exts| ensures Resolve(exts[k], scmOf).Success? {
              if k > 0 { assert exts[k] == exts[1..][k - 1]; }
            }
          }
        }
        forall k | 0 <= k < |exts| && Resolve(exts[k], scmOf).Failure? &&
                   (forall j | 0 <= j < k :: Resolve(exts[j], scmOf).Success?)
          ensures Reconcile(s, exts, scmOf) == Failure(Resolve(exts[k], scmOf).error)
        {
          assert exts[1..][k - 1] == exts[k];
          forall j | 0 <= j < k - 1 ensures Resolve(exts[1..][j], scmOf).Success? {
            assert exts[1..][j] == exts[j + 1];
          }
        }
    }
  }

  /** Externals are applied in input order: a run over `a + b` is a run over `a` followed by a run over `b`. */
  lemma {:induction false} ReconcileInOrder(s: seq<Entry>, a: seq<External>, b: seq<External>, scmOf: Dependency -> Option<Scm>)
    ensures Reconcile(s, a + b, scmOf) ==
              match Reconcile(s, a, scmOf)
              case Failure(e) => Failure(e)
              case Success(t) => Reconcile(t, b, scmOf)
    decreases |a|
  {
    if a == [] {
      assert a + b == b;
    } else {
      assert (a + b)[0] == a[0];
      assert (a + b)[1..] == a[1..] + b;
      match Resolve(a[0], scmOf)
      case Failure(e) =>
      case Success(x) =>
        ReconcileInOrder(Upsert(s, x.location, x.path), a[1..], b, scmOf);
    }
  }

  /** No external of `exts` names `e` by its location or its path. */
  predicate Untouched(e: Entry, exts: seq<External>) {
    forall k | 0 <= k < |exts| && exts[k].path.Some? :: !Matches(e, exts[k].path.value)
  }

  /**
   * Entries are never removed or moved, and an entry that no external names keeps its
   * position and its value; new entries are only appended.
   */
  lemma {:induction false} ReconcileKeepsUntouched(s: seq<Entry>, exts: seq<External>, scmOf: Dependency -> Option<Scm>, i: nat)
    requires Reconcile(s, exts, scmOf).Success?
    requires i < |s| && Untouched(s[i], exts)
    ensures i < |Reconcile(s, exts, scmOf).value|
    ensures Reconcile(s, exts, scmOf).value[i] == s[i]
    decreases |exts|
  {
    if exts != [] {
      var b := Resolve(exts[0], scmOf).value;
      assert exts[0].path.Some?;
      var t := Upsert(s, b.location, b.path);
      assert !Matches(s[i], b.path);
      assert Untouched(t[i], exts[1..]) by {
        forall k | 0 <= k < |exts[1..]| && exts[1..][k].path.Some?
          ensures !Matches(t[i], exts[1..][k].path.value)
        {
          assert exts[1..][k] == exts[k + 1];
        }
      }
      ReconcileKeepsUntouched(t, exts[1..], scmOf, i);
    }
  }

  /** Applying the same external twice gives the same list as applying it once. */
  lemma ReconcileTwiceSameAsOnce(s: seq<Entry>, x: External, scmOf: Dependency -> Option<Scm>)
    ensures Reconcile(s, [x, x], scmOf) == Reconcile(s, [x], scmOf)
  {
    match Resolve(x, scmOf)
    case Failure(e) =>
    case Success(b) =>
      assert [x, x][1..] == [x];
      UpsertIdempotent(s, b.location, b.path);
  }

  /** The dependency g:a:1.0:jar used by the scenarios below. */
  function ExampleDependency(): Dependency {
    Dependency(Some("g"), Some("a"), Some("1.0"), Some("jar"))
  }

  /** An empty list gains one entry binding the declared path to the resolved URL. */
  lemma FreshAddScenario(scmOf: Dependency -> Option<Scm>)
    requires scmOf(ExampleDependency()) == Some(Scm(Some("https://scm/example/trunk")))
    ensures Reconcile([], [External(Some(ExampleDependency()), Some("libs/example"))], scmOf)
            == Success([Entry("https://scm/example/trunk", "libs/example")])
  {
    var x := External(Some(ExampleDependency()), Some("libs/example"));
    var e := Entry("https://scm/example/trunk", "libs/example");
    assert Resolve(x, scmOf) == Success(e);
    assert Upsert([], e.location, e.path) == [e];
    assert [x][1..] == [];
    assert Reconcile([e], [], scmOf) == Success([e]);
  }

  /** An entry already holding the declared path is updated in place, not duplicated. */
  lemma UpdateByPathScenario(scmOf: Dependency -> Option<Scm>)
    requires scmOf(ExampleDependency()) == Some(Scm(Some("https://scm/new")))
    ensures Reconcile([Entry("https://scm/old", "libs/example")],
                      [External(Some(ExampleDependency()), Some("libs/example"))], scmOf)
            == Success([Entry("https://scm/new", "libs/example")])
  {
    var x := External(Some(ExampleDependency()), Some("libs/example"));
    var before := Entry("https://scm/old", "libs/example");
    var e := Entry("https://scm/new", "libs/example");
    assert Resolve(x, scmOf) == Success(e);
    assert Matches([before][0], "libs/example");
    assert Upsert([before], e.location, e.path) == [e];
    assert [x][1..] == [];
    assert Reconcile([e], [], scmOf) == Success([e]);
  }

  /** A dependency without an SCM URL stops the run with that dependency's identifier. */
  lemma ScmUrlMissingScenario(s: seq<Entry>, scmOf: Dependency -> Option<Scm>)
    requires scmOf(ExampleDependency()) == Some(Scm(None))
    ensures Reconcile(s, [External(Some(ExampleDependency()), Some("libs/example"))], scmOf)
            == Failure(ScmUrlMissing("g:a:1.0:jar"))
  {
    assert Coordinates(ExampleDependency()) == "g:a:1.0:jar";
  }
}
