/**
 * The update-externals goal: the entry list it mutates, the lookup loop, the per-external
 * update, the write loop and the driver (UpdateExternalsMojo).
 */
module UpdateExternalsMojo {
  import opened Results
  import opened Externals
  import opened Resolver
  import opened Reconciler
  import opened Serializer

  /** The LinkedList<Entry> that one run loads, updates in place and writes back. */
  class EntryList {
    var entries: seq<Entry>

    constructor (loaded: seq<Entry>)
      ensures entries == loaded
    {
      entries := loaded;
    }

    /** Appends an entry at the end. */
    method Add(e: Entry)
      modifies this
      ensures entries == old(entries) + [e]
    {
      entries := entries + [e];
    }

    /** Overwrites both fields of the entry at position `i`; the entry keeps its position. */
    method Set(i: nat, e: Entry)
      requires i < |entries|
      modifies this
      ensures entries == old(entries)[i := e]
    {
      entries := entries[i := e];
    }
  }

  /** Scans the list front to back and stops at the first entry whose location or path equals `path`. */
  method FindEntry(list: EntryList, path: string) returns (r: Option<nat>)
    ensures r == FirstMatch(list.entries, path)
  {
    var i := 0;
    while i < |list.entries|
      invariant 0 <= i <= |list.entries|
      invariant forall j | 0 <= j < i :: !Matches(list.entries[j], path)
    {
      var e := list.entries[i];
      if path == e.location || path == e.path {
        return Some(i);
      }
      i := i + 1;
    }
    return None;
  }

  /**
   * Validates one external, resolves its SCM URL and binds its path to that URL in the
   * list; a failure leaves the list as it was.
   */
  method UpdateExternal(list: EntryList, external: External, scmOf: Dependency -> Option<Scm>) returns (r: Outcome<Error>)
    modifies list
    ensures r.Pass? <==> Resolve(external, scmOf).Success?
    ensures r.Fail? ==> r.error == Resolve(external, scmOf).error && list.entries == old(list.entries)
    ensures r.Pass? ==> list.entries == Upsert(old(list.entries), Resolve(external, scmOf).value.location, external.path.value)
  {
    if external.dependency.None? {
      return Fail(DependencyMissing);
    }
    var dependency := external.dependency.value;
    var id := Coordinates(dependency);
    if external.path.None? {
      return Fail(PathMissing(id));
    }
    var path := external.path.value;
    var scm := scmOf(dependency);
    if scm.None? {
      return Fail(ScmMissing(id));
    }
    var url := scm.value.url;
    if url.None? || |url.value| == 0 {
      return Fail(ScmUrlMissing(id));
    }
    var found := FindEntry(list, path);
    if found.None? {
      list.Add(Entry(url.value, path));
    } else {
      list.Set(found.value, Entry(url.value, path));
    }
    return Pass;
  }

  /** Writes one record per entry, in list order; returns the text written. */
  method WriteExternals(list: EntryList) returns (text: string)
    ensures text == Render(list.entries)
  {
    text := "";
    var i := 0;
    while i < |list.entries|
      invariant 0 <= i <= |list.entries|
      invariant text == Render(list.entries[..i])
    {
      RenderPrefixStep(list.entries, i);
      text := text + Line(list.entries[i]);
      i := i + 1;
    }
    assert list.entries[..i] == list.entries;
  }

  /**
   * Applies every external to the loaded list, in order, and writes the list; the first
   * failure stops the run before anything is written.
   */
  method UpdateExternals(loaded: seq<Entry>, externals: seq<External>, scmOf: Dependency -> Option<Scm>)
    returns (r: Result<string, Error>)
    ensures Reconcile(loaded, externals, scmOf).Failure? ==> r == Failure(Reconcile(loaded, externals, scmOf).error)
    ensures Reconcile(loaded, externals, scmOf).Success? ==> r == Success(Render(Reconcile(loaded, externals, scmOf).value))
  {
    var list := new EntryList(loaded);
    var i := 0;
    while i < |externals|
      invariant 0 <= i <= |externals|
      invariant Reconcile(loaded, externals, scmOf) == Reconcile(list.entries, externals[i..], scmOf)
    {
      assert externals[i..][0] == externals[i];
      assert externals[i..][1..] == externals[i + 1..];
      var outcome := UpdateExternal(list, externals[i], scmOf);
      if outcome.Fail? {
        return Failure(outcome.error);
      }
      i := i + 1;
    }
    var text := WriteExternals(list);
    return Success(text);
  }

  /**
   * The goal's entry point: a missing externals configuration fails at once; otherwise
   * the run writes the reconciled list exactly when every external is valid, and
   * reports the earliest invalid external's error otherwise.
   */
  method Execute(externals: Option<seq<External>>, loaded: seq<Entry>, scmOf: Dependency -> Option<Scm>)
    returns (r: Result<string, Error>)
    ensures externals.None? ==> r == Failure(ExternalsMissing)
    ensures externals.Some? ==> (r.Success? <==> AllResolve(externals.value, scmOf))
    ensures externals.Some? && Reconcile(loaded, externals.value, scmOf).Success? ==>
              r == Success(Render(Reconcile(loaded, externals.value, scmOf).value))
    ensures externals.Some? && r.Failure? ==>
              exists k | 0 <= k < |externals.value| ::
                && Resolve(externals.value[k], scmOf).Failure?
                && (forall j | 0 <= j < k :: Resolve(externals.value[j], scmOf).Success?)
                && r.error == Resolve(externals.value[k], scmOf).error
  {
    if externals.None? {
      return Failure(ExternalsMissing);
    }
    var exts := externals.value;
    ReconcileFailsFast(loaded, exts, scmOf);
    r := UpdateExternals(loaded, exts, scmOf);
    if r.Failure? {
      FirstInvalidExists(exts, scmOf);
    }
  }

  /** When some external is invalid, there is an earliest one. */
  lemma {:induction false} FirstInvalidExists(exts: seq<External>, scmOf: Dependency -> Option<Scm>)
    requires !AllResolve(exts, scmOf)
    ensures exists k | 0 <= k < |exts| ::
              Resolve(exts[k], scmOf).Failure? && forall j | 0 <= j < k :: Resolve(exts[j], scmOf).Success?
    decreases |exts|
  {
    if Resolve(exts[0], scmOf).Success? {
      assert !AllResolve(exts[1..], scmOf) by {
        var k :| 0 <= k < |exts| && Resolve(exts[k], scmOf).Failure?;
        assert exts[1..][k - 1] == exts[k];
      }
      FirstInvalidExists(exts[1..], scmOf);
      var k :| 0 <= k < |exts[1..]| && Resolve(exts[1..][k], scmOf).Failure? &&
               forall j | 0 <= j < k :: Resolve(exts[1..][j], scmOf).Success?;
      assert exts[1..][k] == exts[k + 1];
      forall j | 0 <= j < k + 1 ensures Resolve(exts[j], scmOf).Success? {
        if j > 0 { assert exts[j] == exts[1..][j - 1]; }
      }
    }
  }
}
