/**
 * Validation of one configured external and resolution of its dependency to an SCM
 * location (the first part of UpdateExternalsMojo.updateExternal).
 */
module Resolver {
  import opened Results
  import opened Externals

  /** A Maven dependency; each coordinate may be null. */
  datatype Dependency = Dependency(
    groupId: Option<string>, artifactId: Option<string>, version: Option<string>, kind: Option<string>)

  /** A configured external: the dependency to bind and the working-copy path to bind it to; either may be null. */
  datatype External = External(dependency: Option<Dependency>, path: Option<string>)

  /** The SCM section of the dependency's project; its URL may be null. */
  datatype Scm = Scm(url: Option<string>)

  /**
   * The reasons a run stops. Every failure after the dependency check carries the
   * dependency's `group:artifact:version:type` identifier.
   */
  datatype Error =
    | ExternalsMissing
    | DependencyMissing
    | PathMissing(id: string)
    | ScmMissing(id: string)
    | ScmUrlMissing(id: string)

  /** The text StringBuffer.append gives for a string that may be null. */
  function FieldText(f: Option<string>): string {
    if f.None? then "null" else f.value
  }

  /** The `group:artifact:version:type` identifier reported in diagnostics. */
  function Coordinates(d: Dependency): (id: string)
    ensures |id| == |FieldText(d.groupId)| + |FieldText(d.artifactId)| + |FieldText(d.version)| + |FieldText(d.kind)| + 3
    ensures id[..|FieldText(d.groupId)|] == FieldText(d.groupId) && id[|FieldText(d.groupId)|] == ':'
    ensures id[|id| - |FieldText(d.kind)|..] == FieldText(d.kind) && id[|id| - |FieldText(d.kind)| - 1] == ':'
  {
    FieldText(d.groupId) + ":" + FieldText(d.artifactId) + ":" + FieldText(d.version) + ":" + FieldText(d.kind)
  }

  /** The text before the first occurrence of `sep` (all of `s` when `sep` does not occur). */
  function UpTo(s: string, sep: char): (r: string)
    ensures |r| <= |s| && r == s[..|r|]
  {
    if s == [] || s[0] == sep then [] else [s[0]] + UpTo(s[1..], sep)
  }

  lemma {:induction false} UpToSeparator(a: string, b: string, sep: char)
    requires sep !in a
    ensures UpTo(a + [sep] + b, sep) == a
  {
    if a != [] {
      assert (a + [sep] + b)[1..] == a[1..] + [sep] + b;
      UpToSeparator(a[1..], b, sep);
    }
  }

  /** A string split at its first separator determines both halves. */
  lemma SplitAtFirstSeparator(a: string, b: string, c: string, d: string, sep: char)
    requires sep !in a && sep !in c
    requires a + [sep] + b == c + [sep] + d
    ensures a == c && b == d
  {
    UpToSeparator(a, b, sep);
    UpToSeparator(c, d, sep);
    assert b == (a + [sep] + b)[|a| + 1..];
    assert d == (c + [sep] + d)[|c| + 1..];
  }

  /** The identifier as the group, a ':', and the rest of the identifier. */
  lemma CoordinatesShape(d: Dependency)
    ensures Coordinates(d) == FieldText(d.groupId) + [':'] +
              (FieldText(d.artifactId) + [':'] + (FieldText(d.version) + [':'] + FieldText(d.kind)))
  {
  }

  /** The first three coordinates contain no ':' (the fourth may). */
  predicate ColonFree(d: Dependency) {
    ':' !in FieldText(d.groupId) && ':' !in FieldText(d.artifactId) && ':' !in FieldText(d.version)
  }

  /**
   * When the coordinates contain no ':', the identifier names the dependency's
   * coordinates unambiguously (a null coordinate reads as the text "null").
   */
  lemma CoordinatesInjective(d1: Dependency, d2: Dependency)
    requires ColonFree(d1) && ColonFree(d2)
    requires Coordinates(d1) == Coordinates(d2)
    ensures FieldText(d1.groupId) == FieldText(d2.groupId)
    ensures FieldText(d1.artifactId) == FieldText(d2.artifactId)
    ensures FieldText(d1.version) == FieldText(d2.version)
    ensures FieldText(d1.kind) == FieldText(d2.kind)
  {
    var g1, a1, v1, t1 := FieldText(d1.groupId), FieldText(d1.artifactId), FieldText(d1.version), FieldText(d1.kind);
    var g2, a2, v2, t2 := FieldText(d2.groupId), FieldText(d2.artifactId), FieldText(d2.version), FieldText(d2.kind);
    CoordinatesShape(d1);
    CoordinatesShape(d2);
    SplitAtFirstSeparator(g1, a1 + [':'] + (v1 + [':'] + t1), g2, a2 + [':'] + (v2 + [':'] + t2), ':');
    SplitAtFirstSeparator(a1, v1 + [':'] + t1, a2, v2 + [':'] + t2, ':');
    SplitAtFirstSeparator(v1, t1, v2, t2, ':');
  }

  /**
   * Validates an external and resolves it to the binding (SCM URL, path). `scmOf` stands
   * for resolving the dependency to its artifact and project and reading the project's
   * SCM section (None when that section is null).
   */
  function Resolve(ext: External, scmOf: Dependency -> Option<Scm>): (r: Result<Entry, Error>)
    ensures r.Success? <==>
              && ext.dependency.Some? && ext.path.Some?
              && scmOf(ext.dependency.value).Some?
              && scmOf(ext.dependency.value).value.url.Some?
              && scmOf(ext.dependency.value).value.url.value != ""
    ensures r.Success? ==> r.value == Entry(scmOf(ext.dependency.value).value.url.value, ext.path.value)
    ensures ext.dependency.None? ==> r == Failure(DependencyMissing)
    ensures ext.dependency.Some? && ext.path.None? ==> r == Failure(PathMissing(Coordinates(ext.dependency.value)))
    ensures ext.dependency.Some? && ext.path.Some? && scmOf(ext.dependency.value).None? ==>
              r == Failure(ScmMissing(Coordinates(ext.dependency.value)))
    ensures ext.dependency.Some? && ext.path.Some? && scmOf(ext.dependency.value).Some? &&
            (scmOf(ext.dependency.value).value.url.None? || scmOf(ext.dependency.value).value.url.value == "") ==>
              r == Failure(ScmUrlMissing(Coordinates(ext.dependency.value)))
  {
    if ext.dependency.None? then Failure(DependencyMissing)
    else
      var id := Coordinates(ext.dependency.value);
      if ext.path.None? then Failure(PathMissing(id))
      else
        var scm := scmOf(ext.dependency.value);
        if scm.None? then Failure(ScmMissing(id))
        else if scm.value.url.None? || scm.value.url.value == "" then Failure(ScmUrlMissing(id))
        else Success(Entry(scm.value.url.value, ext.path.value))
  }
}
