/**
 * The svn:externals entry list and its find-or-append update
 * (UpdateExternalsMojo.findEntry and the tail of UpdateExternalsMojo.updateExternal).
 */
module Externals {
  import opened Results

  /** One svn:externals definition: `first` (the location) and `second` (the path) of `UpdateExternalsMojo`'s `Entry`. */
  datatype Entry = Entry(location: string, path: string)

  /** An entry is found by a key equal to its location or to its path. */
  predicate Matches(e: Entry, key: string) {
    key == e.location || key == e.path
  }

  /** The position of the earliest entry that `key` matches, or None when no entry matches. */
  function FirstMatch(s: seq<Entry>, key: string): (r: Option<nat>)
    ensures r.Some? ==> r.value < |s| && Matches(s[r.value], key)
    ensures r.Some? ==> forall j | 0 <= j < r.value :: !Matches(s[j], key)
    ensures r.None? <==> forall j | 0 <= j < |s| :: !Matches(s[j], key)
    decreases |s|
  {
    if s == [] then None
    else if Matches(s[0], key) then Some(0)
    else
      match FirstMatch(s[1..], key)
      case None => None
      case Some(i) => Some(i + 1)
  }

  /**
   * Binds `path` to `location`: the first entry matching `path` is overwritten with
   * (location, path); when no entry matches, (location, path) is appended.
   */
  function Upsert(s: seq<Entry>, location: string, path: string): (r: seq<Entry>)
    ensures |s| <= |r| <= |s| + 1
    ensures (forall j | 0 <= j < |s| :: !Matches(s[j], path)) ==> r == s + [Entry(location, path)]
    ensures forall i | 0 <= i < |s| && Matches(s[i], path) && (forall j | 0 <= j < i :: !Matches(s[j], path)) ::
              r == s[i := Entry(location, path)]
    ensures forall i | 0 <= i < |s| && !Matches(s[i], path) :: r[i] == s[i]
    ensures Entry(location, path) in r
  {
    match FirstMatch(s, path)
    case None => s + [Entry(location, path)]
    case Some(i) =>
      var r := s[i := Entry(location, path)];
      assert r[i] == Entry(location, path);
      r
  }

  /** Upserting the same binding a second time changes nothing: the entry written first is again the first match. */
  lemma UpsertIdempotent(s: seq<Entry>, location: string, path: string)
    ensures Upsert(Upsert(s, location, path), location, path) == Upsert(s, location, path)
  {
  }

  /** No two entries share a path. */
  predicate PathsUnique(s: seq<Entry>) {
    forall i, j | 0 <= i < j < |s| :: s[i].path != s[j].path
  }

  /**
   * The update keeps paths unique provided no entry's location equals the new path
   * (then the only entry the path can match is the one already holding that path).
   */
  lemma UpsertKeepsPathsUnique(s: seq<Entry>, location: string, path: string)
    requires PathsUnique(s)
    requires forall j | 0 <= j < |s| :: s[j].location != path
    ensures PathsUnique(Upsert(s, location, path))
  {
  }

  /**
   * Without that side condition the update can leave two entries with one path: the
   * path is found first as the location of an unrelated entry, which is overwritten,
   * while the entry that already held the path stays as it was.
   */
  lemma UpsertMayDuplicatePath()
    ensures var s := [Entry("libs/a", "vendor/x"), Entry("https://scm/old", "libs/a")];
            PathsUnique(s) && !PathsUnique(Upsert(s, "https://scm/new", "libs/a"))
  {
    var s := [Entry("libs/a", "vendor/x"), Entry("https://scm/old", "libs/a")];
    assert Matches(s[0], "libs/a");
    var r := Upsert(s, "https://scm/new", "libs/a");
    assert r == [Entry("https://scm/new", "libs/a"), Entry("https://scm/old", "libs/a")];
    assert r[0].path == r[1].path;
  }
}
