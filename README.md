# svn:externals reconciliation (maven-svn-plugin, `update-externals` goal)

A Dafny model of the `update-externals` goal of the Maven SVN plugin. The goal reads
the `svn:externals` property of a working copy as an ordered list of entries
(location, path). It then takes each configured external (a Maven dependency and a
working-copy path) in order and checks it. It resolves the dependency to the SCM URL
that the dependency's own project declares, and binds the path to that URL in the
list. The first entry whose location or path equals the declared path is overwritten
in place. When no entry matches, a new entry is appended. Entries that no external
names are kept as they are. The list is finally written back as one
`<location> <path>\n` record per entry.

Modules:

- `Results`: `Option` (a Java reference that may be null), `Result`, `Outcome`.
- `Externals`: `Entry`, the first-match lookup `FirstMatch`, the find-or-append update
  `Upsert`, and what the update does to path uniqueness.
- `Resolver`: the configured `External`, `Dependency` and `Scm`, the `Error` kinds, the
  `group:artifact:version:type` identifier `Coordinates`, and the validation `Resolve`.
- `Reconciler`: `Reconcile`, the fold of `Resolve` and `Upsert` over the externals in
  input order. It comes with its fail-fast, ordering, additivity and idempotence lemmas.
- `Serializer`: the record format `Line` and `Render`, with the line-count property.
- `UpdateExternalsMojo`: the imperative code. The class `EntryList` is the
  `LinkedList<Entry>` that a run mutates. `FindEntry` and `WriteExternals` are its
  loops, `UpdateExternal` is the per-external update, and `UpdateExternals` and
  `Execute` are the driver. Each method is proved against the functions above.

Resolving a dependency goes through `DependencyService`, `ProjectService` and
`MavenProject.getScm()`. These calls cannot be seen here, so the model takes them as a
parameter `scmOf: Dependency -> Option<Scm>`. The result is `None` when the project
has no SCM section, and `Scm.url` is `None` when the URL is null. The entries loaded
from the working copy (`loadExternals`) are a parameter `loaded` as well.

Where the code does not do what one might expect of it, the model follows the code:

- Only a null `externals` array stops the run. An empty array is accepted, and the
  loaded list is written back unchanged.
- One might expect the list to use no path and no location twice. The code does not
  keep that. Two externals with different paths and the same
  URL give two entries with one location. A path may also be found first as the
  location of an unrelated entry. That entry is then overwritten, and the entry that
  already held the path stays, so the path now appears twice
  (`Externals.UpsertMayDuplicatePath`). Path uniqueness is guaranteed when no location
  equals the new path (`Externals.UpsertKeepsPathsUnique`).
- The lookup scans entries in list order and tests each one on its location or its
  path. The first entry matching on either field wins. The path is not preferred.

## Model

| member | source | states |
|---|---|---|
| `Externals.FirstMatch` | src/main/java/org/hardisonbrewing/maven/svn/UpdateExternalsMojo.java:193-202 | the result is the earliest index whose location or path equals the key, and it is None exactly when no entry has either field equal to the key |
| `Externals.Upsert` | src/main/java/org/hardisonbrewing/maven/svn/UpdateExternalsMojo.java:182-190 | when an entry matches the path, the list keeps its length and order and only the first matching entry becomes (url, path); when none matches, exactly (url, path) is appended; entries the path does not match are unchanged; the length grows by at most one |
| `Externals.UpsertIdempotent` | src/main/java/org/hardisonbrewing/maven/svn/UpdateExternalsMojo.java:182-202 | binding the same (url, path) twice gives the same list as binding it once |
| `Externals.UpsertKeepsPathsUnique` | src/main/java/org/hardisonbrewing/maven/svn/UpdateExternalsMojo.java:182-196 | if no two entries share a path and no entry's location equals the new path, no two entries share a path afterwards |
| `Externals.UpsertMayDuplicatePath` | src/main/java/org/hardisonbrewing/maven/svn/UpdateExternalsMojo.java:182-196 | without that side condition, a list with unique paths can end up with a path held by two entries |
| `Resolver.Coordinates` | src/main/java/org/hardisonbrewing/maven/svn/UpdateExternalsMojo.java:150-157 | the identifier has the four coordinates' lengths plus three separators, starts with the group followed by ':', and ends with ':' followed by the type |
| `Resolver.Resolve` | src/main/java/org/hardisonbrewing/maven/svn/UpdateExternalsMojo.java:143-178 | an external is accepted exactly when its dependency and path are non-null and the dependency's SCM section and URL are non-null with a non-empty URL; it then yields (url, path); the checks run in the code's order: a null dependency gives DependencyMissing, then a null path PathMissing, a null SCM section ScmMissing, a null or empty URL ScmUrlMissing, each of the last three with the dependency's identifier |
| `Resolver.CoordinatesInjective` | src/main/java/org/hardisonbrewing/maven/svn/UpdateExternalsMojo.java:150-157 | when group, artifact and version contain no ':', equal identifiers mean equal coordinates, with a null coordinate reading as "null" |
| `Reconciler.Reconcile` | src/main/java/org/hardisonbrewing/maven/svn/UpdateExternalsMojo.java:120-122 | on success the list never shrinks and grows by at most one entry per external, and the binding of the last external is in the result |
| `Reconciler.ReconcileFailsFast` | src/main/java/org/hardisonbrewing/maven/svn/UpdateExternalsMojo.java:116-125 | the run over the externals succeeds exactly when every external is valid, whatever the loaded list; otherwise it fails with the error of the earliest invalid external |
| `Reconciler.ReconcileInOrder` | src/main/java/org/hardisonbrewing/maven/svn/UpdateExternalsMojo.java:120-122 | externals are applied in input order: a run over a + b is a run over a and then a run over b on its result, and a failure in a stops before b |
| `Reconciler.ReconcileKeepsUntouched` | src/main/java/org/hardisonbrewing/maven/svn/UpdateExternalsMojo.java:116-125 | on success an entry that no declared path matches keeps its position and its value |
| `Reconciler.ReconcileTwiceSameAsOnce` | src/main/java/org/hardisonbrewing/maven/svn/UpdateExternalsMojo.java:120-122 | declaring the same external twice gives the same outcome as declaring it once |
| `Reconciler.FreshAddScenario` | src/main/java/org/hardisonbrewing/maven/svn/UpdateExternalsMojo.java:182-190 | an empty list and g:a:1.0:jar resolved to https://scm/example/trunk at libs/example give exactly that one entry |
| `Reconciler.UpdateByPathScenario` | src/main/java/org/hardisonbrewing/maven/svn/UpdateExternalsMojo.java:182-190 | an entry already at libs/example is overwritten with the new URL rather than duplicated |
| `Reconciler.ScmUrlMissingScenario` | src/main/java/org/hardisonbrewing/maven/svn/UpdateExternalsMojo.java:173-178 | a dependency whose SCM URL is null fails the run with ScmUrlMissing("g:a:1.0:jar") |
| `Serializer.Line` | src/main/java/org/hardisonbrewing/maven/svn/UpdateExternalsMojo.java:232 | a record is the location, then a space, then the path, then a final newline |
| `Serializer.Render` | src/main/java/org/hardisonbrewing/maven/svn/UpdateExternalsMojo.java:231-232 | the text is empty exactly when the list is, and a non-empty text ends with a newline |
| `Serializer.RenderAppend` | src/main/java/org/hardisonbrewing/maven/svn/UpdateExternalsMojo.java:231-232 | the text of a concatenated list is the concatenation of the texts, so records appear in list order |
| `Serializer.RenderLineCount` | src/main/java/org/hardisonbrewing/maven/svn/UpdateExternalsMojo.java:231-232 | when no field holds a newline, the text holds exactly one newline per entry |
| `Serializer.RenderExamples` | src/main/java/org/hardisonbrewing/maven/svn/UpdateExternalsMojo.java:231-232 | the empty list renders to the empty text, and [(u1,p1),(u2,p2)] renders to "u1 p1\nu2 p2\n" |
| `UpdateExternalsMojo.EntryList.constructor` | src/main/java/org/hardisonbrewing/maven/svn/UpdateExternalsMojo.java:134-138 | the list starts out holding the loaded entries |
| `UpdateExternalsMojo.EntryList.Add` | src/main/java/org/hardisonbrewing/maven/svn/UpdateExternalsMojo.java:184-187 | appends one entry at the end and changes nothing else |
| `UpdateExternalsMojo.EntryList.Set` | src/main/java/org/hardisonbrewing/maven/svn/UpdateExternalsMojo.java:189-190 | overwrites both fields of one entry in place; its position and every other entry are unchanged |
| `UpdateExternalsMojo.FindEntry` | src/main/java/org/hardisonbrewing/maven/svn/UpdateExternalsMojo.java:193-202 | the scan returns the first matching position, and nothing exactly when no entry's location or path equals the key |
| `UpdateExternalsMojo.UpdateExternal` | src/main/java/org/hardisonbrewing/maven/svn/UpdateExternalsMojo.java:141-191 | succeeds exactly when the external is valid; a failure leaves the list unchanged and reports the validation error; a success leaves the list equal to the find-or-append update with the resolved URL and the declared path |
| `UpdateExternalsMojo.WriteExternals` | src/main/java/org/hardisonbrewing/maven/svn/UpdateExternalsMojo.java:221-238 | the text written is the in-order concatenation of "location path\n" over all entries |
| `UpdateExternalsMojo.UpdateExternals` | src/main/java/org/hardisonbrewing/maven/svn/UpdateExternalsMojo.java:116-125 | the text is written only when every external was applied, and it is then the rendering of the reconciled list; otherwise the first failure is returned |
| `UpdateExternalsMojo.Execute` | src/main/java/org/hardisonbrewing/maven/svn/UpdateExternalsMojo.java:56-82 | a null externals array fails with ExternalsMissing; otherwise the run writes exactly when every external is valid, writes the rendering of the reconciled list, and else reports the error of the earliest invalid external |

## Left out

- The `svn` subprocesses are not modelled: `checkout`, `propget` (in `loadExternals`), `propset` (in `writeExternals(List)`) and `commit`. A failing checkout or commit therefore does not appear in `Execute`. Its success result is the text the goal would write to `target/svn.externals` before `propset` and `commit`.
- Parsing the `propget` output (`PropertyStreamConsumer`) is not part of this model. The loaded entries are a parameter, so there is no parse/render round trip.
- Loaded entries are assumed to have non-null fields, since the parser that builds them is not part of this model.
- Dependency resolution (`DependencyService.createResolvedArtifact`, `ProjectService.getProject`, `getScm`) is a parameter. Exceptions thrown inside those calls are not modelled.
- File and process I/O is not modelled: creating the checkout directory, `buildCommandline`, `FileUtils.ensureParentExists`, the output stream and the platform byte encoding of `getBytes`. The written file is modelled as a string.
- Logging through `getLog()` is not modelled. The message text is not modelled either, except the dependency identifier that errors carry.
- All failures are `IllegalStateException` in the code. The model tells them apart by an `Error` kind.
- An `Entry` object is modelled as a value at a list position, not as an object reference. `findEntry` returns the position instead of the reference. No other reference to an entry exists during a run, so no aliasing is lost.
