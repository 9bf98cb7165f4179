# VersionManager: a verified model of Geode's backward-compatibility version registry

`VersionManager` is the process-wide registry that Geode's distributed test harness
(dunit) uses to find the class paths of older Geode releases. It is created lazily on
the first `getInstance()`. At that point it reads `geodeOldVersionClasspaths.txt`, a
properties file generated by the build. Every entry whose key starts with `test` is
recorded: the bare key `test` as the current version `"000"`, any other key as the
key without its first four characters. Each recorded entry puts its class path into
the map `classPaths` and appends its version to the list `testVersions`. A running
minimum `oldver` starts at `"ZZZ"` and uses `String.compareTo`. When the loop ends it
sets `oldestVersion`, which becomes `"000"` if no stripped version was ever below
`"ZZZ"`. When the file is absent, nothing is loaded and `oldestVersion` stays `null`.

The project has three modules:

- `JavaStrings` (JavaStrings.dfy): `String.startsWith` and `String.compareTo`. It proves
  that `compareTo < 0` (`Below`) is a strict total order and is exactly the textbook
  lexicographic order.
- `VersionProperties` (VersionProperties.dfy): the entry-processing step as functions of
  the entry sequence. `VersionOf` is the prefix rule and `Candidate` is the stripped
  version offered to the minimum. `Recorded`, `ClassPaths` and `RunningMin` give the
  values of `testVersions`, `classPaths` and `oldver` after a run of entries, and
  `Oldest` gives the final `oldestVersion`. The lemmas state what the loop produces.
  They cover counts, key sets, last-put-wins, minimality, and independence from the
  Properties table's iteration order.
- `VersionManagement` (VersionManagement.dfy): the class `VersionManager`, with the three
  fields, the `FindVersions` loop, the queries and `GetVersionsWithoutCurrent`. The
  class `VersionManagerStatics` holds the static `instance` field and models
  `init`/`getInstance`.

The properties file is a parameter of type `Option<seq<Entry>>`. `None` means the file
was found at neither path. `Some(entries)` holds the entries in whatever order the
`Properties` hashtable yields them; the model assumes no particular order. Java `null`
is modelled as `None`.

Four behaviours of the code are easy to misread, and the model keeps them as written:

- With the file absent, `oldestVersion` is never assigned and stays `null`
  (VersionManager.java:66, 144-147); it is not set to the current version.
  `AbsentFileRegistry` states this.
- A key `test000` yields `"000"` through the stripping branch (VersionManager.java:130).
  That value takes part in the minimum and shares a map slot with the bare key
  `test`, so whichever of the two is read later supplies the class path of `"000"`
  (`CurrentClassPathLastRead`, `VersionOfCollision`); it is listed a second time
  when `test` is also present (`CurrentClassPathDependsOnOrder`). Read without `test`, it
  is listed once and gives `"000"` a class path (`Test000Alone`).
- The Javadoc of `loadProperties` (VersionManager.java:151-154) says `Properties.load`
  must not be used because it treats backslashes as escapes, yet line 158 calls it.
  Parsing is not part of this model, so nothing is claimed about backslashes.
- The Javadoc of `getClasspath` (VersionManager.java:83-85) says it returns null for a
  version that is not valid. The code returns null for any version without a map
  entry, so `getClasspath("000")` is null whenever neither `test` nor `test000` was
  read, although
  `"000"` is always valid. `GetClasspath` and `AbsentFileRegistry` follow the code.

## Model

| member | source | states |
|---|---|---|
| JavaStrings.StartsWith | geode-core/src/test/java/org/apache/geode/test/dunit/standalone/VersionManager.java:126 | defines `String.startsWith`: the first characters of the string are the prefix |
| VersionProperties.IsTestKey | geode-core/src/test/java/org/apache/geode/test/dunit/standalone/VersionManager.java:126 | defines the loop guard: the key starts with "test" and is at least four characters long |
| VersionProperties.Recorded | geode-core/src/test/java/org/apache/geode/test/dunit/standalone/VersionManager.java:124-136 | defines `testVersions` after the loop has read a run of entries: one version appended per "test"-prefixed key, in reading order |
| VersionProperties.ClassPaths | geode-core/src/test/java/org/apache/geode/test/dunit/standalone/VersionManager.java:124-135 | defines `classPaths` after the loop has read a run of entries: each "test"-prefixed key puts its value under its version, a later put overwriting an earlier one |
| VersionProperties.RunningMin | geode-core/src/test/java/org/apache/geode/test/dunit/standalone/VersionManager.java:120-133 | defines `oldver` after a run of entries: starts at "ZZZ" and takes each stripped version that `compareTo` puts below it |
| VersionProperties.Oldest | geode-core/src/test/java/org/apache/geode/test/dunit/standalone/VersionManager.java:139-143 | defines the `oldestVersion` assigned with the file present: "000" if `oldver` is still "ZZZ", otherwise `oldver` |
| VersionManagement.RemoveFirst | geode-core/src/test/java/org/apache/geode/test/dunit/standalone/VersionManager.java:100 | defines `List.remove(Object)`: drops the first element equal to the argument, if any |
| JavaStrings.CompareTo | geode-core/src/test/java/org/apache/geode/test/dunit/standalone/VersionManager.java:131 | `compareTo` is zero exactly for equal strings and negative when the first string is a proper prefix of the second |
| JavaStrings.CompareToAntisymmetric | geode-core/src/test/java/org/apache/geode/test/dunit/standalone/VersionManager.java:131 | swapping the operands of `compareTo` negates the result |
| JavaStrings.BelowIrreflexive | geode-core/src/test/java/org/apache/geode/test/dunit/standalone/VersionManager.java:131 | no string sorts strictly before itself |
| JavaStrings.BelowTotal | geode-core/src/test/java/org/apache/geode/test/dunit/standalone/VersionManager.java:131 | of two distinct strings exactly one sorts before the other |
| JavaStrings.BelowTransitive | geode-core/src/test/java/org/apache/geode/test/dunit/standalone/VersionManager.java:131 | the `compareTo < 0` order is transitive |
| JavaStrings.BelowIsLexicographic | geode-core/src/test/java/org/apache/geode/test/dunit/standalone/VersionManager.java:131 | `compareTo < 0` holds iff the first string is lexicographically smaller: smaller at the first difference, or a proper prefix |
| JavaStrings.LexLessAtHead | geode-core/src/test/java/org/apache/geode/test/dunit/standalone/VersionManager.java:131 | strings that differ in their first character are ordered by that character |
| JavaStrings.LexLessAfterHead | geode-core/src/test/java/org/apache/geode/test/dunit/standalone/VersionManager.java:131 | strings with a common first character are ordered by their tails |
| VersionProperties.VersionOf | geode-core/src/test/java/org/apache/geode/test/dunit/standalone/VersionManager.java:126-136 | an entry is recorded iff its key starts with "test"; for keys other than "test", "test" + version gives back the key; the version is "000" iff the key is "test" or "test000" |
| VersionProperties.Candidate | geode-core/src/test/java/org/apache/geode/test/dunit/standalone/VersionManager.java:127-133 | only "test"-prefixed keys other than the bare "test" offer a version to the minimum, and that version is the one recorded |
| VersionProperties.ProcessEntry | geode-core/src/test/java/org/apache/geode/test/dunit/standalone/VersionManager.java:124-137 | a key without the prefix changes neither the list, the map nor the minimum; a prefixed key appends exactly its version and puts its value under it; the bare "test" leaves the minimum alone |
| VersionProperties.RecordedAppend | geode-core/src/test/java/org/apache/geode/test/dunit/standalone/VersionManager.java:124-137 | versions are listed in reading order: two runs of entries list their versions one after the other |
| VersionProperties.RecordedCount | geode-core/src/test/java/org/apache/geode/test/dunit/standalone/VersionManager.java:126-137 | the length of `testVersions` equals the number of "test"-prefixed keys |
| VersionProperties.RecordedElements | geode-core/src/test/java/org/apache/geode/test/dunit/standalone/VersionManager.java:126-137 | a version is listed iff some entry's key yields it |
| VersionProperties.ClassPathKeys | geode-core/src/test/java/org/apache/geode/test/dunit/standalone/VersionManager.java:135-136 | the key set of `classPaths` equals the element set of `testVersions` |
| VersionProperties.ClassPathLastWins | geode-core/src/test/java/org/apache/geode/test/dunit/standalone/VersionManager.java:135 | a version is bound to the value of the last entry that yields it |
| VersionProperties.VersionOfCollision | geode-core/src/test/java/org/apache/geode/test/dunit/standalone/VersionManager.java:127-130 | two distinct prefixed keys yield the same version iff they are "test" and "test000" |
| VersionProperties.ClassPathOfKey | geode-core/src/test/java/org/apache/geode/test/dunit/standalone/VersionManager.java:130-135 | with distinct keys, a version other than "000" is bound to the value of its one entry |
| VersionProperties.ClassPathsOrderIndependent | geode-core/src/test/java/org/apache/geode/test/dunit/standalone/VersionManager.java:124-137 | reading the same distinct-keyed entries in another order gives the same key set and the same class path for every version but "000" |
| VersionProperties.CurrentClassPathDependsOnOrder | geode-core/src/test/java/org/apache/geode/test/dunit/standalone/VersionManager.java:127-136 | the two orders of the file {test=a, test000=b} give "000" the class paths "b" and "a", and each order lists "000" twice |
| VersionProperties.CurrentClassPathLastRead | geode-core/src/test/java/org/apache/geode/test/dunit/standalone/VersionManager.java:127-135 | in any file with distinct keys that holds both "test" and "test000", the class path of "000" is the value of whichever of the two is read later |
| VersionProperties.Test000Alone | geode-core/src/test/java/org/apache/geode/test/dunit/standalone/VersionManager.java:127-136 | in any file with distinct keys that holds "test000" and not "test", "000" is listed exactly once and bound to the "test000" entry's value |
| VersionProperties.RunningMinIsMinimum | geode-core/src/test/java/org/apache/geode/test/dunit/standalone/VersionManager.java:120-133 | `oldver` is "ZZZ" or a stripped version below "ZZZ", and no stripped version seen sorts before it |
| VersionProperties.OldestIsMinimum | geode-core/src/test/java/org/apache/geode/test/dunit/standalone/VersionManager.java:139-143 | the oldest version is "000" if no stripped version is below "ZZZ"; otherwise it is the least stripped version under `compareTo` |
| VersionProperties.NeverOldestAboveSeed | geode-core/src/test/java/org/apache/geode/test/dunit/standalone/VersionManager.java:131-143 | a stripped version at or above "ZZZ" (e.g. lower-case) never becomes the oldest |
| VersionProperties.CandidatesOfPermutation | geode-core/src/test/java/org/apache/geode/test/dunit/standalone/VersionManager.java:124 | reordering the entries does not change the set of stripped versions |
| VersionProperties.OldestOrderIndependent | geode-core/src/test/java/org/apache/geode/test/dunit/standalone/VersionManager.java:124-143 | the oldest version does not depend on the order in which the entries are read |
| VersionProperties.LexicographicOldest | geode-core/src/test/java/org/apache/geode/test/dunit/standalone/VersionManager.java:131 | with "test1.8.0" and "test1.10.0", the oldest is "1.10.0": the order is lexicographic, not numeric |
| VersionManagement.OldestAfterLoad | geode-core/src/test/java/org/apache/geode/test/dunit/standalone/VersionManager.java:139-147 | defines the `oldestVersion` findVersions leaves: null exactly when the file is absent, otherwise "000" or a version below "ZZZ" (the `Oldest` of the entries) |
| VersionManagement.LoadedConsistent | geode-core/src/test/java/org/apache/geode/test/dunit/standalone/VersionManager.java:120-147 | after loading or not finding the file, listed versions are exactly the keys of the map, and the oldest (once set) is "000" or a listed version below "ZZZ" before which no listed version but "000" sorts |
| VersionManagement.FirstIndex | geode-core/src/test/java/org/apache/geode/test/dunit/standalone/VersionManager.java:100 | the position `remove` finds holds x and no earlier position does |
| VersionManagement.RemoveFirstAbsent | geode-core/src/test/java/org/apache/geode/test/dunit/standalone/VersionManager.java:100 | removing an element that is not in the list leaves the list unchanged |
| VersionManagement.RemoveFirstCutsFirst | geode-core/src/test/java/org/apache/geode/test/dunit/standalone/VersionManager.java:100 | removing an element that is in the list cuts out only its first occurrence and keeps the rest in order |
| VersionManagement.RemoveFirstMultiset | geode-core/src/test/java/org/apache/geode/test/dunit/standalone/VersionManager.java:100 | removal takes one copy of the element out of the list's multiset and nothing else |
| VersionManagement.VersionManager.constructor | geode-core/src/test/java/org/apache/geode/test/dunit/standalone/VersionManager.java:62-66 | a new registry has an empty map, an empty list and a null oldest version |
| VersionManagement.VersionManager.FindVersions | geode-core/src/test/java/org/apache/geode/test/dunit/standalone/VersionManager.java:111-148 | on a new registry, the loop leaves the list, the map and the oldest version equal to `Recorded`, `ClassPaths` and `Oldest` of the entries; with the file absent all three stay unchanged, with the oldest still null |
| VersionManagement.VersionManager.IsValidVersion | geode-core/src/test/java/org/apache/geode/test/dunit/standalone/VersionManager.java:72-74 | a version is valid iff it is "000" or listed by `getVersions`; the current version is always valid |
| VersionManagement.VersionManager.IsCurrentVersion | geode-core/src/test/java/org/apache/geode/test/dunit/standalone/VersionManager.java:79-81 | static and stateless: true exactly for the version that the bare key "test" is recorded under |
| VersionManagement.VersionManager.GetClasspath | geode-core/src/test/java/org/apache/geode/test/dunit/standalone/VersionManager.java:87-89 | a class path exists iff the version is listed, and is the one the map holds; otherwise null |
| VersionManagement.VersionManager.GetVersions | geode-core/src/test/java/org/apache/geode/test/dunit/standalone/VersionManager.java:94-96 | returns exactly `testVersions`, whose elements are exactly the versions that have a class path |
| VersionManagement.VersionManager.GetVersionsWithoutCurrent | geode-core/src/test/java/org/apache/geode/test/dunit/standalone/VersionManager.java:98-102 | returns `testVersions` with only its first "000" removed, without changing `testVersions` |
| VersionManagement.VersionManager.GetOldestVersion | geode-core/src/test/java/org/apache/geode/test/dunit/standalone/VersionManager.java:107-109 | the oldest version, once set, is "000" or a version with a class path below "ZZZ" before which no listed version but "000" sorts |
| VersionManagement.VersionManagerStatics.constructor | geode-core/src/test/java/org/apache/geode/test/dunit/standalone/VersionManager.java:45 | the static `instance` starts out null |
| VersionManagement.VersionManagerStatics.Init | geode-core/src/test/java/org/apache/geode/test/dunit/standalone/VersionManager.java:47-50 | publishes a new registry loaded from the file |
| VersionManagement.VersionManagerStatics.GetInstance | geode-core/src/test/java/org/apache/geode/test/dunit/standalone/VersionManager.java:52-57 | the first call loads a fresh registry; every later call returns the same registry unchanged and ignores the file |
| VersionManagement.AbsentFileRegistry | geode-core/src/test/java/org/apache/geode/test/dunit/standalone/VersionManager.java:144-147 | with the file absent, only "000" is valid, nothing is listed or has a class path, and the oldest version is null |
| VersionManagement.ValidAfterLoad | geode-core/src/test/java/org/apache/geode/test/dunit/standalone/VersionManager.java:72-74 | after loading, a version is valid iff it is "000" or some entry's key yields it |
| VersionManagement.ClasspathAfterLoad | geode-core/src/test/java/org/apache/geode/test/dunit/standalone/VersionManager.java:87-89 | after loading distinct keys, the class path of a version other than "000" is the value of the key "test" + version |
| VersionManagement.TwoEntryFile | geode-core/src/test/java/org/apache/geode/test/dunit/standalone/VersionManager.java:120-143 | for `test=/path/current` and `test1.8.0=/path/old`: read as test, test1.8.0 the versions are ["000", "1.8.0"], read as test1.8.0, test they are ["1.8.0", "000"]; in both orders the list without current is ["1.8.0"], the oldest is "1.8.0", "1.8.0" has class path "/path/old" and "9.9.9" has none |

## Left out

- Locating the file (VersionManager.java:113-121): the two relative paths and `File.exists()` are file-system I/O. Only the two outcomes are modelled, as the `Option` parameter: present with these entries, or absent.
- `loadProperties` and `Properties.load` (VersionManager.java:155-164): parsing is library code. The model starts from the parsed entries and claims nothing about backslashes. The `IOException` to `RuntimeException` path is I/O error handling and is not modelled.
- Null arguments: `isValidVersion(null)` and `isCurrentVersion(null)` throw a `NullPointerException` (VersionManager.java:73, 80), while `getClasspath(null)` returns null because `HashMap` accepts a null key (VersionManager.java:88). A Dafny `string` cannot be null, so these cases are not modelled.
- A failed load: `init` publishes `instance` before `findVersions` runs (VersionManager.java:48-49), so if `loadProperties` throws (VersionManager.java:160), every later `getInstance` returns that partly built registry and never loads again. The model has no exception path; `FindVersions` always completes.
- Hashtable iteration order: the entries may come in any order. Order independence is proved where it holds, and its failure for "000" is exhibited.
- The two `System.out.println` messages (VersionManager.java:122, 145-146) and the `Host`/`VM` collaborators: output and an external harness.
- Thread safety of the unsynchronised lazy `getInstance`: concurrency is not modelled; calls are sequential.
- `JavaStrings.CompareTo`: a Dafny `char` is a Unicode scalar value and a Java `char` is a UTF-16 code unit. The two orders agree except between supplementary characters and characters in U+E000..U+FFFF, which this model does not distinguish. Java strings can also hold unpaired surrogates (for example from a `\uD800` escape read by `Properties.load`); a Dafny `char` cannot represent them, so such keys are outside the model.
- `VersionManagement.VersionManager.FindVersions`: requires a newly constructed registry. The source calls it only from `init`, right after `new VersionManager()`, so running it twice on one registry is not modelled.
- `VersionManagement.VersionManager.GetVersions`: `Collections.unmodifiableList` is a read-only view that shares storage with `testVersions`. A Dafny `seq` is an immutable value, so the view's aliasing is not captured.
