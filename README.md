# deployment-repository-diff, modelled in Dafny

deployment-repository-diff compares two Maven deployment repositories of the same project
version, one published by the Maven build and one by the Gradle build. It first resolves the
group directory (`org.springframework.ws`) under each root. It then compares, module by module:

- the file names of each version directory;
- each jar, classifier by classifier: its entry list and its manifest's main attributes;
- the dependencies its POM resolves to.

Finally it compares the entries of the documentation archives. Every list comparison (file
names, archive entries, dependencies) is an ordered multiset difference: an element on both
sides cancels one occurrence on the other side. A mismatch filter can suppress, per side, the
elements that are expected to differ. Manifests are compared as maps instead, with a three-way
result: keys only on the left, keys only on the right, and keys whose values differ.

The model is a set of Dafny modules, one per source class:

- `DiffUtils` holds the generic difference. `Cancel` is the cancelling pass and `DiffOf` applies
  the filter. `DiffLists` is the loop of `DiffUtils.diff`, proved equal to `DiffOf`.
  Lemmas state what the difference is:
  - its counts are the multiset differences, less the suppressed elements;
  - it keeps input order;
  - its two sides are filtered independently;
  - a filtered diff is the unfiltered diff with the suppressed elements removed;
  - with no filter, it reports "identical" exactly when the sides are permutations of each other.
- `PomDiffer` does the same for dependencies, which cancel when they are *similar*: equal after
  an unset `optional` flag is read as `false`. When every flag is set, it coincides with the
  generic difference.
- `JarDiffUtils` and `JarDiffer` compare manifests as maps. Every key is reported on exactly one
  of three lists, and a manifest diff is empty exactly when the two maps are equal. Comparing
  archives fails only when an archive or its manifest cannot be read.
- `ModuleDiffer` files jars by classifier. It writes out the `indexOf`/`substring` arithmetic of
  the source, including its out-of-range failure. It states, stage by stage, what a module
  comparison may end with.
- `DeploymentDiffer` pairs left modules with right modules by name. A left module without a
  counterpart is an error-level diff that lists its whole directory. Right-only modules are
  exactly the right names that no left module has.
- `Deployments` resolves the group directory segment by segment. With `unique` set, every
  segment must be the only entry of its parent. `Application` builds the Spring Web Services
  deployment with its four filters and runs the whole comparison.

The methods `ModuleDiffer.ModuleDiffer.Diff` and `DeploymentDiffer.DeploymentDiffer.DiffModules`
are specified by predicates named `IsOutcome`, and `Application.Run` by `IsRunOutcome`. These
predicates restate the method's stages one by one. For the two differs, what a caller can rely
on is stated by the lemmas about those predicates: `ModuleDiffer.ModuleDiffer.OutcomeFacts`,
`DeploymentDiffer.DeploymentDiffer.ModulesPairedByName`,
`DeploymentDiffer.DeploymentDiffer.RightOnlyNames` and
`DeploymentDiffer.DeploymentDiffer.MissingModulesAreErrors`.

The file system is an input snapshot (`FileSystems.FileSystem`): directory listings, the entries
of each archive, and each archive's manifest. Logging is modelled by the level each report is
logged at.

## Model

| member | source | states |
|---|---|---|
| MismatchFilters.Noop | src/main/java/net/nicoll/deployment/diff/MismatchFilter.java:5-17 | the no-op filter ignores no key on either side |
| DiffUtils.DiffLists | src/main/java/net/nicoll/deployment/diff/DiffUtils.java:8-22 | the loop that removes one right occurrence per left element, then filters both sides, computes `DiffOf` |
| DiffUtils.CancelRemainderCounts | src/main/java/net/nicoll/deployment/diff/DiffUtils.java:10-19 | what is left of the right side after cancelling is the multiset difference right minus left, whatever is ignored on the left |
| DiffUtils.CancelReportCounts | src/main/java/net/nicoll/deployment/diff/DiffUtils.java:10-19 | the left report holds each element (left minus right) times, and never an element ignored on the left |
| DiffUtils.DiffCounts | src/main/java/net/nicoll/deployment/diff/DiffUtils.java:8-22 | each side of the diff is the multiset difference of the inputs, with that side's ignored elements removed |
| DiffUtils.NoopDiffIsMultisetDifference | src/main/java/net/nicoll/deployment/diff/DiffUtils.java:8-22 | without a filter, the two sides are exactly the two multiset differences |
| DiffUtils.CancelSubsequences | src/main/java/net/nicoll/deployment/diff/DiffUtils.java:10-19 | cancelling keeps the order of both inputs (each result is a subsequence of its input) |
| DiffUtils.DiffPreservesOrder | src/main/java/net/nicoll/deployment/diff/DiffUtils.java:8-22 | both reported lists are subsequences of their inputs |
| DiffUtils.CancelReportsUnsuppressed | src/main/java/net/nicoll/deployment/diff/DiffUtils.java:16-17 | no element the left filter ignores is reported |
| DiffUtils.DiffRespectsFilter | src/main/java/net/nicoll/deployment/diff/DiffUtils.java:8-22 | no reported element is ignored by its side's filter |
| DiffUtils.CancelRightIndependent | src/main/java/net/nicoll/deployment/diff/DiffUtils.java:10-19 | the right remainder does not depend on the left filter |
| DiffUtils.CancelLeftExtensional | src/main/java/net/nicoll/deployment/diff/DiffUtils.java:10-19 | filters that agree on every key give the same left report |
| DiffUtils.FilterSidesIndependent | src/main/java/net/nicoll/deployment/diff/DiffUtils.java:8-22 | each side of the diff depends only on that side's filter predicate |
| DiffUtils.CancelThenSuppress | src/main/java/net/nicoll/deployment/diff/DiffUtils.java:10-19 | suppressing while cancelling equals cancelling unfiltered, then dropping the suppressed elements |
| DiffUtils.FilteredIsSuppressedNoop | src/main/java/net/nicoll/deployment/diff/DiffUtils.java:8-22 | a filtered diff is the no-op diff with each side's suppressed elements removed |
| DiffUtils.SameEntriesIffSameMultiset | src/main/java/net/nicoll/deployment/diff/DiffUtils.java:26-28 | without a filter, `hasSameEntries` holds exactly when the inputs are permutations of each other |
| DiffUtils.SelfDiffHasSameEntries | src/main/java/net/nicoll/deployment/diff/DiffUtils.java:8-28 | any list compared with itself has the same entries |
| DiffUtils.DiffSwapSymmetry | src/main/java/net/nicoll/deployment/diff/DiffUtils.java:8-22 | swapping the inputs swaps the two reports, element for element and in order |
| DiffUtils.DuplicateExample | src/main/java/net/nicoll/deployment/diff/DiffUtils.java:10-19 | a duplicated left element is reported once when the right side has it once |
| DiffUtils.Diff.HasSameEntries | src/main/java/net/nicoll/deployment/diff/DiffUtils.java:26-28 | a diff has the same entries exactly when both of its lists are empty |
| DiffUtils.CancelRemainderIsRemoveEach | src/main/java/net/nicoll/deployment/diff/DiffUtils.java:12-15 | what is left of the right side is the right list with one occurrence of each left element removed, left element by left element, whatever is ignored on the left |
| DiffUtils.CancelReportIsRemoveEach | src/main/java/net/nicoll/deployment/diff/DiffUtils.java:12-19 | with nothing ignored, the left report is the left list with one occurrence of each right element removed, right element by right element |
| Sequences.RemoveFirst | src/main/java/net/nicoll/deployment/diff/DiffUtils.java:13-14 | `List.remove(Object)` removes exactly one occurrence when there is one, and otherwise changes nothing |
| Sequences.RemoveFirstStep | src/main/java/net/nicoll/deployment/diff/DiffUtils.java:13-14 | a head that differs from the removed element stays in front of the rest |
| Sequences.RemoveFirstCutsAtFirst | src/main/java/net/nicoll/deployment/diff/DiffUtils.java:13-14 | the occurrence removed is the leftmost one: the list is cut around the first position holding the element |
| Sequences.RemoveFirstSubsequence | src/main/java/net/nicoll/deployment/diff/DiffUtils.java:13-14 | removing the first occurrence keeps the order of the rest |
| Sequences.RemoveEachFromEmpty | src/main/java/net/nicoll/deployment/diff/DiffUtils.java:12-15 | removing elements from an empty list leaves it empty |
| Sequences.RemoveFirstCommutes | src/main/java/net/nicoll/deployment/diff/DiffUtils.java:12-15 | removing the first occurrence of two elements gives the same list in either order |
| Sequences.RemoveEachPull | src/main/java/net/nicoll/deployment/diff/DiffUtils.java:12-15 | removing a list of elements one by one may start with any element of that list |
| Sequences.RemoveEachKeepsHead | src/main/java/net/nicoll/deployment/diff/DiffUtils.java:12-15 | a head element that is never removed stays the head |
| Sequences.Reject | src/main/java/net/nicoll/deployment/diff/DiffUtils.java:20 | the stream filter keeps exactly the elements not dropped |
| Sequences.RejectFacts | src/main/java/net/nicoll/deployment/diff/DiffUtils.java:20 | the filter keeps order, and its counts are the input's for kept elements and 0 otherwise |
| Sequences.RejectExtensional | src/main/java/net/nicoll/deployment/diff/DiffUtils.java:20 | predicates that agree on every key filter alike |
| Sequences.RejectNothing | src/main/java/net/nicoll/deployment/diff/DiffUtils.java:20 | a predicate that holds for no key leaves the list unchanged |
| Sequences.Filter | src/main/java/net/nicoll/deployment/diff/PathUtils.java:24-28 | `listPaths` keeps exactly the listed paths the predicate accepts |
| Sequences.FilterFacts | src/main/java/net/nicoll/deployment/diff/PathUtils.java:24-28 | the kept paths are in listing order, with the input's counts |
| Sequences.FilterExtensional | src/main/java/net/nicoll/deployment/diff/PathUtils.java:24-28 | predicates that agree on every path keep the same paths |
| Paths.Resolve | src/main/java/net/nicoll/deployment/diff/ModuleDiffer.java:31-32 | resolving a name appends it as the path's last segment and keeps the rest |
| Paths.FileNames | src/main/java/net/nicoll/deployment/diff/PathUtils.java:12-14 | `toFileNames` maps each path to its last segment, position by position |
| Paths.FileNameOfResolve | src/main/java/net/nicoll/deployment/diff/Deployment.java:56-60 | the file name of a resolved path is the resolved name |
| FileSystems.FileSystem.ListPaths | src/main/java/net/nicoll/deployment/diff/PathUtils.java:24-28 | fails exactly on a non-directory; otherwise yields exactly the children of the directory, resolved against it, that the predicate accepts |
| FileSystems.FileSystem.ListDirectoriesIn | src/main/java/net/nicoll/deployment/diff/PathUtils.java:16-18 | fails exactly on a non-directory; otherwise yields exactly the children of the directory, resolved against it, that are directories |
| FileSystems.FileSystem.ListFilesAndDirectoriesIn | src/main/java/net/nicoll/deployment/diff/PathUtils.java:20-22 | fails exactly on a non-directory; otherwise lists every child once, in listing order, resolved against the directory |
| FileSystems.FileSystem.Entries | src/main/java/net/nicoll/deployment/diff/JarDiffer.java:114-125 | reading an archive's entries fails exactly when the path is not an archive |
| FileSystems.FileSystem.ReadManifest | src/main/java/net/nicoll/deployment/diff/JarDiffUtils.java:60-76 | reading a manifest fails exactly when the archive or its manifest is missing |
| FileSystems.FindWithFileName | src/main/java/net/nicoll/deployment/diff/DeploymentDiffer.java:84-86 | finds a path with that file name, and none exactly when no path has it |
| Strings.IndexOf | src/main/java/net/nicoll/deployment/diff/ModuleDiffer.java:69-70 | `String.indexOf`: -1 exactly when absent, otherwise the first position of an occurrence |
| Strings.Split | src/main/java/net/nicoll/deployment/diff/Deployment.java:43 | `String.split` on one character: the whole string when the separator does not occur; otherwise no piece contains the separator and the last piece is not empty |
| Strings.JoinSplitAll | src/main/java/net/nicoll/deployment/diff/Deployment.java:43 | joining the pieces of a split gives back the string |
| Strings.SplitAllLast | src/main/java/net/nicoll/deployment/diff/Deployment.java:43 | the last piece is empty exactly when the string is empty or ends with the separator |
| Strings.SplitJoinRoundTrip | src/main/java/net/nicoll/deployment/diff/Deployment.java:43 | `String.split` loses nothing of a group id that does not end with a dot |
| Deployments.NewDeployment | src/main/java/net/nicoll/deployment/diff/Deployment.java:15-18 | a new deployment has no jar filter, no-op module and POM filters, and the given names, roots and version |
| Deployments.Deployment.JarMismatchFilter | src/main/java/net/nicoll/deployment/diff/Deployment.java:20-23 | the registered filter of a classifier, else the no-op filter |
| Deployments.Deployment.RegisterJarMismatchFilter | src/main/java/net/nicoll/deployment/diff/Deployment.java:25-30 | the classifier now maps to the filter; every other classifier and every other field is unchanged |
| Deployments.Deployment.SetModuleMismatchFilter | src/main/java/net/nicoll/deployment/diff/Deployment.java:32-35 | replaces the module filter and nothing else |
| Deployments.Deployment.SetPomMismatchFilter | src/main/java/net/nicoll/deployment/diff/Deployment.java:37-40 | replaces the POM filter and nothing else |
| Deployments.ResolveDirectory | src/main/java/net/nicoll/deployment/diff/Deployment.java:55-69 | succeeds exactly when the directory lists the name and, when `unique`, nothing else; the result is the resolved child; a missing name is `DirectoryNotFound` |
| Deployments.WalkDown | src/main/java/net/nicoll/deployment/diff/Deployment.java:44-47 | the segment loop of `resolveGroupId` computes the descent `Descend` |
| Deployments.Deployment.ResolveGroupId | src/main/java/net/nicoll/deployment/diff/Deployment.java:42-53 | resolves both sides' group directories, failing with the first failing resolution |
| Deployments.DescendStep | src/main/java/net/nicoll/deployment/diff/Deployment.java:44-47 | one loop turn: resolve the next segment, then descend from there |
| Deployments.ShiftedPrefixes | src/main/java/net/nicoll/deployment/diff/Deployment.java:44-47 | the directories seen after the first segment are the root extended by successive prefixes |
| Deployments.DescendFacts | src/main/java/net/nicoll/deployment/diff/Deployment.java:42-53 | a descent succeeds exactly when every intermediate directory resolves its next segment, and then ends at the root extended by all segments |
| Deployments.GroupDeploymentShape | src/main/java/net/nicoll/deployment/diff/GroupDeployment.java:5-25 | a resolved group deployment keeps the deployment's roots, names and version, and its group directories are the roots plus the group id's segments |
| PomDiffer.Normalised | src/main/java/net/nicoll/deployment/diff/PomDiffer.java:61-67 | reading an unset `optional` as `false` keeps whether a dependency is optional |
| PomDiffer.SimilarIffEqualNormalised | src/main/java/net/nicoll/deployment/diff/PomDiffer.java:61-74 | two dependencies are similar exactly when their normalised forms are equal; similarity is an equivalence, and equality when both flags are set |
| PomDiffer.FoundIn | src/main/java/net/nicoll/deployment/diff/PomDiffer.java:52-59 | finds a similar dependency of the list, and none exactly when no element is similar |
| PomDiffer.FoundInSetFlags | src/main/java/net/nicoll/deployment/diff/PomDiffer.java:52-59 | when every `optional` flag is set, the dependency found for a listed one is itself, and none is found for an unlisted one |
| PomDiffer.InScope | src/main/java/net/nicoll/deployment/diff/PomDiffer.java:76-81 | keeps exactly the dependencies whose scope is included |
| PomDiffer.PomDiffer.ResolveDependencies | src/main/java/net/nicoll/deployment/diff/PomDiffer.java:76-81 | resolution fails exactly when the resolver fails; otherwise the in-scope resolved dependencies |
| PomDiffer.PomDiffer.Diff | src/main/java/net/nicoll/deployment/diff/PomDiffer.java:33-50 | resolves both sides, then computes `PomDiffOf` with the differ's filter |
| PomDiffer.CancelSimilar | src/main/java/net/nicoll/deployment/diff/PomDiffer.java:39-47 | the cancelling loop computes `PomCancel` |
| PomDiffer.PomLoopStart | src/main/java/net/nicoll/deployment/diff/PomDiffer.java:37-38 | the loop invariant holds before the first turn |
| PomDiffer.PomLoopStep | src/main/java/net/nicoll/deployment/diff/PomDiffer.java:39-47 | each turn removes the found similar dependency, or reports the unsuppressed unmatched one |
| PomDiffer.PomLoopEnd | src/main/java/net/nicoll/deployment/diff/PomDiffer.java:39-48 | after the last turn the loop state is `PomCancel` |
| PomDiffer.PomCancelStep | src/main/java/net/nicoll/deployment/diff/PomDiffer.java:40-46 | one step of the cancelling recursion, as the loop body takes it |
| PomDiffer.NewPomDiffer | src/main/java/net/nicoll/deployment/diff/PomDiffer.java:29-31 | a differ over the given scopes with the deployment's POM filter |
| PomDiffer.NewDefaultPomDiffer | src/main/java/net/nicoll/deployment/diff/PomDiffer.java:23-27 | the default differ includes exactly the compile, compile+runtime and runtime scopes |
| PomDiffer.IsSimilarArtifact | src/main/java/net/nicoll/deployment/diff/PomDiffer.java:69-74 | two dependencies have a similar artifact exactly when they agree on everything but scope and `optional` |
| PomDiffer.IsSimilarDependency | src/main/java/net/nicoll/deployment/diff/PomDiffer.java:61-67 | two dependencies are similar exactly when they agree on everything but the `optional` field, and are optional alike once an unset flag reads as `false` |
| PomDiffer.PomDiff.HasSameEntries | src/main/java/net/nicoll/deployment/diff/PomDiffer.java:89-95 | a POM diff has the same entries exactly when both of its lists are empty |
| PomDiffer.PomCancelFacts | src/main/java/net/nicoll/deployment/diff/PomDiffer.java:39-47 | cancelling keeps order, reports no suppressed dependency, and no reported dependency is similar to one left on the right |
| PomDiffer.PomCancelCounts | src/main/java/net/nicoll/deployment/diff/PomDiffer.java:39-47 | each cancelled right dependency uses up one left dependency |
| PomDiffer.PomDiffFacts | src/main/java/net/nicoll/deployment/diff/PomDiffer.java:33-50 | the POM diff keeps order, respects both filters, and pairs no similar dependencies across its sides |
| PomDiffer.PomCancelThenSuppress | src/main/java/net/nicoll/deployment/diff/PomDiffer.java:39-47 | suppressing while cancelling equals cancelling unfiltered, then dropping the suppressed dependencies |
| PomDiffer.PomFilteredIsSuppressedNoop | src/main/java/net/nicoll/deployment/diff/PomDiffer.java:33-50 | a filtered POM diff is the no-op diff with each side's suppressed dependencies removed |
| PomDiffer.PomCancelIsCancel | src/main/java/net/nicoll/deployment/diff/PomDiffer.java:39-47 | when every `optional` flag is set, similarity cancelling is the generic cancelling |
| PomDiffer.PomDiffIsDiff | src/main/java/net/nicoll/deployment/diff/PomDiffer.java:33-50 | when every `optional` flag is set, the POM diff is the generic diff |
| PomDiffer.VersionDriftExample | src/main/java/net/nicoll/deployment/diff/PomDiffer.java:69-74 | a dependency whose version changed is reported on both sides |
| PomDiffer.UnsetOptionalExample | src/main/java/net/nicoll/deployment/diff/PomDiffer.java:61-67 | an unset `optional` matches an explicit `false` |
| JarDiffUtils.Mismatch | src/main/java/net/nicoll/deployment/diff/JarDiffUtils.java:91 | a value mismatch records the key and both values |
| JarDiffUtils.ValueMismatch.ToDescription | src/main/java/net/nicoll/deployment/diff/JarDiffUtils.java:91-96 | the description starts with the key in single quotes |
| JarDiffUtils.ManifestDiff.HasSameEntries | src/main/java/net/nicoll/deployment/diff/JarDiffUtils.java:87-89 | a manifest diff has the same entries exactly when its three lists are empty |
| JarDiffUtils.MismatchesAmongAdd | src/main/java/net/nicoll/deployment/diff/JarDiffUtils.java:44-53 | visiting one more left key adds its mismatch exactly when both sides have it with different values |
| JarDiffUtils.MismatchMember | src/main/java/net/nicoll/deployment/diff/JarDiffUtils.java:47-50 | every visited key with different values is reported as a mismatch |
| JarDiffUtils.DiffAttributes | src/main/java/net/nicoll/deployment/diff/JarDiffUtils.java:38-56 | the loop over the left attributes, which removes matched keys from the right copy, computes `ManifestDiffOf` |
| JarDiffUtils.ManifestLoopStep | src/main/java/net/nicoll/deployment/diff/JarDiffUtils.java:39-54 | each turn files its key on exactly one of the left-only list, the mismatches, or neither, and removes it from the right copy when the right has it |
| JarDiffUtils.DiffManifest | src/main/java/net/nicoll/deployment/diff/JarDiffUtils.java:31-58 | fails exactly when a manifest cannot be read (the left failure first); otherwise the attribute diff |
| JarDiffUtils.ManifestPartition | src/main/java/net/nicoll/deployment/diff/JarDiffUtils.java:31-58 | every key is on one list at most; left-only, right-only and mismatched keys are exactly those the maps disagree on |
| JarDiffUtils.SameEntriesIffEqual | src/main/java/net/nicoll/deployment/diff/JarDiffUtils.java:87-89 | a manifest diff has the same entries exactly when the two attribute maps are equal |
| JarDiffUtils.ThreeWayExample | src/main/java/net/nicoll/deployment/diff/JarDiffUtils.java:31-58 | one key mismatched, one only on the left and one only on the right are each filed once |
| JarDiffer.JarType | src/main/java/net/nicoll/deployment/diff/JarDiffer.java:42 | "main" exactly for the empty classifier, the quoted classifier otherwise |
| JarDiffer.MismatchMessage | src/main/java/net/nicoll/deployment/diff/JarDiffer.java:103-104 | the jar differ renders every value mismatch as the generic description behind the prefix "Value mismatch for " |
| JarDiffer.MismatchMessageIsDescription | src/main/java/net/nicoll/deployment/diff/JarDiffer.java:103-104 | the jar differ's mismatch message is the generic description behind a fixed prefix |
| JarDiffer.MessagesAreDescribedMismatches | src/main/java/net/nicoll/deployment/diff/JarDiffer.java:101-105 | every message of the jar differ renders one generic value mismatch |
| JarDiffer.DescribedMismatchesAreMessages | src/main/java/net/nicoll/deployment/diff/JarDiffer.java:101-105 | every generic value mismatch is rendered as one message of the jar differ |
| JarDiffer.MessagesMatchMismatches | src/main/java/net/nicoll/deployment/diff/JarDiffer.java:86-112 | the jar differ's manifest diff has the same key lists as the generic one and one message per generic mismatch |
| JarDiffer.JarReport.EntriesLevel | src/main/java/net/nicoll/deployment/diff/JarDiffer.java:45-61 | entry differences are logged as errors exactly when the entries differ |
| JarDiffer.JarReport.ManifestLevel | src/main/java/net/nicoll/deployment/diff/JarDiffer.java:62-83 | manifest differences are logged as errors exactly when the manifests differ |
| JarDiffer.JarDiffer.DiffManifest | src/main/java/net/nicoll/deployment/diff/JarDiffer.java:86-112 | fails exactly when a manifest cannot be read; otherwise the attribute diff with messages |
| JarDiffer.JarDiffer.Diff | src/main/java/net/nicoll/deployment/diff/JarDiffer.java:41-84 | compares the entries with the filter, then the manifests |
| JarDiffer.MismatchesNeverRaised | src/main/java/net/nicoll/deployment/diff/JarDiffer.java:41-84 | a readable pair of archives always yields a report: the filtered entry diff, and a manifest diff that is empty exactly when the manifests are equal |
| ModuleDiffs.MissingSideNotSame | src/main/java/net/nicoll/deployment/diff/ModuleDiff.java:9-12 | a module missing on one side never has the same entries |
| ModuleDiffs.ModuleDiff.HasSameEntries | src/main/java/net/nicoll/deployment/diff/ModuleDiff.java:9-12 | a module diff has the same entries exactly when the module is on both sides and its file lists and POM lists are all empty |
| ModuleDiffer.Classifier | src/main/java/net/nicoll/deployment/diff/ModuleDiffer.java:69-72 | fails exactly when the substring range is out of bounds; otherwise the text after the version and before ".jar", less a leading "-", or "" |
| ModuleDiffer.JarClassifier | src/main/java/net/nicoll/deployment/diff/ModuleDiffer.java:64-72 | a name not starting with the module name is an unexpected jar; otherwise its classifier |
| ModuleDiffer.GetJars | src/main/java/net/nicoll/deployment/diff/ModuleDiffer.java:60-76 | the listing loop computes `JarsOf` |
| ModuleDiffer.PutJarsSucceeds | src/main/java/net/nicoll/deployment/diff/ModuleDiffer.java:63-75 | filing succeeds exactly when every jar has a classifier |
| ModuleDiffer.PutJarsKeys | src/main/java/net/nicoll/deployment/diff/ModuleDiffer.java:63-75 | the map's classifiers are exactly the jars' classifiers, and every entry is named after the module |
| ModuleDiffer.PutJarsLastWins | src/main/java/net/nicoll/deployment/diff/ModuleDiffer.java:73 | a later jar with the same classifier replaces an earlier one |
| ModuleDiffer.PutJarsUntouched | src/main/java/net/nicoll/deployment/diff/ModuleDiffer.java:73 | a classifier no jar has keeps its entry |
| ModuleDiffer.PutJarsFirstFailure | src/main/java/net/nicoll/deployment/diff/ModuleDiffer.java:63-75 | the first jar without a classifier decides the failure |
| ModuleDiffer.WellFormedName | src/main/java/net/nicoll/deployment/diff/ModuleDiffer.java:64-72 | a name `module-version[-classifier].jar` is filed under its classifier |
| ModuleDiffer.MissingVersionIsNoFailure | src/main/java/net/nicoll/deployment/diff/ModuleDiffer.java:69-72 | a name without the version is not rejected: the classifier is read from position `length(version) - 1` |
| ModuleDiffer.MissingVersionExample | src/main/java/net/nicoll/deployment/diff/ModuleDiffer.java:69-72 | "a-c.jar" with version "12" is filed under classifier "c" |
| ModuleDiffer.ModuleDiffer.VersionDirectory | src/main/java/net/nicoll/deployment/diff/ModuleDiffer.java:31-32 | the version directory is the module directory plus the version |
| ModuleDiffer.ModuleDiffer.CheckJar | src/main/java/net/nicoll/deployment/diff/ModuleDiffer.java:40-48 | one loop turn computes `CheckOf`: compared with the classifier's filter when the right has it, otherwise missing |
| ModuleDiffer.ModuleDiffer.CompareJars | src/main/java/net/nicoll/deployment/diff/ModuleDiffer.java:39-49 | succeeds exactly when every left jar's check succeeds, then with one check per left classifier; otherwise fails with some failing check's error |
| ModuleDiffer.ModuleDiffer.Diff | src/main/java/net/nicoll/deployment/diff/ModuleDiffer.java:29-58 | the module comparison ends, stage by stage, as `IsOutcome` states |
| ModuleDiffer.ModuleDiffer.OutcomeFacts | src/main/java/net/nicoll/deployment/diff/ModuleDiffer.java:29-58 | a successful comparison is about this module; its file lists are the filtered diff of the version directories and its POM diff the default differ's; every left classifier was compared with the right jar of that classifier or found missing there |
| DeploymentDiffer.DeploymentReport.Levels | src/main/java/net/nicoll/deployment/diff/DeploymentDiffer.java:24-48 | one level per module diff: info exactly when the module has the same entries |
| DeploymentDiffer.RightOnly | src/main/java/net/nicoll/deployment/diff/DeploymentDiffer.java:74-77 | the right names no left module took, in right listing order |
| DeploymentDiffer.MissingModuleDiff | src/main/java/net/nicoll/deployment/diff/DeploymentDiffer.java:63-68 | a module missing on the right lists its whole directory as left-only and is never identical; fails when the directory cannot be listed |
| DeploymentDiffer.LogLevelOf | src/main/java/net/nicoll/deployment/diff/DeploymentDiffer.java:31-48 | a module diff is logged at info exactly when it has the same entries, otherwise at error |
| DeploymentDiffer.RightOnlyPartition | src/main/java/net/nicoll/deployment/diff/DeploymentDiffer.java:59-77 | a right name is right-only exactly when no module diff has that name |
| DeploymentDiffer.DeploymentDiffer.ModuleFor | src/main/java/net/nicoll/deployment/diff/DeploymentDiffer.java:60-62 | pairs a left module with the first right module, in listing order, that has its name, or with none exactly when no right module has it |
| DeploymentDiffer.DeploymentDiffer.DiffModule | src/main/java/net/nicoll/deployment/diff/DeploymentDiffer.java:60-72 | one loop turn: the missing-module diff, or the module differ's outcome |
| DeploymentDiffer.DeploymentDiffer.DiffEach | src/main/java/net/nicoll/deployment/diff/DeploymentDiffer.java:59-73 | one module diff per left module in listing order, or some module's failure; the processed names are the left names |
| DeploymentDiffer.DeploymentDiffer.DiffModules | src/main/java/net/nicoll/deployment/diff/DeploymentDiffer.java:50-82 | listing failures, then the loop's outcome, with the right-only names |
| DeploymentDiffer.DeploymentDiffer.Diff | src/main/java/net/nicoll/deployment/diff/DeploymentDiffer.java:24-29 | compares the modules, then yields each module diff's log level |
| DeploymentDiffer.DeploymentDiffer.ModuleOutcomeFacts | src/main/java/net/nicoll/deployment/diff/DeploymentDiffer.java:60-72 | a module diff is about the paired module, and a missing one lists its directory |
| DeploymentDiffer.DeploymentDiffer.ModulesPairedByName | src/main/java/net/nicoll/deployment/diff/DeploymentDiffer.java:50-73 | a successful comparison has one module diff per left module, in order, paired by name |
| DeploymentDiffer.DeploymentDiffer.RightOnlyNames | src/main/java/net/nicoll/deployment/diff/DeploymentDiffer.java:74-77 | right-only names are exactly the right names that no module diff has |
| DeploymentDiffer.DeploymentDiffer.MissingModulesAreErrors | src/main/java/net/nicoll/deployment/diff/DeploymentDiffer.java:63-68 | a left module with no right counterpart yields a diff listing its directory, logged at error level |
| Application.EndsWithAny | src/main/java/net/nicoll/deployment/diff/Application.java:108-116 | holds exactly when the key ends with one of the suffixes |
| Application.MainJarMismatchFilter | src/main/java/net/nicoll/deployment/diff/Application.java:65-77 | ignores exactly the `package-info.class` entries on the left, and nothing on the right |
| Application.JavadocJarMismatchFilter | src/main/java/net/nicoll/deployment/diff/Application.java:79-95 | ignores exactly the class-use and package-use pages on the left, and nothing on the right |
| Application.HasGradleOnlySuffix | src/main/java/net/nicoll/deployment/diff/Application.java:99-116 | holds exactly when the key ends with ".sha256", ".sha512", ".md5", ".module" or ".module.sha1" |
| Application.ModuleMismatchFilter | src/main/java/net/nicoll/deployment/diff/Application.java:97-118 | ignores nothing on the left, and exactly the Gradle-only metadata files on the right |
| Application.PomMismatchFilter | src/main/java/net/nicoll/deployment/diff/Application.java:120-135 | ignores exactly the dependencies whose `optional` flag is set to `true` on the left, and nothing on the right |
| Application.MainJarFilterEffect | src/main/java/net/nicoll/deployment/diff/Application.java:65-77 | the main jar filter drops `package-info.class` entries from the left report only |
| Application.JavadocFilterEffect | src/main/java/net/nicoll/deployment/diff/Application.java:79-95 | the javadoc filter drops class-use and package-use pages from the left report only |
| Application.ModuleFilterEffect | src/main/java/net/nicoll/deployment/diff/Application.java:97-118 | the module filter drops Gradle-only metadata files from the right report only |
| Application.PomFilterEffect | src/main/java/net/nicoll/deployment/diff/Application.java:120-135 | the POM filter drops optional dependencies from the left report only |
| Application.SpringWsDeployment | src/main/java/net/nicoll/deployment/diff/Application.java:37-41 | the "Maven"/"Gradle" deployment with the main and javadoc jar filters, the no-op filter for other classifiers, and the module and POM filters |
| Application.DocsZips | src/main/java/net/nicoll/deployment/diff/Application.java:46-53 | the two documentation archive paths |
| Application.RunReport.DocsLevel | src/main/java/net/nicoll/deployment/diff/Application.java:55-61 | the documentation mismatch is logged as an error exactly when the archives differ |
| Application.Run | src/main/java/net/nicoll/deployment/diff/Application.java:27-62 | a wrong argument count is a usage error; otherwise the run ends, stage by stage, as `IsRunOutcome` states |

## Left out

- I/O: listing directories, reading archive entries and reading manifests happen on an input snapshot, `FileSystems.FileSystem`. `Files.isDirectory` is membership of its listings. `JarUtils.java` (manifest parsing) is not part of this model.
- Logging: message text, the debug lines and `Diff.diffDescription` are not modelled. Each report is modelled by the level it is logged at.
- `MavenDependencyResolver.java` and `prepareLocalRepository` are not part of this model. Resolving a POM is the parameter `PomDiffer.Resolver`. It is given the side's root directly, in place of the temporary copy of it that `prepareLocalRepository` makes.
- `Paths.get` on a command-line argument is the parameter `toPath` of `Application.Run`.
- `Module.java` is not part of this model. A module is `ModuleDiffs.Module`, with its name and the optional path on each side. The field is called `mod` because `module` is a Dafny keyword.
- `ZipDiffer.java` reads an archive's entries and diffs them. It is inlined into `Application.Run` as `FileSystem.Entries` followed by `DiffUtils.DiffLists`.
- `HashMap` iteration order: manifest attributes and jars by classifier are maps. `ModuleDiffer.ModuleDiffer.CompareJars` therefore fails with *some* failing check, not a particular one. The manifest lists are sets, not lists in iteration order.
- `Attributes.Name` compares keys case-insensitively; manifest keys here are plain strings.
- The removal of matched entries from the left attribute copy (`it.remove()`) has no observable effect and is not modelled. The removal from the right copy is modelled.
- Exceptions, such as `IOException`, `IllegalStateException` and `StringIndexOutOfBoundsException`, are `Err` values of `Results.Result`. A failure stops the run, as an uncaught exception does.
- The source's types do not line up in five places. `Application.java:43` passes a `GroupDeployment` to `DeploymentDiffer(Deployment)`. `DeploymentDiffer.java:27` passes a `Deployment` to `ModuleDiffer(GroupDeployment, Module)`. `ModuleDiffer.java:43` passes a `GroupDeployment` to `JarDiffer(Deployment, ...)`. `DeploymentDiffer.java:66-67` calls a three-argument `ModuleDiff` constructor, but the record has four components. `Deployment` holds a filter over Maven-model dependencies (`org.apache.maven.model.Dependency`, `Deployment.java:9`, `:13`, `:37`), while `PomDiffer` stores it as a filter over Aether dependencies (`org.eclipse.aether.graph.Dependency`, `PomDiffer.java:11`, `:21`, `:26`) and `Application` passes an Aether-typed `PomMismatchFilter` to `setPomMismatchFilter` (`Application.java:10`, `:41`, `:120`). The model uses one `GroupDeployment` throughout: `DeploymentDiffer` and `ModuleDiffer` hold it, and `JarDiffer` takes its deployment. The missing-module diff carries an empty `PomDiff`. There is one `Dependencies.Dependency`, which stands for the Aether dependency that the resolver returns: its `optional` flag is a nullable `Boolean`, modelled as `Option<bool>`.
- `JarDiffer` and `JarDiffUtils` each declare a `ManifestDiff`. Both are `JarDiffUtils.ManifestDiff`, parameterised by the mismatch type: a formatted message for `JarDiffer`, a `ValueMismatch` for `JarDiffUtils`.
- ModuleDiffer.ModuleDiffer.Diff: requires both module paths to be present, since the source dereferences both. Its only caller, `DeploymentDiffer`, ensures this.
- `PomDiff` (`PomDiffer.java:89-95`) has only its two lists, of dependencies only on the left and only on the right; there is no list of dependency mismatches.
- No failure is caught: an exception thrown while resolving a directory (`Deployment.java:62-66`), filing a jar (`ModuleDiffer.java:67`) or reading the arguments (`Application.java:31`) ends the whole run. The model returns it as `Err`, and every later stage is skipped.
- A jar file name that does not contain the version is not rejected: `indexOf` gives -1 (`ModuleDiffer.java:69-72`). `ModuleDiffer.Classifier` computes the classifier from that position, as the code does (see `ModuleDiffer.MissingVersionExample`).
