# Verified model of zhi

zhi is a configuration platform written in Go. This project models its self-contained algorithms and state machines in
Dafny and proves what they are there for. `dafny verify dfyconfig.toml` checks all of it.

What is modelled, and the main result of each part:

* **Component manager** (`ComponentGraph`, `ComponentSteps`, `CycleDetection`, `ComponentPaths`, `Components`).
  Construction with Kahn's cycle detection and the path-overlap check, the two enable traversals, disable, the cascade,
  saved state, the tree filter. Construction succeeds exactly on unique, known, acyclic, non-overlapping definitions;
  enabling computes the least and cascading the greatest dependency-closed set; over every run all mandatory components
  stay enabled and no enabled component lacks a dependency.
* **Diff** (`LineDiff`, `Hunks`, `Patch`, `DiffExport`). The edit script is as short as any; applying the hunks gives
  exactly the new lines, and applying them backwards exactly the old ones; the geometry of hunks.
* **Air gap and mirror** (`Digests`, `OCILayout`, `Registry`, `AirgapExport`, `AirgapImport`, `MirrorServer`,
  `AirgapMirror`). An export that succeeds holds everything its artifacts refer to; import never leaves a tag without its
  blob; over every run of requests, tags are answered recently; and behind the air gap, with no upstream, every exported
  tag and everything it refers to is served as the upstream gave it.
* **Export and rollback** (`Paths`, `Disk`, `Rollback`, `ConfigTree`, `ExportRun`). Whatever an export does and however it
  ends, a rollback from a complete snapshot restores every file, and only a disk fault can keep it from doing so.
* **Nested data for templates** (`NestedValues`, `NestedMap`, `ExportData`). Nested maps built in place; flattening the
  nested map gives the flat map, and the listing order is immaterial, exactly if no path lies below another.
* **References** (`References`). Exactly which references survive parse and print, print and parse, an update of the
  version, and pinning to a digest.
* **Marketplace store** (`MarketData`, `MarketViews`, `Marketplace`). Over every run, names are unique and counters equal
  the number of download events; written data reads back the same; pages concatenate to the whole list; the weighted
  average lies between the plain mean and the prior.
* **Engine and UI controller** (`Engine`, `Controller`). Loading merges stored values into the provider's; unsaved edits
  survive every reload and every failed save.

`Strings` and `Wrappers` hold what all parts share. The parts of the program that update state step by step are methods
and classes here; each is proved against a specification on values, about which the lemmas then speak.

Inputs the program gets from outside are parameters: SHA-256 (a function from contents to well-formed digests), JSON and
template rendering, the answers of the upstream, of plugins and of the store, clock readings, new identifiers, sort
functions, and which disk operation fails. No function from all contents to digests is injective, so results that need
it name the contents that must not collide (`Digests.CollisionFree`): those that the run received, and those that were
there before.

Where the code and its comments or its documentation differ, the model follows the code:

* Import is said to reject an incomplete bundle atomically (`cmd/zhi-mirror/airgap/import.go:80-82`), but tags written
  before the missing blob is met stay (`AirgapImport.RejectedBundleLeavesTag`). What stays is exactly what tagging the
  artifacts before the first missing one gives, and none of it dangles (`AirgapImport.Import`); the rejection leaves the
  tags as they were if and only if that tagging says nothing new (`AirgapImport.UnchangedIffRetagged`).
* Import looks for an artifact's own digest only, so that a bundle without one of its layers is taken
  (`AirgapImport.BundleWithoutLayerIsImported`); what a tag refers to is complete exactly if store and bundle together held
  it (`AirgapImport.CompleteIffHeld`).
* Import and mirror also take a bare hexadecimal name for a digest, which then stands in the header of what is served
  (`AirgapMirror.BareDigestIsServedBare`); a cached blob is served under its digest exactly if its tag names a canonical one
  (`MirrorServer.HeaderIsDigestIffCanonical`).
* A reference by digest is said to be taken apart at its `@` (`cmd/zhi-mirror/airgap/export.go:151`), but the last colon is
  found within the digest (`AirgapExport.DigestRefIsMissplit`).
* The path that a pattern gives is joined to the workspace, and thereby cleaned, before it is checked for `..`: below an
  absolute workspace the check never refuses anything, wherever the path leads (`Paths.JoinMayLeave`). Results without
  `..` stay within the workspace (`ExportRun.ChildPathLeads`).
* An iterate prefix with a slash at its end finds children but loses all their values
  (`ConfigTree.TrailingSlashLosesValues`).
* The paths to snapshot are computed without the prefix of an iterate export, so that a pattern that looks at the child's
  listing can write where the snapshot did not look (`ExportRun.CountsMayDisagree`). For a given tree and configuration no
  pattern can if and only if the prefix is empty or every path of every child lies at or below it
  (`ExportRun.PathsAgreeIffPrefixCovers`); a pattern that looks at the key only never can (`ExportRun.KeyPatternsAgree`).
* Two contents that differ only in their final newline are reported as changed, without a hunk (`DiffExport.Compare`).
* An empty side of a hunk is numbered 1, not 0 as in the unified format of POSIX.1-2008, `diff`, "Diff -u or -U Output
  Format" (`Patch.StartsAreTrue`).
* The template data below a prefix that is itself a path is not empty: the value turns up under the whole path
  (`ExportData.PathItselfIsNested`). The empty prefix nests everything, but its flat form is empty
  (`ExportData.EmptyPrefixIsEmpty`).
* An edit made before the first load is marked unsaved, yet that load forgets it (`Controller.EditSurvivesIffLoaded`).

## Model

| member | source | states |
|---|---|---|
| ComponentGraph.AcyclicIffRanked | internal/core/component.go:90-130 | Among known dependencies, a graph is acyclic if and only if it has a rank that falls strictly along every dependency; this is what makes the later recursions end |
| ComponentGraph.TrappedSetIsCyclic | internal/core/component.go:118-129 | A non-empty set in which everything still waits for a member of the set contains a cycle: why a count below the total means a cycle |
| ComponentGraph.EnableFromClosed | internal/core/component.go:187-196 | From a dependency-closed state, what enabling leaves is the least closed superset that holds the name |
| ComponentGraph.EnableOutcomeUnique | internal/core/component.go:409-429 | Marking before and marking after the dependencies cannot end in different states |
| ComponentGraph.DisableFromClosed | internal/core/component.go:390-404 | From a closed state, a cascade leaves the greatest closed subset that avoids the name |
| ComponentGraph.DisableKeepsUnrelated | internal/core/component.go:390-404 | A cascade keeps everything that does not depend on the name |
| ComponentSteps.EnableAddsDependencies | internal/core/component.go:187-196 | Enabling adds nothing but the name and what it depends on |
| ComponentSteps.WalkFindsDependents | internal/core/component.go:372-388 | The visited-set walk over reversed dependencies finds exactly the transitive dependents |
| CycleDetection.BuildDegrees | internal/core/component.go:92-103 | The counters hold the number of dependency entries, duplicates included, and the inverted lists are the exact inverse with multiplicity |
| CycleDetection.ZeroDegrees | internal/core/component.go:105-111 | The queue starts as exactly the components without dependencies, each once, in any order |
| CycleDetection.WorkOff | internal/core/component.go:118-123 | Working off a visited component counts every dependent down once per entry and queues exactly those that wait for nothing more |
| CycleDetection.VisitRanks | internal/core/component.go:113-124 | A component visited with counter zero ranks above all its dependencies |
| CycleDetection.KahnVerdict | internal/core/component.go:126-129 | When the queue is empty, everything was visited if and only if the graph is acyclic |
| CycleDetection.DetectCycles | internal/core/component.go:91-130 | Accepts exactly the acyclic graphs, with duplicate and self dependencies allowed and for every seeding order |
| ComponentPaths.SharedPathOverlaps | internal/core/component.go:162-176 | Two prefixes whose segments both start one path overlap |
| ComponentPaths.PathHasPrefix | internal/core/component.go:168-176 | The text comparison holds exactly if the prefix is not empty and the path starts with all of its segments, a slash at its end aside |
| ComponentPaths.SegmentsAreWhole | internal/core/component.go:162-176 | "app" and "app/" match "app/host", neither matches "app-backend/host", and "app" and "app-backend" do not overlap |
| ComponentPaths.CheckOverlappingPaths | internal/core/component.go:134-158 | Passes if and only if no two components claim prefixes of which one starts, by whole segments, with the other; a reported clash is a real one of two components |
| ComponentPaths.AtMostOneOwner | internal/core/component.go:134-176 | After the check every path has at most one owning component |
| ComponentPaths.PathBelongsToComponent | internal/core/component.go:253-262 | Gives a component one of whose prefixes starts the path by whole segments, and none only if there is none |
| ComponentPaths.OwnerIgnoresOrder | internal/core/component.go:253-262 | The owner found does not depend on the order of the definitions |
| ComponentPaths.VisibleMonotone | internal/core/component.go:264-279 | Enabling more components never hides a path |
| Components.NewComponentManager | internal/core/component.go:36-88 | Each error occurs exactly in its case, in the order names, references, cycles, paths, and names a name that occurs twice; otherwise exactly the mandatory components and what they need start enabled |
| Components.IndexByName | internal/core/component.go:46-53 | Indexes the definitions, refusing exactly a repeated name, which it names |
| Components.FindUnknownDependency | internal/core/component.go:55-62 | Reports a dependency on an unknown component if and only if there is one |
| Components.ComponentManager.Start | internal/core/component.go:74-85 | The enabled set is the least closed set that holds every mandatory component |
| Components.ComponentManager.EnableMandatory | internal/core/component.go:78-85 | From all disabled, the loop ends in the least closed set that holds every mandatory component |
| Components.ComponentManager.EnableTransitive | internal/core/component.go:187-196 | Ends, on any graph, in the least set that adds the name and what the additions need |
| Components.ComponentManager.EnableReporting | internal/core/component.go:418-429 | Ends for acyclic graphs, in the same set; the report lists exactly the newly enabled components, once each, every one after the dependencies it needed |
| Components.ComponentManager.Enable | internal/core/component.go:179-185 | Fails exactly for unknown names; the state becomes the enable outcome |
| Components.ComponentManager.EnableWithReport | internal/core/component.go:409-416 | As Enable, with the report |
| Components.NextIsFunctional | internal/core/component.go:409-429 | Every operation's specification fixes the new state, so Enable and EnableWithReport agree in every state |
| Components.ComponentManager.Disable | internal/core/component.go:200-219 | Refuses exactly unknown and mandatory components and those an enabled one lists, each with its own error, the last naming such a dependent; else only this flag changes |
| Components.ComponentManager.Walk | internal/core/component.go:372-388 | The recursion adds exactly the dependents not visited yet, and ends on any graph |
| Components.ComponentManager.TransitiveDependents | internal/core/component.go:372-388 | The ascending list of exactly the components that depend on the name, directly or not |
| Components.ComponentManager.DisableCascadeRecursive | internal/core/component.go:390-404 | Leaves the greatest set without the name in which nothing lost its dependency; the report lists exactly what was disabled, dependents before what they depend on |
| Components.ComponentManager.CascadeInto | internal/core/component.go:390-404 | One component of the cascade: disabled with all that depends on it exactly if it lists the name, and reported after them |
| Components.ComponentManager.DisableCascade | internal/core/component.go:348-368 | For a known component, fails, changing nothing, exactly when it or a transitive dependent is mandatory, with the error of its case |
| Components.ComponentManager.ValidateDependencies | internal/core/component.go:283-296 | Lists exactly the enabled components with a disabled dependency; empty if and only if the state is closed |
| Components.ComponentManager.LoadState | internal/core/component.go:301-311 | Known names take the saved flag, mandatory ones stay enabled, names that were not saved keep their flag, unknown names are ignored, in any map order |
| Components.ComponentManager.FilterTree | internal/core/component.go:266-279 | Keeps, with its value, exactly every path for which all components are enabled that have a prefix starting it by whole segments |
| Components.LoadSavedIsSafe | internal/core/component.go:301-319 | Loading a saved safe state gives exactly that state back |
| Components.StepIsSafe | internal/core/component.go:179-219 | Every operation keeps mandatory components enabled and the enabled set closed |
| Components.RunsAreSafe | internal/core/component.go:74-88 | The same over every run of every length, loads of maps saved in reachable states included |
| LineDiff.LcsMatrix | internal/core/diff.go:235-253 | Entry i, j is the recurrence's value for the first i and j lines |
| LineDiff.LcsBounds | internal/core/diff.go:235-253 | No common subsequence is longer than the table says |
| LineDiff.Backtrack | internal/core/diff.go:256-273 | Builds the script read off the table, matches first, insertions before deletions on a tie |
| LineDiff.ScriptLeads | internal/core/diff.go:256-273 | The script starts from the old lines, ends with the new ones, and keeps as many lines as the table's corner says |
| LineDiff.KeptIsCommon | internal/core/diff.go:256-273 | What any script keeps is a common subsequence, and fixes how many changes it makes |
| LineDiff.ScriptIsOptimal | internal/core/diff.go:235-273 | No script between the texts makes fewer changes or keeps more lines, although matches are taken greedily |
| LineDiff.UnchangedIffEqual | internal/core/diff.go:256-273 | The script changes nothing if and only if the texts are equal |
| LineDiff.RemovalsFirst | internal/core/diff.go:256-273 | No insertion is directly followed by a removal: where lines are replaced, the removed ones come first |
| Hunks.NumberEdits | internal/core/diff.go:112-127 | Every edit carries its true 1-based line numbers, 0 on the side it does not touch |
| Hunks.FindEnd | internal/core/diff.go:145-167 | The hunk ends after the last change before a run of more than twice the context, with the context that is there |
| Hunks.HunkHeader | internal/core/diff.go:169-216 | The counts are those of the body's lines, the starts the true line numbers, or 1 for an empty side |
| Hunks.HunkBody | internal/core/diff.go:218-222 | The body is the hunk's slice of the script |
| Hunks.ComputeHunks | internal/core/diff.go:95-227 | The hunks are laid out at exactly the runs of more than twice the context, and are the script's slices there with true headers |
| Patch.HunksAreDisjoint | internal/core/diff.go:129-226 | Hunks are in order, with at least one line left out between two of them |
| Patch.EachChangeInOneHunk | internal/core/diff.go:129-226 | Every change lies in exactly one hunk |
| Patch.NearChangesShareHunk | internal/core/diff.go:157-166 | Changes with at most twice the context between them share a hunk |
| Patch.FarChangesSplit | internal/core/diff.go:157-164 | Changes with a longer unchanged run between them do not |
| Patch.ContextIsBounded | internal/core/diff.go:139-167 | At most the context on each side, fewer only at the ends of the file |
| Patch.StartsAreTrue | internal/core/diff.go:169-216 | With some context the printed starts are the true positions even when a side is empty |
| Patch.HunksApply | internal/core/diff.go:95-227 | A patch program that checks positions, counts and old lines accepts the hunks and produces exactly the new lines, for all texts |
| Patch.HunksApplyBackwards | internal/core/diff.go:95-227 | Reversed, they give exactly the old lines back |
| Patch.NoHunksIffEqual | internal/core/diff.go:129-226 | There are no hunks if and only if the line lists are equal |
| Patch.ZeroContextMisplaces | internal/core/diff.go:186-213 | Without context the program's own script for one appended line gives a hunk that is rejected: the results above need at least one context line or the condition below |
| Patch.HunksApplyIffInPlace | internal/core/diff.go:95-227 | With any amount of context, the hunks give the new lines if and only if every hunk without old lines stands before the first old line |
| DiffExport.LinesRoundTrip | internal/core/diff.go:70-79 | The lines hold no newline, and joined with newlines give the content back, with a final newline if it had none |
| DiffExport.SameLines | internal/core/diff.go:70-79 | Two contents have the same lines if and only if they differ at most in the final newline |
| DiffExport.TerminatedAlike | internal/core/diff.go:70-79 | What is equal after termination is equal but for a final newline that one of the two lacks |
| DiffExport.DiffIsFaithful | internal/core/diff.go:84-91 | Forwards, backwards and emptiness of the hunks in terms of the two texts |
| DiffExport.Compare | internal/core/diff.go:23-92 | Fails only for an unreadable file; reports a change exactly for different contents; its hunks, with three lines of context, turn either text's lines into the other's, and there are none exactly for texts equal but for the final newline; a new file is one hunk of insertions |
| Digests.DigestOfHex | cmd/zhi-mirror/storage/oci_layout.go:262-289 | A 64-digit lower-case hexadecimal name is the file of exactly one canonical digest |
| Digests.CanonicalForm | cmd/zhi-mirror/storage/oci_layout.go:262-289 | A canonical digest is "sha256:" and 64 characters out of 0-9 and a-f |
| OCILayout.PlainTagIsItsFile | cmd/zhi-mirror/storage/oci_layout.go:345-349 | A tag keeps its name as a file if and only if it has no character that sanitizing replaces |
| OCILayout.TagsShareFile | cmd/zhi-mirror/storage/oci_layout.go:345-349 | Two tags of a repository share a file if and only if they differ in ':', '/' and '_' only |
| OCILayout.Layout.GetBlob | cmd/zhi-mirror/storage/oci_layout.go:106-121 | Whatever is read back hashes to the digest asked for; malformed digests are not found |
| OCILayout.Layout.PutBlob | cmd/zhi-mirror/storage/oci_layout.go:125-141 | Stores under the digest of the bytes, never replaces a blob, and fails, changing nothing, only for a disk fault |
| OCILayout.Layout.DeleteBlob | cmd/zhi-mirror/storage/oci_layout.go:157-168 | Removes exactly that blob, and nothing for a malformed digest |
| OCILayout.Layout.PutTag | cmd/zhi-mirror/storage/oci_layout.go:171-192 | Replaces exactly one tag's entry, or nothing when the write fails |
| Registry.CompleteFromChildren | cmd/zhi-mirror/airgap/export.go:171-215 | What is stored with complete children is complete: the step of the recursive export |
| Registry.CompleteGrows | cmd/zhi-mirror/airgap/export.go:171-215 | Storing more blobs keeps what is complete complete |
| Registry.HostsEntry | cmd/zhi-mirror/airgap/export.go:223-232 | On a platform whose names hold no slash, an entry is the host's if and only if its operating system and architecture are the host's |
| Registry.HostImageIsThere | cmd/zhi-mirror/airgap/export.go:171-215 | What is complete holds the host's image of every index with all it refers to |
| AirgapExport.Exporter.FetchManifest | cmd/zhi-mirror/airgap/export.go:241-278 | Succeeds exactly if the answer is good; fails for another status, a well-formed declared digest that is not that of the bytes, and a digest asked for that is not |
| AirgapExport.Exporter.WriteBlob | cmd/zhi-mirror/airgap/export.go:312-322 | On success the bytes are under their digest and no file is lost; unless received contents collide, nothing stored before changed |
| AirgapExport.Exporter.FetchAndStoreBlob | cmd/zhi-mirror/airgap/export.go:282-307 | On success a verified blob is stored under the digest; it fails only if the upstream lacks it or for a disk fault |
| AirgapExport.Exporter.FetchAndStoreBlobs | cmd/zhi-mirror/airgap/export.go:202-215 | The same for config and layers |
| AirgapExport.Exporter.SelectPlatforms | cmd/zhi-mirror/airgap/export.go:219-237 | If all are wanted, all entries; else, if some entry has the host's operating system and architecture, exactly those; else all |
| AirgapExport.Exporter.ExportManifestTree | cmd/zhi-mirror/airgap/export.go:171-215 | Ends on any upstream; on success the digest is that of a good answer of the upstream, and, unless received contents collide, everything reachable from the manifest is stored under its hash; it fails only if something reachable is not available within the depth bound, or for a disk fault |
| AirgapExport.Exporter.ExportChildren | cmd/zhi-mirror/airgap/export.go:190-200 | On success everything the selected entries of an index refer to is stored, unless received contents collide; fails only if an entry is malformed or not available, or for a disk fault |
| AirgapExport.Exporter.ExportArtifact | cmd/zhi-mirror/airgap/export.go:150-165 | The same for one reference, which is split as its documentation says |
| AirgapExport.TagRefIsSplit | cmd/zhi-mirror/airgap/export.go:150-158 | A reference with a tag is split into repository and tag if and only if the tag has neither ':' nor '@' |
| AirgapExport.BareRefIsLatest | cmd/zhi-mirror/airgap/export.go:150-158 | A reference without ':' is fetched as "latest" |
| AirgapExport.DigestRefIsMissplit | cmd/zhi-mirror/airgap/export.go:150-158 | A reference by digest is split at the colon within the digest |
| AirgapExport.Exporter.Export | cmd/zhi-mirror/airgap/export.go:55-117 | One entry per artifact, in order, each with the digest of what the upstream gave for that reference during the run, and its manifest in the bundle; unless received contents collide, the bundle holds all they refer to; fails only for no artifacts, one not available, or a disk fault |
| AirgapExport.EchoingDoesNotCollide | cmd/zhi-mirror/airgap/export.go:241-278 | A registry whose refusals echo the name asked for adds nothing to what can collide: only what it gives with status 200 is received |
| AirgapExport.EchoingIsAvailable | cmd/zhi-mirror/airgap/export.go:171-215 | Such a registry has exactly the same artifacts available |
| AirgapImport.ImportBlobs | cmd/zhi-mirror/airgap/import.go:50-78 | On success every blob file was intact and is in the store; a corrupt file is an error |
| AirgapImport.ImportTags | cmd/zhi-mirror/airgap/import.go:80-94 | On success exactly the tagged artifacts are tagged, in order; entries without repository, tag or digest change nothing; a missing blob is reported for the first artifact that lacks it, with exactly the artifacts before it tagged; no tag written lacks its blob, however it ends |
| AirgapImport.Import | cmd/zhi-mirror/airgap/import.go:23-97 | Without disk faults, succeeds exactly on intact bundles whose artifacts are present, and leaves exactly store and bundle together; a corrupt bundle leaves the tags as they were, and one with a missing blob leaves exactly the tags of the artifacts before it; on any outcome it loses no blob, stores nothing but the bundle's, and leaves no tag it wrote dangling |
| AirgapImport.UnchangedIffRetagged | cmd/zhi-mirror/airgap/import.go:80-94 | Tagging artifacts leaves the tags as they were if and only if the last artifact of every tag file finds its own entry there already: the exact condition for an atomic rejection |
| AirgapImport.UnchangedIffNoneTagged | cmd/zhi-mirror/airgap/import.go:80-94 | When all tags are older than the import, that is if and only if none of the artifacts has a tag |
| AirgapImport.RejectedBundleLeavesTag | cmd/zhi-mirror/airgap/import.go:80-94 | A bundle whose second artifact lacks its blob is rejected and leaves the tag of the first |
| AirgapImport.CompleteIffHeld | cmd/zhi-mirror/airgap/import.go:50-94 | After an import, all that a tag refers to is there if and only if store and bundle together held it |
| AirgapImport.BundleWithoutLayerIsImported | cmd/zhi-mirror/airgap/import.go:80-94 | A bundle of one manifest without its layer passes every check, and is not complete |
| AirgapImport.SidesAgree | cmd/zhi-mirror/airgap/import.go:101-106 | For a tagged reference export and import split alike |
| AirgapImport.ExportedIsImportable | cmd/zhi-mirror/airgap/export.go:55-117 | An exported bundle passes every check of Import |
| AirgapImport.LastTagWins | cmd/zhi-mirror/airgap/import.go:83-94 | The last artifact tagged in a file has its own digest there |
| AirgapImport.RoundTrip | cmd/zhi-mirror/airgap/import.go:57-106 | After export and import the tag of every artifact that is the last one tagged in its file resolves to the exported digest, and everything reachable from it reads back as the same bytes |
| AirgapImport.ExportThenImport | cmd/zhi-mirror/airgap/import.go:23-97 | Both sides run one after the other: unless something is not available or a disk fails, every artifact's tag, where no later artifact takes it, resolves in the target store to the digest of what the upstream gave for that reference during the run; unless contents received or stored before collide, its bytes are those the upstream gave, with all it refers to carried over; no other tag changes |
| MirrorServer.Handler.FetchManifestFromUpstream | cmd/zhi-mirror/server/oci.go:242-277 | Gives the bytes and the digest the upstream declares, or that of the bytes; from an upstream that can be trusted they match, and for a digest reference it is that digest |
| MirrorServer.Handler.ResolveTag | cmd/zhi-mirror/server/oci.go:82-124 | The cached digest while it is younger than the TTL, else the one the upstream declares or that of its bytes, else the cached one, for any store; a newly resolved tag and its blob are cached unless the disk fails |
| MirrorServer.Handler.ServeManifest | cmd/zhi-mirror/server/oci.go:126-157 | The cached blob of the digest, else the upstream's answer for it, else not found; the first always, the second from an upstream that can be trusted, hashes to a canonical digest |
| MirrorServer.Handler.HandleManifest | cmd/zhi-mirror/server/oci.go:56-157 | A denied repository, or one with an empty, "." or ".." segment, is refused and changes nothing, with 403 or 400; what may be asked for is refused only as not found. The header names the digest asked for or the tag's resolution; the body is the cached blob of it, or else the upstream's answer; from an upstream that can be trusted, and with canonical tags, it hashes to the header |
| MirrorServer.Handler.HandleBlob | cmd/zhi-mirror/server/oci.go:160-210 | A denied or malformed repository and a malformed digest are refused, with 403 or 400, and change nothing; else the cached blob, else the upstream's answer, else not found |
| MirrorServer.PermittedIsNotRejected | cmd/zhi-mirror/server/oci.go:56-80 | The checks before store and upstream let through exactly what can be named and is not denied |
| MirrorServer.TagAnswersAreRecent | cmd/zhi-mirror/server/oci.go:82-124 | A tag is answered with upstream's binding now, one it gave before now and less than the TTL ago, or an earlier one only when upstream fails now; where the store was seeded, also with the seeded one within the TTL or when upstream fails |
| MirrorServer.StepAccounted | cmd/zhi-mirror/server/oci.go:82-124 | With a clock that does not run backwards, every cached tag stays one the store was seeded with or a binding that upstream gave at the moment it was cached, not later than now |
| MirrorServer.HeaderIsDigestIffCanonical | cmd/zhi-mirror/server/oci.go:126-157 | A cached blob is served under its own digest if and only if it was named by a canonical one |
| MirrorServer.ServedIsUpstreams | cmd/zhi-mirror/server/oci.go:126-142 | Content served for a digest is upstream's content for it |
| AirgapMirror.ServePulls | cmd/zhi-mirror/server/oci.go:56-210 | Over any run of requests from any store, no blob is lost, nothing of a denied repository is served, and what may be asked for is refused only as not found; from an upstream that can be trusted, what is served hashes to its header and every tag's answer is recent; while upstream gives nothing, the store stays as it is and every answer is the store's |
| AirgapMirror.CrossAirGap | cmd/zhi-mirror/airgap/import.go:23-97 | Export, import, and any run of requests to a mirror without upstream: every permitted request for an exported tag is served with the digest the upstream gave for it, and, unless contents collide, with its bytes; so is every permitted request for anything it refers to |
| AirgapMirror.BareDigestIsServedBare | cmd/zhi-mirror/airgap/import.go:80-94 | A bundle that names its artifact by the bare hexadecimal name is imported, and served with a header that is not the digest |
| Disk.DigitsValue | internal/core/rollback.go:58 | Decimal indexes are read back unchanged, so they keep backup names apart |
| Disk.BackupNamesDiffer | internal/core/rollback.go:56-59 | Backups of different list positions never share a name, nor one with the manifest |
| Disk.BackupNameIsOneName | internal/core/rollback.go:56-59 | A backup name is a single path element, so that it stays in the rollback directory |
| Disk.RollbackDirIsInside | internal/core/rollback.go:36-38 | The rollback directory lies directly in the workspace |
| Paths.JoinedIsWithin | internal/core/export.go:171-173 | A path without ".." lies, joined to a directory and cleaned, within it |
| Paths.JoinOfClean | internal/core/export.go:171-173 | Clean paths are joined by a slash |
| Paths.CleanTraversal | internal/core/export.go:636-643 | A clean path has a ".." segment if and only if it leads above where it starts, which an absolute path never does |
| Paths.JoinMayLeave | internal/core/export.go:171-173 | ".." in a pattern's result leads out of an absolute workspace, and after joining there is no ".." left to be refused |
| ConfigTree.SegmentForm | pkg/zhiplugin/config/config.go:15-33 | A path segment is made of a-z, 0-9, ".", "_" and "-", starts with a letter and ends in a letter or digit |
| Rollback.PlainDirIsSound | internal/core/rollback.go:56-59 | Where clean paths are their own files and a directory holds what lies within it, every directory keeps manifest and backups apart, as the snapshot needs |
| Disk.FileSystem.CopyFile | internal/core/rollback.go:135-172 | Copies the content, or leaves only the target damaged, for a missing source or a fault |
| Rollback.SaveRollbackSnapshot | internal/core/rollback.go:36-88 | Touches nothing outside its directory and leaves no file there that is not of this snapshot; on success the file system is recoverable to what it was; only a disk fault prevents it |
| Rollback.SnapshotRecords | internal/core/rollback.go:46-75 | A complete snapshot has exactly the listed paths but the empty one and "-" |
| Rollback.ListedWritesKeepRecoverable | internal/core/rollback.go:33-88 | Any writes confined to the listed paths, complete or not, keep it recoverable |
| Rollback.RestoreStep | internal/core/rollback.go:108-124 | Restoring one entry, even if it fails halfway, keeps the snapshot usable; duplicate paths do no harm |
| Rollback.AllRestored | internal/core/rollback.go:108-124 | When every entry was restored, every file outside the directory is as it was |
| Rollback.Rollback | internal/core/rollback.go:91-132 | From a recoverable state, restores content or absence of every listed path and touches no other file; it fails only for a disk fault, and can then be run again with the same result; after success the snapshot is gone unless the disk fails |
| ConfigTree.DirectChildren | internal/core/export.go:240-258 | In ascending order, exactly the segments that follow those of the prefix in some path, for any listing order |
| ConfigTree.MaterializeChildTree | internal/core/export.go:263-282 | Exactly the child's valid relative paths with their values |
| ConfigTree.ChildrenAreFaithful | internal/core/export.go:263-282 | Every value of a child's tree is the whole tree's value at the full path |
| ConfigTree.ChildrenPartition | internal/core/export.go:240-282 | Every path two or more segments below the prefix is found, with its value, in exactly one child's tree |
| ConfigTree.TrailingSlashLosesValues | internal/core/export.go:263-282 | For a prefix with a trailing slash every child's tree is empty |
| Strings.LeqIs | internal/core/export.go:257 | The order of keys is settled where two first differ, and a key comes after its prefixes |
| ExportRun.KeyPatternsAgree | internal/core/export.go:154-173 | The listed and the written paths agree for every pattern that looks at the key only, with any prefix |
| ExportRun.PathsAgreeIffPrefixCovers | internal/core/export.go:132-234 | For a tree and a configuration, the listed and the written paths agree for all patterns if and only if the prefix is empty or every path of every child lies at or below it |
| ExportRun.CountsAgreeIffPrefixCovers | internal/core/export.go:132-234 | A pattern that counts the listed paths agrees exactly under that condition, so that nothing weaker is enough |
| ExportRun.CountsMayDisagree | internal/core/export.go:200-234 | For such a pattern and a child with a path outside the prefix they differ |
| ExportRun.ListedBySegments | internal/core/export.go:424-440 | A prefix confines a tree to the paths that start with its segments |
| ExportRun.WriteExportFile | internal/core/export.go:636-708 | All or nothing, never through a traversal; fails only for one or a fault |
| ExportRun.Export | internal/core/export.go:65-127 | Without faults succeeds exactly on exportable configurations, with the rendered content, written to that path, unless it is empty or "-" or the run is dry, and nowhere else |
| ExportRun.ChildPathLeads | internal/core/export.go:164-173 | With a workspace, a pattern's result that is not absolute is taken from there and cleaned, and lies within the workspace if it has no ".."; any other is the path as it is |
| ExportRun.ExportChild | internal/core/export.go:152-198 | One child: succeeds exactly if it is exportable, apart from faults, with its rendered content at the path its pattern leads to and nowhere else |
| ExportRun.ExportIterate | internal/core/export.go:132-198 | The same with one result per child, in key order, each at the path its pattern leads to |
| ExportRun.IterateOutputPaths | internal/core/export.go:204-234 | For every child, in order, the path its pattern leads to without the prefix; fails exactly if one cannot be computed |
| ExportRun.OutputsOf | internal/core/export.go:339-355 | All file outputs of a configuration and nothing else |
| ExportRun.CollectOutputs | internal/core/export.go:330-356 | All outputs of all configurations that are not dry runs and nothing else, and the first workspace among them |
| ExportRun.FirstWorkspaceIs | internal/core/export.go:330-340 | The snapshot belongs to the first workspace of a configuration that is no dry run |
| ExportRun.RunExports | internal/core/export.go:364-380 | The results of every configuration finished, in order, also when a later one fails, and on success of all of them; on success the files are as after writing those that are not dry, in that order; only listed files change |
| ExportRun.IterateStaysListed | internal/core/export.go:323-356 | When the two path computations agree, an iterate export writes listed files only |
| ExportRun.ExportAll | internal/core/export.go:323-381 | Before any export the snapshot is taken of exactly the outputs; it is left out only if there are none, there is no workspace, an output path cannot be computed, or the disk fails; after it the file system stays recoverable however the exports end |
| ExportRun.ExportThenRollback | internal/core/export.go:357-380 | Under the same conditions, a rollback after a snapshotted export, complete or not, leaves every file outside the rollback directory as before the export |
| NestedMap.LinkShape | internal/core/export_data.go:141-151 | A new map hung in keeps the maps a tree in which every directory has one path |
| NestedMap.PutShape | internal/core/export_data.go:137-140 | A value put in place cuts off exactly the maps below it |
| NestedMap.SetNested | internal/core/export_data.go:135-154 | In place, sets the value at its path; values above and below it on the same line are gone, all others stay; no map is left without a value |
| NestedMap.LeavesArePrefixFree | internal/core/export_data.go:135-154 | A nested map never has a value below a value |
| NestedValues.SetAllMeaning | internal/core/export_data.go:101-132 | After any sequence of sets, a value is there exactly if nothing on its line was set after it |
| NestedValues.SetAllLines | internal/core/export_data.go:101-132 | Whatever is there does not lie on one another; if no two items do, all are there |
| NestedValues.SetBelow | internal/core/export_data.go:135-154 | Setting below a path is setting within the part below it |
| ExportData.All | internal/core/export_data.go:61-70 | The whole tree, for any listing order |
| ExportData.Prefix | internal/core/export_data.go:75-95 | In a valid tree, exactly the values below the prefix by the rest of their paths, and that of the prefix itself by its whole path, unless another's rest spells it |
| ExportData.Nested | internal/core/export_data.go:100-132 | The map built in place holds exactly the values left by setting the listed items in turn, and no empty map |
| ExportData.LeavesFrom | internal/core/export_data.go:100-132 | Every value of the nested map is that of a path that goes there |
| ExportData.LeavesKept | internal/core/export_data.go:100-132 | If no two paths go to places on one line, every path's value is there |
| ExportData.FlattenedIsAllIffPrefixFree | internal/core/export_data.go:59-132 | Flattening the nested map of the whole tree gives the flat map if and only if no path lies below another |
| ExportData.OrderIrrelevantIffPrefixFree | internal/core/export_data.go:100-132 | All listing orders give the same nested map if and only if no path lies below another |
| ExportData.SubtreeOfWhole | internal/core/export_data.go:97-132 | For a prefix with no path at it or above it, its nested map is the part below it of the whole nested map, for every tree and listing |
| ExportData.SubtreeOfPrefixFree | internal/core/export_data.go:97-132 | The same for any prefix that is no path, when no path lies below another |
| ExportData.SlashIsImmaterial | internal/core/export_data.go:105-111 | A slash at the end of such a prefix changes nothing |
| ExportData.FlattenedGroup | internal/core/export_data.go:72-132 | The nested map below a prefix, flattened, is the flat map below it |
| ExportData.PathItselfIsNested | internal/core/export_data.go:109-121 | A prefix that is itself a path nests its value under the whole path |
| ExportData.EmptyPrefixIsEmpty | internal/core/export_data.go:75-95 | The empty prefix has an empty flat map in every valid tree |
| References.ParseReference | pkg/sharing/client/ref.go:48-95 | The stepwise parser is the function that the results below are about, errors included |
| References.ParseRawMeaning | pkg/sharing/client/ref.go:56-94 | Whatever is parsed prints as the input up to a final bare ':' or '@'; host, repository, tag and digest have their shapes |
| References.PrintParsed | pkg/sharing/client/ref.go:21-95 | Printing an accepted reference gives it back without scheme if and only if it does not end in a bare '@', or in ':' without an '@' |
| References.ParsePrinted | pkg/sharing/client/ref.go:21-95 | Parsing a printed reference gives it back if and only if it is well formed |
| References.UpdateChangesOnlyTag | internal/cli/plugin_update.go:262-282 | On a well-formed reference, with or without scheme, an update changes the tag only if and only if the tag has no '/', the digest no '@', and the version neither ':' nor '@' |
| References.StripTagMeaning | internal/cli/workspace.go:426-438 | Stripping the tag leaves exactly host and repository |
| References.PinKeepsName | internal/cli/workspace.go:398-401 | Pinning an accepted reference to a digest keeps host and repository if and only if it does not carry the scheme twice |
| MarketData.AddVersionKeeps | cmd/zhi-marketplace/storage/sqlite.go:343-375 | A new version keeps versions, ids and counters consistent |
| MarketData.AddRatingKeeps | cmd/zhi-marketplace/storage/sqlite.go:415-441 | A submitted or resubmitted rating keeps one rating per user and artifact |
| MarketData.AddVoteKeeps | cmd/zhi-marketplace/storage/sqlite.go:481-500 | A vote keeps at least as many votes as voters, each voter once |
| MarketData.AddDownloadKeeps | cmd/zhi-marketplace/storage/sqlite.go:529-552 | A download keeps every counter equal to the number of its events |
| MarketData.AddArtifactKeeps | cmd/zhi-marketplace/storage/sqlite.go:183-209 | A new artifact keeps publisher, name and type unique |
| MarketData.DoKeeps | cmd/zhi-marketplace/server/handlers.go:305-413 | Every operation as the handlers issue it keeps the whole invariant |
| MarketData.RunsKeep | cmd/zhi-marketplace/storage/sqlite.go:139-552 | In every run, after every step, names, artifacts, versions and ratings are unique and every counter equals its events |
| MarketViews.SumIsEvents | cmd/zhi-marketplace/storage/sqlite.go:554-578 | True counters of different versions add up to the events of those versions |
| MarketViews.EventsAreCounted | cmd/zhi-marketplace/storage/sqlite.go:554-578 | The total counts the events of the versions, position by position |
| MarketViews.SearchTotalIsStats | cmd/zhi-marketplace/storage/sqlite.go:289-303 | The total in search equals the total of the download statistics |
| MarketViews.BayesIs | cmd/zhi-marketplace/storage/sqlite.go:502-527 | The weighted average is that of the scores and ten more of four each |
| MarketViews.BayesIsBetween | cmd/zhi-marketplace/storage/sqlite.go:502-527 | The weighted average lies between the plain mean and 4, strictly unless they agree |
| MarketViews.BayesIsAScore | cmd/zhi-marketplace/storage/sqlite.go:502-527 | For scores of one to five it is between one and five |
| MarketViews.ScoresAddUp | cmd/zhi-marketplace/storage/sqlite.go:513-523 | The distribution counts every rating once and adds up to the sum of scores |
| MarketViews.PagesConcatenate | cmd/zhi-marketplace/storage/sqlite.go:447-478 | Pages 1 to n are the list's first n times the page size elements |
| MarketViews.AllPages | cmd/zhi-marketplace/storage/sqlite.go:447-478 | Enough pages, one after the other, are the whole list |
| MarketViews.FirstPage | cmd/zhi-marketplace/storage/sqlite.go:447-478 | Any page number up to one gives the first page, of twenty where no size is asked for |
| MarketViews.PagesInOrder | cmd/zhi-marketplace/storage/sqlite.go:459-478 | In a sorted list, nothing on a later page should come before anything on an earlier one |
| MarketViews.ResultsOrdered | cmd/zhi-marketplace/storage/sqlite.go:318-331 | Results come by downloads, by name, or by last update, as asked for |
| MarketViews.LatestIsNewest | cmd/zhi-marketplace/storage/sqlite.go:289-303 | The version search shows for an artifact is one that no other was published after |
| MarketViews.FilingFlat | cmd/zhi-marketplace/storage/sqlite.go:82-87 | Filing the written records gives every artifact's list back, whatever order the maps were walked in |
| MarketViews.LoadWritten | cmd/zhi-marketplace/storage/sqlite.go:76-115 | Data written and loaded again is the same data |
| MarketViews.SearchAgreesWithStats | cmd/zhi-marketplace/storage/sqlite.go:289-313 | However versions are ordered, search shows the total of the statistics and the average of the rating page |
| Marketplace.Store.constructor | cmd/zhi-marketplace/storage/sqlite.go:57-89 | Files the written records one by one into the maps and lists |
| Marketplace.Store.Flush | cmd/zhi-marketplace/storage/sqlite.go:99-114 | Writes every record and list once, in some order of the maps |
| Marketplace.Store.CreatePublisher | cmd/zhi-marketplace/storage/sqlite.go:139-158 | Refused, changing nothing, exactly if the name is taken |
| Marketplace.Store.GetPublisher | cmd/zhi-marketplace/storage/sqlite.go:160-170 | Finds a publisher of that name exactly if there is one |
| Marketplace.Store.CreateArtifact | cmd/zhi-marketplace/storage/sqlite.go:183-209 | Refused, changing nothing, exactly if the id or the publisher's name and type is taken; filed as given, last updated when created, with its publisher's name |
| Marketplace.Store.GetArtifact | cmd/zhi-marketplace/storage/sqlite.go:211-236 | With a type, the one artifact of that publisher, name and type; nothing only if there is none |
| Marketplace.Store.CreateVersion | cmd/zhi-marketplace/storage/sqlite.go:343-375 | Refused, changing nothing, exactly if the version or the given id is taken; appended to the artifact's versions, which counts as its update |
| Marketplace.Store.CreateOrUpdateRating | cmd/zhi-marketplace/storage/sqlite.go:415-441 | The rating as given now takes the place of the user's first one, keeping its creation time and votes, or is appended; all others stay |
| Marketplace.Store.IncrementHelpful | cmd/zhi-marketplace/storage/sqlite.go:481-500 | Counts a voter once; refuses a second vote and an unknown rating, changing nothing |
| Marketplace.Store.RecordDownload | cmd/zhi-marketplace/storage/sqlite.go:529-552 | Appends the event and counts it at the first version of that id in each list; all else stays |
| Marketplace.Store.GetDownloadStats | cmd/zhi-marketplace/storage/sqlite.go:554-578 | The number of events of the artifact's versions, in all and after a time |
| Marketplace.Store.GetRatingAggregation | cmd/zhi-marketplace/storage/sqlite.go:507-527 | The average of the scores and ten more of four each, the number of ratings, and for every score the number of ratings with it |
| Marketplace.Store.ListRatings | cmd/zhi-marketplace/storage/sqlite.go:443-479 | A page, in the order asked for, of the ratings sorted by votes or by creation time, and their number |
| Marketplace.Store.Matches | cmd/zhi-marketplace/storage/sqlite.go:258-316 | One aggregate for each matching artifact that is not deprecated, in some order of the map |
| Marketplace.Store.Search | cmd/zhi-marketplace/storage/sqlite.go:247-341 | A page, in the order asked for, of the results, one for each matching artifact that is not deprecated, sorted by downloads, name or update, each with a newest version, and how many match |
| Engine.LoadStoredTree | internal/core/engine.go:261-305 | Every stored value, retyped; fails exactly for an invalid path |
| Engine.LoadTree | internal/core/engine.go:111-173 | Succeeds exactly if provider and store both answer, so that a failing store is never taken for an empty one; has exactly the provider's paths, each with the stored value where it has the provider's type or can be converted to it, else with the provider's |
| Engine.Overlay | internal/core/engine.go:143-169 | Path by path in any order: the stored value where it has the provider's type or can be converted to it, else the provider's |
| Engine.StoreOnlyChangesVals | internal/core/engine.go:143-169 | A merge adds and loses no path and changes no type or metadata; each value is the provider's, the stored one, or its conversion |
| Engine.TransformForSave | internal/core/engine.go:189-197 | Each transform gets what the one before it left, up to the first that fails, and what that left is the result |
| Controller.UIController.LoadTree | internal/ui/driver.go:72-94 | Cached values that are not saved yet stay; any other path is there exactly if it was loaded, as loaded; a failed load changes nothing |
| Controller.UIController.SetValue | internal/ui/driver.go:128-145 | A refused value changes nothing; an accepted one is cached and marked unsaved |
| Controller.UIController.SaveTree | internal/ui/driver.go:164-181 | Only a save that the store took clears the marks; the tree stays cached as the transforms left it, also when one of them fails |
| Controller.EditsSurvive | internal/ui/driver.go:72-181 | Over every run from a loaded tree, the cache holds the last unsaved value of every edited path, and exactly those paths are marked |
| Controller.CacheIsLatest | internal/ui/driver.go:72-181 | Over every run from a loaded tree, the cache is the tree loaded or saved last with the unsaved values over it |
| Controller.EditSurvivesIffLoaded | internal/ui/driver.go:82-93 | An edit survives the next load if and only if a tree was cached when it was made, or the load brings the same value |
| Controller.SavedEditReloads | internal/core/engine.go:144-169 | A saved edit is loaded again, with the provider's metadata, if the provider still has the path with that type |

## Left out

- HTTP plumbing, HEAD requests, headers other than the digest, path parsing of requests, audit and policy files: routing
  around the modelled handlers; a policy is a parameter that refuses repositories.
- Tar, gzip, JSON, templates, formats, ACLs, file modes, symbolic links, directories and temporary files: archives are
  their file maps, rendering is a parameter, and a write is one step that may fail.
- Symbolic links, and repository names as file names: a path is resolved by a parameter, so that different spellings may
  name one file; repositories are compared as written. Paths are those of Unix.
- Locks: every method and every request is one step.
- Integer widths: counters, sizes and page numbers are unbounded, so a page number that overflows a 64-bit product is not
  modelled.
- The text of diffs: a hunk is a record of its header's numbers and its body's edits.
- AirgapImport.RoundTrip: promises no tag for references without a tag, which export fetches as `latest` and import skips,
  nor for an artifact whose tag file a later one takes.
- NestedMap.SetNested: takes values to be opaque; a configuration value that is itself a map, above the path of another
  value, is entered and changed by the program.
- ExportRun.PathsAgreeIffPrefixCovers: lets a pattern see the values and the set of listed paths, not the order in which a
  map is walked.
- MarketViews.BayesIsBetween: averages are exact reals where the program computes with 64-bit floating point.
- MarketViews.BayesIsAScore: exact reals likewise.
- Marketplace.Store.GetRatingAggregation: exact reals likewise.
- OCILayout.Layout.GetBlob: does not model read errors of files that exist.
- MirrorServer.TagAnswersAreRecent: speaks of the tag's file name for tags outside the grammar of the OCI Distribution
  Specification, because such tags may share a file.
- Components.RunsAreSafe: does not cover loading arbitrary maps, which can leave an enabled component without a dependency.
- Rollback.SaveRollbackSnapshot: promises its result for listed paths that name files outside the rollback directory; a path
  that names a directory is not modelled.
- MarketData.AddVoteKeeps: keeps votes at least as many as voters, not equal, because a resubmitted rating keeps its votes and
  starts a new list of voters.
- Marketplace.Store.constructor: records are values in maps, so a caller that keeps a reference to a stored record is not
  modelled; advisories, platforms, comments and text search are left out as plain data; a failed write of the file is not
  modelled.
- Marketplace.Store.Search: sort functions are parameters that sort by the given order; `sort.Slice` is not stable, so no
  order among equals is claimed.
- Controller.EditsSurvive: takes save transforms to leave edited paths alone.
- Engine.LoadTree: the numeric and semantic conversions are parameters.
- Plugin processes, gRPC, sessions, discovery, terminal and web interfaces, apply, signatures and advisories: foreign calls
  or short branches that add only easy members.
