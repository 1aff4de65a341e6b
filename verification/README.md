# A verified model of jjosh's history conversion

jjosh moves commit graphs between a project's own Git repository and a monorepo. This project models
the parts of it that must not lose or confuse history, and four small kernels of gitoxide that it
rests on, and proves what they promise for all inputs, all runs and all interruptions.

Check everything with `dafny verify dfyconfig.toml`. Every induction is written out, so Dafny's
automatic induction for lemmas is not needed.

## How it is organised

| file | models |
|---|---|
| `Wrappers.dfy` | options, mapping a sequence, small shared facts |
| `Objects.dfy` | Git objects, their links, closures |
| `ObjectCopy.dfy` | copying closures children first, and every crash point of it |
| `Walks.dfy` | what every enter/exit walk over a graph keeps |
| `Normalization.dfy` | cutting shallow edges, and undoing that for exports, as functions on graphs |
| `SourceHistory.dfy` | the loops that compute them |
| `Ledger.dfy` | the persisted inverse: which entries are right, and that recording keeps them right |
| `Refs.dfy` | private references and transactions over them |
| `Repair.dfy` | rebuilding half-written pairs of references |
| `SourceStore.dfy` | the source repository as an object: recording, repairing, retaining, witnessing |
| `SourceRuns.dfy` | runs of fetches, recordings, exports, interruptions and repairs |
| `Provenance.dfy` | installing captured evidence: objects, then the shallow file, then references |
| `NativeSource.dfy` | validating a captured graph |
| `Mounts.dfy` | the algebra of mounted trees |
| `NativeImport.dfy` | re-mounting a whole commit graph |
| `Anchors.dfy` | recording boundaries only, and recovering the full correspondence from them |
| `Offline.dfy` | offline imports, and the anchors of a session |
| `Filters.dfy` | rewriting the commit ids that filters name |
| `Namespace.dfy` | reserving and merging names, labels, bindings and references |
| `Snapshot.dfy` | a cached file snapshot between threads and writers |
| `CommitGraph.dfy` | commit-graph chains: lookups and verification |
| `Ewah.dfy` | compressed bitmaps |
| `Ident.dfy` | the `$Id$` filter |

An object id is the object itself, so equal ids mean equal objects and parents are structurally
smaller than their children. The object database and the reference store are a set and a map inside
a class. A crash is any prefix of a log of writes, or any subset of a batch of references. In
`NativeSource.dfy` and `NativeImport.dfy`, where a captured graph is not trusted, ids are plain
numbers and graphs may have cycles and gaps. Library calls are parameters or small functions: the
hash of `$Id$`, generated ids, the merged tree of a commit's parents, the bits of `u32` and `u64`.

## What turned out not to hold

* Normalization is injective on raw histories without a provenance header, and not beyond:
  `Normalization.StampedHistoryCollides` gives two commits with one normal form, and
  `Normalization.NormalCollisions` says exactly when two commits share one.
* Repair compares the sets of `raw` and `normalized` references and stops when they are equal. An
  interruption that leaves both references of a commit and neither of its rewritten parent is
  therefore not noticed (`SourceRuns.OrphanGoesUnnoticed`). What survives is a right inverse exactly
  when the survivors are closed under rewritten parents (`SourceRuns.RestrictionIsValid`).
* Repair trusts stamps. An export of a commit that carries the provenance header of a foreign
  normalization, whose raw reference was lost, is restored to the commit that the header names: the
  pair passes every check, and another original is persisted (`Repair.ForeignStampIsTrusted`). Repair
  restores every original exactly when the survivors are closed under rewritten parents and no
  survivor without its raw reference is such an export (`Repair.CrashRepairIsExact`); normalized
  commits and exports without a provenance header never are (`Repair.PlainIsNotMisleading`). In
  general, exactly the traceable inputs get their original back (`Repair.RestoresTraceable`).
* An export can rest on a normalization that was never recorded, as a push does. Recording it then
  enters anchored commits that may lack their rewritten parents, and the inverse is wrong without any
  crash (`Ledger.UnrecordedAnchorBreaksInverse`). It stays right exactly when every anchor that is
  entered brings its rewritten parents with it (`Ledger.PublishKeepsValid`), as it does when the
  generation was recorded before (`Ledger.RecordedAnchorsBringParents`).
* Commit-graph verification accepts a cycle all of whose commits have the largest generation number
  (`CommitGraph.CycleAtTheTop`). It then reports no longest path, as it does exactly when there is a
  walk of `GENERATION_NUMBER_MAX - 1` edges (`CommitGraph.ReportIsExact`).
* Normalizing an export does not give a copy of every history: one that rests on an older generation
  (`Normalization.OlderGenerationIsLeft`), or that contains a commit since declared a boundary
  (`Normalization.NewBoundaryIsCut`), comes back changed. It gives a copy exactly when each anchor below
  is the current normal form of its original and no new commit is a boundary with parents
  (`Normalization.BasedOn`); `Normalization.ExportRoundTrip` is that equivalence.
* An offline import records no grafts, so recovery walks past them. If the destination has the grafted
  commit on other parents, recovery succeeds and sends these parents' sources to commits they were not
  converted to (`Offline.GraftLeadsAstray`). The evidence is right exactly when every covered graft has
  the converted parents of its source commit (`Offline.OfflineIsFaithful`).
* A failed population of a cache can leave the new shallow file behind: the file is replaced before the
  references are written (`Provenance.Populate` says what holds then).

## Model

| member | source | states |
|---|---|---|
| `ObjectCopy.CopyObjects` | crates/jjosh-cli/src/source_repo.rs:887-998 | the walk fails only on absent or mistyped objects, never with a cycle; everything written comes from the closure, children first; on success the tips are in the destination and, with each object of their closure, every tree entry but submodules, every tree, uncut parent and tag target that it names, of the kind it says; also when present objects are skipped, if the destination was closed |
| `ObjectCopy.CheckObjects` | crates/jjosh-cli/src/source_repo.rs:887-998 | without a destination the walk succeeds exactly when every object of the closure is present with the expected kind, so that nothing that one of them names is absent or of another kind |
| `Objects.LinksAreChildren` | crates/jjosh-cli/src/source_repo.rs:942-971 | what is followed from an object is exactly what it names: the entries of a tree but submodules, as tree or blob by their mode, tree and uncut parents of a commit, target of a tag |
| `ObjectCopy.SubmodulesAreForeign` | crates/jjosh-cli/src/source_repo.rs:955-963 | a submodule entry brings nothing along |
| `ObjectCopy.EveryCrashPointIsClosed` | crates/jjosh-cli/src/source_repo.rs:882-998 | after any prefix of a children-first log a closed destination is closed |
| `Normalization.NormalIsGraphMap` | crates/jjosh-cli/src/source_repo.rs:833-860 | a normalized commit keeps tree, authorship, message and remaining headers, and its parents are the normalized parents in order |
| `Normalization.NormalHeaders` | crates/jjosh-cli/src/source_repo.rs:833-860 | a rewritten commit has the other headers of its original, in order, and one stamp at the end; signatures and merged tags are gone |
| `Normalization.KeepsIdExactly` | crates/jjosh-cli/src/source_repo.rs:304-357 | a commit keeps its id exactly when no commit reachable through uncut edges is a boundary that had parents |
| `Normalization.NormalIsInjective` | crates/jjosh-cli/src/source_repo.rs:304-357 | unstamped commits with the same normal form are the same, even under different cuts |
| `Normalization.NormalCollisions` | crates/jjosh-cli/src/source_repo.rs:304-357 | different commits share a normal form exactly when one of them is the unchanged normal form of the other |
| `Normalization.StampedHistoryCollides` | crates/jjosh-cli/src/source_repo.rs:304-357 | a raw history that already carries a provenance header can collide |
| `Normalization.NormalAncestry` | crates/jjosh-cli/src/source_repo.rs:304-357 | the complete history of a normal form is the image of the history through uncut edges |
| `Normalization.NoCycles` | crates/jjosh-cli/src/source_repo.rs:313-349 | content-addressed histories have no cycle, so the cycle error cannot be raised |
| `Normalization.DenormalKeeps` | crates/jjosh-cli/src/source_repo.rs:429-490 | an exported commit keeps tree, authorship, message and remaining headers, carries no provenance, and has the exported parents in order |
| `Normalization.DenormalHeaders` | crates/jjosh-cli/src/source_repo.rs:833-860 | a rebuilt commit has the other headers of its original, in order, and nothing else |
| `Normalization.ExportRoundTrip` | crates/jjosh-cli/src/source_repo.rs:429-490 | normalizing an export gives a copy of the history that differs only in provenance, signature and mergetag headers, exactly when it is based on normalized commits |
| `Normalization.CopyHeaders` | crates/jjosh-cli/src/source_repo.rs:854-860 | a copy of new history has the same other headers, in order |
| `Normalization.OlderGenerationIsLeft` | crates/jjosh-cli/src/source_repo.rs:429-490 | new history on an older generation is not copied once the source was deepened |
| `Normalization.NewBoundaryIsCut` | crates/jjosh-cli/src/source_repo.rs:429-490 | a new commit whose export has been declared a boundary is not copied |
| `Normalization.UntouchedExportIsIdentity` | crates/jjosh-cli/src/source_repo.rs:429-490 | a commit that exports to itself is normalized back to itself |
| `SourceHistory.NormalizeGraph` | crates/jjosh-cli/src/source_repo.rs:306-357 | the enter/exit loop terminates, never reports a cycle, computes the normal form of every commit of the cut history, lists the pairs parents first, and writes exactly the rewritten commits |
| `SourceHistory.Normalize` | crates/jjosh-cli/src/source_repo.rs:306-357 | succeeds exactly when the history is readable and every normal form is complete; the pairs are the generation of the tips |
| `SourceHistory.InsertMappings` | crates/jjosh-cli/src/source_repo.rs:807-819 | pairs are added exactly when none disagrees with a known one or with another |
| `SourceHistory.Denormalize` | crates/jjosh-cli/src/source_repo.rs:446-483 | the export loop stops at anchors, succeeds exactly when what it must read is there, and computes the export of every commit above them |
| `SourceHistory.OriginalsAreTerminal` | crates/jjosh-cli/src/source_repo.rs:436-442 | every known input exports to its original, every original is an anchor, and the walk goes below none of them; an anchor that is only an original exports to itself |
| `Ledger.InputsAreStamped` | crates/jjosh-cli/src/source_repo.rs:539-554 | every recorded input has a provenance header in its history, so none is mistaken for raw history |
| `Ledger.RecordKeepsValid` | crates/jjosh-cli/src/source_repo.rs:359-425 | recording a generation keeps every entry, old or new, in the normalization or the export relation |
| `Ledger.PublishKeepsValid` | crates/jjosh-cli/src/source_repo.rs:359-425 | recording an export, also one that rests on a generation that was not recorded, keeps every entry right if and only if each anchor entered from that generation brings its rewritten parents |
| `Ledger.RecordedAnchorsBringParents` | crates/jjosh-cli/src/source_repo.rs:359-425 | it does when the generation was recorded before |
| `Ledger.UnrecordedAnchorBreaksInverse` | crates/jjosh-cli/src/git_remote/push.rs:1089-1160 | a tip on the normal form of an unrecorded child of a boundary enters that child without its parent, and the inverse is wrong |
| `Ledger.WitnessIsExact` | crates/jjosh-cli/src/source_repo.rs:194-229 | the inverse maps every normal form of a recorded generation to its raw commit, also those that kept their id |
| `Ledger.RetentionBoundariesAre` | crates/jjosh-cli/src/source_repo.rs:539-554 | the retention boundaries are the live ones and the originals of recorded roots, and no others |
| `Ledger.HistoricalCutIsKept` | crates/jjosh-cli/src/source_repo.rs:539-554 | a boundary of a recorded generation that had parents is a retention boundary, whatever the shallow set now |
| `Ledger.RetentionStopsAtHistoricalCut` | crates/jjosh-cli/src/source_repo.rs:539-554 | retaining a raw commit of a recorded generation never walks past its historical cut |
| `Ledger.RetentionStopsAtLiveCut` | crates/jjosh-cli/src/source_repo.rs:539-554 | retention never walks past a live boundary |
| `Repair.RecoverRaws` | crates/jjosh-cli/src/source_repo.rs:571-634 | the recovery loop computes, for every surviving input, its raw reference, its only stamp or its rebuilt export, or fails if one has none |
| `Repair.ProvePairs` | crates/jjosh-cli/src/source_repo.rs:660-702 | all pairs are accepted exactly when each is in the normalization or export relation with both objects present; the boundaries and unmapped parents relied on are returned |
| `Repair.NormalizationRepairs` | crates/jjosh-cli/src/source_repo.rs:566-728 | succeeds exactly when the references are well formed and complete or acceptable; proposes nothing when they are complete, and otherwise the missing halves, pinning the rest |
| `Repair.CrashRepairIsExact` | crates/jjosh-cli/src/source_repo.rs:566-728 | for every subset of references that survives, repair restores the original of every surviving input if and only if these are closed under rewritten parents and none that lost its raw reference is an export with a foreign stamp |
| `Repair.RestoresTraceable` | crates/jjosh-cli/src/source_repo.rs:571-634 | whatever was lost, repair restores the original of an input exactly when its raw reference survived, its stamp is its own, or it has none and the same holds for its rewritten parents; otherwise a stamped input gets what its stamp names |
| `Repair.ForeignStampIsTrusted` | crates/jjosh-cli/src/source_repo.rs:594-603 | a lost raw reference of an export with a foreign stamp is replaced by the commit that the stamp names, and every check passes |
| `Repair.PlainIsNotMisleading` | crates/jjosh-cli/src/source_repo.rs:594-603 | normalized commits and exports without a provenance header are never misrestored |
| `Repair.WitnessedUnlessMisleading` | crates/jjosh-cli/src/source_repo.rs:594-603 | the one stamp of an input tells its original exactly unless it is an export with a foreign stamp |
| `Repair.RepairSucceeds` | crates/jjosh-cli/src/source_repo.rs:566-728 | under that condition all checks of the repair pass |
| `Repair.AcceptedIsWhole` | crates/jjosh-cli/src/source_repo.rs:660-726 | an accepted repair has found every input and its original with their trees, the parents of the input, and those of the original unless it is the original of a root |
| `Repair.OrphanIsRefused` | crates/jjosh-cli/src/source_repo.rs:672-698 | a pair whose rewritten parent was lost is refused |
| `Repair.NormalInputsAreWitnessed` | crates/jjosh-cli/src/source_repo.rs:833-860 | a normalized input carries exactly one stamp, that of its original |
| `Repair.StampsAreAll` | crates/jjosh-cli/src/source_repo.rs:594-603 | the stamps of an input are the values of its provenance headers, each once |
| `Repair.RawIsCopyable` | crates/jjosh-cli/src/source_repo.rs:713-726 | the originals of surviving inputs are complete up to the originals of root inputs |
| `Repair.RepairCompletes` | crates/jjosh-cli/src/source_repo.rs:635-728 | the edits are permitted, overwrite nothing, and leave complete pairs, so that a second repair proposes nothing |
| `Repair.RepairStaysProven` | crates/jjosh-cli/src/source_repo.rs:703-712 | if the edits are permitted on references that were changed meanwhile, every repaired pair is still proven by the references as they then are |
| `Repair.RepairStaysPaired` | crates/jjosh-cli/src/source_repo.rs:635-658 | once the edits are applied, every recovered input has both references, one to its original and one to itself |
| `Repair.UnmappedStays` | crates/jjosh-cli/src/source_repo.rs:703-712 | a parent taken as unmapped has neither reference when the edits are applied, nor afterwards |
| `Repair.PersistsInverse` | crates/jjosh-cli/src/source_repo.rs:730-773 | complete pairs of references read back as the inverse that was written |
| `SourceStore.SourceRepo.EditReferences` | crates/jjosh-cli/src/source_repo.rs:556-564 | a transaction applies all edits or none, and never changes an existing reference |
| `SourceStore.SourceRepo.PersistedInverse` | crates/jjosh-cli/src/source_repo.rs:730-773 | succeeds exactly when each named input has both references, the normalized one to itself, and then the inverse has exactly the named inputs with the targets of their raw references |
| `SourceStore.SourceRepo.RepairNormalization` | crates/jjosh-cli/src/source_repo.rs:556-564 | repair completes the pairs to the writer's inverse or changes nothing |
| `SourceStore.SourceRepo.RetainRaw` | crates/jjosh-cli/src/source_repo.rs:291-302 | retained tips are complete up to the retention boundaries |
| `SourceStore.SourceRepo.RetainGenerations` | crates/jjosh-cli/src/source_repo.rs:372-389 | every tip is pinned as a generation, and the pairs are untouched |
| `SourceStore.SourceRepo.RecordNormalized` | crates/jjosh-cli/src/source_repo.rs:359-425 | on success the pairs are complete and hold exactly the repaired inverse, unchanged, and the changed pairs; in any case no reference changes; all recorded objects and complete tips are in the repository |
| `SourceStore.SourceRepo.Denormalize` | crates/jjosh-cli/src/source_repo.rs:429-490 | an export succeeds exactly when the pairs are complete, agree with the given ones and the history above them is readable; it is anchored in the persisted inverse, the given pairs and their originals, and yields one pair for each commit down to them |
| `SourceStore.SourceRepo.WitnessedGeneration` | crates/jjosh-cli/src/source_repo.rs:194-229 | succeeds exactly when the input is a retained, complete generation of the raw commit, with the pairs that the inverse gives |
| `SourceStore.PairsPersist` | crates/jjosh-cli/src/source_repo.rs:359-425 | writing the references of new pairs persists the extended inverse |
| `SourceRuns.StepKeepsSound` | crates/jjosh-cli/src/source_repo.rs:359-425 | every fetch, recording of raw history without provenance headers, export that brings its parents, and repair keeps the state sound and loses no mapping; a recording may be interrupted anywhere that leaves the survivors closed under rewritten parents and no export with a foreign stamp without its raw reference |
| `SourceRuns.RunsAreSound` | crates/jjosh-cli/src/source_repo.rs:359-425 | over every run of such steps, the inverse is right and recorded mappings neither change nor disappear |
| `SourceRuns.ReferencesStay` | crates/jjosh-cli/src/source_repo.rs:359-425 | over every run whatever, with any part of any writer's edits left behind, no reference and no mapping changes or disappears |
| `SourceRuns.StepWrites` | crates/jjosh-cli/src/source_repo.rs:556-564 | the steps above are such writes |
| `SourceRuns.RestrictionIsValid` | crates/jjosh-cli/src/source_repo.rs:566-728 | a part of a right inverse is right exactly when it is closed under rewritten parents |
| `SourceRuns.NormalizeRecordsGeneration` | crates/jjosh-cli/src/source_repo.rs:359-425 | recording what normalization produced adds exactly the entries of that generation |
| `SourceRuns.RecordKeepsGraphs` | crates/jjosh-cli/src/source_repo.rs:359-425 | complete tips keep the complete graph of every recorded input |
| `SourceRuns.NormalizedIsRecorded` | crates/jjosh-cli/src/source_repo.rs:359-425 | a successful recording of what normalizing gave is a repair, if needed, and then the step that records the generation |
| `SourceRuns.ExportIsRecorded` | crates/jjosh-cli/src/source_repo.rs:359-425 | a successful recording of what exporting gave is the step that records the export |
| `SourceRuns.InterruptedRecordingIsStep` | crates/jjosh-cli/src/source_repo.rs:405-425 | a recording that stops after its copies with any part of its pins and pair references is a step, if the survivors are closed under rewritten parents and no export with a foreign stamp lost its raw reference |
| `SourceRuns.ExportKeepsGraphs` | crates/jjosh-cli/src/source_repo.rs:359-425 | a complete exported tip keeps the complete graph of everything entered |
| `SourceRuns.DenormalizeRecordsExport` | crates/jjosh-cli/src/source_repo.rs:429-490 | recording an export adds exactly its changed commits |
| `SourceRuns.GenerationsLast` | crates/jjosh-cli/src/source_repo.rs:194-229 | at any later point of a run of the steps above, a commit of a recorded generation is still found from its normal form |
| `SourceRuns.RetentionLasts` | crates/jjosh-cli/src/source_repo.rs:539-554 | over every run whatever, once the entries of a cut history are recorded, retaining its tip never walks past that cut |
| `SourceRuns.WitnessRebuildsGeneration` | crates/jjosh-cli/src/source_repo.rs:194-229 | at any later point of a run, the witnessed pairs are exactly those that normalization produced for the tip |
| `SourceRuns.NormalizedExportsExactly` | crates/jjosh-cli/src/source_repo.rs:429-490 | at any later point of a run, every normalized commit is exported as its original raw commit |
| `SourceRuns.CleanExportsUnchanged` | crates/jjosh-cli/src/source_repo.rs:429-490 | history without provenance headers is exported as it is |
| `SourceRuns.WitnessAnchors` | crates/jjosh-cli/src/source_repo.rs:429-445 | witnessed pairs agree with the inverse and give anchors that come from it |
| `SourceRuns.NormalizeAnchors` | crates/jjosh-cli/src/source_repo.rs:436-445 | the pairs of a fresh normalization that agree with the inverse give the anchors of its generation, recorded or not |
| `SourceRuns.OrphanGoesUnnoticed` | crates/jjosh-cli/src/source_repo.rs:566-570 | complete pairs of a child without those of its rewritten parent pass unnoticed |
| `Provenance.Populate` | crates/jjosh-cli/src/project_provenance.rs:191-248 | no reference precedes its objects in the trace of writes, and nothing is overwritten; on success all evidence is there and complete; a failure leaves no reference, and if it comes from the last two writes the objects are complete, the shallow file is replaced if only the references failed, and populating again is not refused |
| `Provenance.WriteRefs` | crates/jjosh-cli/src/project_provenance.rs:210-248 | references are written only after their whole closure |
| `NativeSource.ValidateGraph` | crates/jjosh-cli/src/native_source.rs:248-304 | accepts exactly the acyclic, parent-closed, well-rooted graphs without extra commits; a cycle is reported only for a commit that reaches itself, and extra commits only when no reachable commit has a fault, so a reachable cycle without another fault is reported as one |
| `Walks.OrderedIsAcyclic` | crates/jjosh-cli/src/native_source.rs:265-300 | a walk that has finished a node after its successors has shown that no node of the order reaches itself |
| `Mounts.ReadValueAt` | crates/jjosh-cli/src/native_project.rs:150-177 | the loop finds the value at a path, a file on the way hiding what is below |
| `Mounts.FileHides` | crates/jjosh-cli/src/native_project.rs:150-177 | a file on the way hides what would be below it |
| `Mounts.PrefixTree` | crates/jjosh-cli/src/native_project.rs:217-232 | the loop builds the tree wrapped in the mount's directories |
| `Mounts.ProjectPrefixed` | crates/jjosh-cli/src/native_project.rs:206-232 | projecting a prefixed tree gives it back |
| `Mounts.ProjectFiles` | crates/jjosh-cli/src/native_project.rs:206-215 | the project at a mount has exactly the files below the mount, and is refused exactly for a file in the way |
| `Mounts.WithoutPath` | crates/jjosh-cli/src/native_project.rs:234-295 | the descend-and-rebuild loop removes the mount, refusing a file on the way |
| `Mounts.WithoutFiles` | crates/jjosh-cli/src/native_project.rs:234-295 | exactly the files not under the mount are kept |
| `Mounts.WithoutPrefixed` | crates/jjosh-cli/src/native_project.rs:217-295 | removing the mount of a prefixed tree leaves the empty tree |
| `Mounts.InheritedProject` | crates/jjosh-cli/src/native_project.rs:485-541 | inheriting fails exactly when a file blocks the mount, and else the mount has the incoming tree |
| `Mounts.InheritedFiles` | crates/jjosh-cli/src/native_project.rs:485-523 | under the mount are the incoming files, everywhere else those of the merged parents |
| `Mounts.CheckMountsDisjoint` | crates/jjosh-cli/src/native_project.rs:127-148 | accepts exactly the mounts of which none is inside another |
| `Mounts.DisjointMountsKeepApart` | crates/jjosh-cli/src/native_project.rs:131-148 | importing at a disjoint mount changes no file under the other |
| `Mounts.VacantMountHidesNothing` | crates/jjosh-cli/src/native_project.rs:179-187 | importing at an unoccupied mount hides no file |
| `NativeImport.FindExisting` | crates/jjosh-cli/src/native_project.rs:441-483 | the loop finds the existing version, as `ExistingIsUnique` describes it |
| `NativeImport.ExistingIsUnique` | crates/jjosh-cli/src/native_project.rs:441-483 | a found version is visible, is the same version and the only one; none is found only if there is none; ambiguity is reported only for two |
| `NativeImport.WrittenProjects` | crates/jjosh-cli/src/native_import.rs:258-288 | a written commit's conflict-free tree projects at the mount to the source tree, with the same metadata |
| `NativeImport.WrittenInherits` | crates/jjosh-cli/src/native_import.rs:258-288 | outside the mount it has the files of its merged parents |
| `NativeImport.WrittenKeepsTerms` | crates/jjosh-cli/src/native_import.rs:258-271 | without other projects, conflicted terms keep their number, order and labels, each projecting back |
| `NativeImport.RewriteGraph` | crates/jjosh-cli/src/native_import.rs:163-319 | succeeds exactly when the capture has a conversion, in which every commit becomes the version that exists or the new commit that its content and converted parents make, no two becoming the same new one, and yields it; commits are emitted parents first; a cycle or a missing commit is reported only where there is one |
| `NativeImport.ConversionIsUnique` | crates/jjosh-cli/src/native_import.rs:208-311 | there is at most one conversion, so the order of the walk does not matter |
| `NativeImport.ImportIsGraphMap` | crates/jjosh-cli/src/native_import.rs:163-319 | a written commit's parents are the mapped parents in order, and its tree projects back to the source tree |
| `NativeImport.ImportIsInjective` | crates/jjosh-cli/src/native_import.rs:297-304 | different source commits never share a written commit |
| `NativeImport.GraftIsSameVersion` | crates/jjosh-cli/src/native_import.rs:216-227 | a graft is the one visible commit that is the same version |
| `NativeImport.GraftIsTheSource` | crates/jjosh-cli/src/native_project.rs:441-483 | a graft has the metadata of the source commit and its tree at a mount that is there; it is a visible commit of the same change, or stands on exactly the converted parents |
| `NativeImport.SingleTermIsMounted` | crates/jjosh-cli/src/native_project.rs:525-541 | for single terms, having the source's tree means that the projection at the mount is that tree |
| `NativeImport.VersionIsReused` | crates/jjosh-cli/src/native_project.rs:441-483 | a visible commit of the same change with the metadata and the tree of the source is the one that is reused, or there is no conversion |
| `NativeImport.ContentIsReused` | crates/jjosh-cli/src/native_import.rs:135-161 | for a commit that lost its change id, an indexed one with its content on the converted parents is the one that is reused, or there is no conversion |
| `NativeImport.NoFileAtTheMount` | crates/jjosh-cli/src/native_project.rs:189-204 | there is no conversion where a visible commit of the same change has a file at the mount |
| `NativeImport.ImportedIsAcyclic` | crates/jjosh-cli/src/native_import.rs:208-311 | a commit that was imported does not reach itself |
| `Anchors.RecoverAnchors` | crates/jjosh-cli/src/native_project.rs:376-439 | recovery succeeds exactly when the evidence comes from some correspondence; it yields exactly the boundaries and what the tips cover without passing one, as every such correspondence has them |
| `Anchors.BoundariesAre` | crates/jjosh-cli/src/native_project.rs:376-408 | the root stands for itself, a publication comes before a graft, and nothing else is a boundary |
| `Anchors.FaithfulAlike` | crates/jjosh-cli/src/native_project.rs:376-439 | what the evidence determines is the same in every correspondence it may come from |
| `Anchors.RecoveredCarries` | crates/jjosh-cli/src/native_project.rs:376-439 | what was recovered is a map that an import may start from |
| `Anchors.Binding.RecordAnchor` | crates/jjosh-cli/src/native_project.rs:301-348 | refuses exactly a raw commit that is recorded for another commit; no recorded anchor ever moves, and none is added but the given one |
| `Anchors.Binding.RecordImportedBoundaries` | crates/jjosh-cli/src/native_project.rs:350-374 | only tips and grafts are recorded, and always if none conflicts |
| `Anchors.ImportKeepsFaithful` | crates/jjosh-cli/src/native_project.rs:350-374 | after importing over any known map that has the recorded pairs and otherwise matches parent by parent, the new tips and grafts can be recorded and are evidence of the full import map |
| `Anchors.PublishKeepsFaithful` | crates/jjosh-cli/src/native_project.rs:323-348 | a published boundary keeps the evidence faithful |
| `Anchors.RetainKeepsFaithful` | crates/jjosh-cli/src/native_project.rs:301-321 | retaining more originals does |
| `Anchors.RunsAreFaithful` | crates/jjosh-cli/src/native_project.rs:350-439 | over every run of imports over such maps, publications and retentions the evidence stays faithful to the correspondence |
| `Anchors.DeterminedForGood` | crates/jjosh-cli/src/native_project.rs:350-439 | over every such run, a raw commit that the evidence once determined is determined for good, by the same commit |
| `Offline.SessionAnchors` | crates/jjosh-cli/src/git_remote/mod.rs:341-377 | what a session knows is a map that an import may start from, and a correspondence that its own and all offline evidence may come from; it fails only if there is none |
| `Offline.MergeAnchors` | crates/jjosh-cli/src/git_remote/mod.rs:365-376 | correspondences are merged exactly when none contradicts a known one |
| `Offline.PrepareOfflineImport` | crates/jjosh-cli/src/native_project.rs:59-97 | exactly the captured commits without children are recorded, as origins, and no boundary |
| `Offline.OfflineIsFaithful` | crates/jjosh-cli/src/native_project.rs:59-97 | the evidence of an offline import is evidence of its map if and only if every covered graft has the converted parents of its source commit |
| `Offline.GraftLeadsAstray` | crates/jjosh-cli/src/native_project.rs:59-97 | an offline import whose graft has other parents: recovery succeeds with another map |
| `Filters.MapNode` | crates/jjosh-cli/src/projection_history.rs:41-95 | the memoised recursion computes the plain substitution at every node |
| `Filters.MapSourceIds` | crates/jjosh-cli/src/projection_history.rs:27-97 | a filter is mapped to the plain substitution of the changed ids |
| `Filters.SubstitutionMapsAll` | crates/jjosh-cli/src/projection_history.rs:50-91 | every revision that a filter names, in a switch, an unapply or a downstack, is mapped, and no other is named |
| `Filters.NamedAreNormal` | crates/jjosh-cli/src/projection_history.rs:27-97 | the revisions of the history that a rewritten filter names are their normal forms |
| `Filters.MatchesMean` | josh/josh-filter/src/op.rs:39-48 | strict is inclusive without equal, and inclusive follows uncut parents |
| `Filters.NothingToSubstitute` | crates/jjosh-cli/src/projection_history.rs:33-35 | returning the filter early when no id changed is right |
| `Filters.MatchKeepsMeaning` | josh/josh-filter/src/op.rs:39-48 | an equality or ancestor match with the mapped id selects a normalized commit exactly when the original selects the raw one in the cut graph |
| `Filters.RewritingKeepsMeaning` | crates/jjosh-cli/src/projection_history.rs:27-97 | resolving all switches of the mapped filter at a normalized commit is the mapping of resolving them at the raw commit |
| `Namespace.SuffixOfLocalName` | crates/jjosh-cli/src/ref_names.rs:5-17 | a scoped name has its project as suffix, whatever the unscoped name is |
| `Namespace.UnscopedLocalName` | crates/jjosh-cli/src/ref_names.rs:5-13 | a scoped name gives its unscoped name back |
| `Namespace.BelongsIsSuffix` | crates/jjosh-cli/src/project_preserve.rs:336-338 | the two ways of asking whether a name belongs to a label agree |
| `Namespace.MapNameIsInjective` | crates/jjosh-cli/src/project_preserve.rs:96-118 | the renaming of a preserved import is injective |
| `Namespace.LiteralsStayApart` | crates/jjosh-cli/src/project_preserve.rs:96-118 | literal references of sources with different names never meet |
| `Namespace.MapNameSuffix` | crates/jjosh-cli/src/project_preserve.rs:96-118 | it keeps the suffix of every reference |
| `Namespace.PublishedOwner` | crates/jjosh-cli/src/project_preserve.rs:96-118 | a reference that is reserved belongs to the project it should, or to none if it belonged to none |
| `Namespace.ClaimsNothingInUse` | crates/jjosh-cli/src/project_config.rs:76-114 | no reserved reference ends in a label that a source claims |
| `Namespace.ReservationIsDisjoint` | crates/jjosh-cli/src/project_preserve.rs:522-597 | an accepted reservation replaces no project, live label, binding, scoped remote name, remote, bookmark or tag |
| `Namespace.BindingsStayApart` | crates/jjosh-cli/src/project_preserve.rs:522-582 | no binding of a preserved source shares id, project or connection with one that was there |
| `Namespace.RemotesStayApart` | crates/jjosh-cli/src/project_preserve.rs:572-581 | no remote of a preserved source has a connection that was there |
| `Namespace.StepIsDisjoint` | crates/jjosh-cli/src/project_preserve.rs:611-683 | what is merged for a source replaces none either, although references of nested imports were not reserved |
| `Namespace.StepStaysInStep` | crates/jjosh-cli/src/project_import.rs:153-252 | the published view stays the reserved one but for references under labels of nested imports |
| `Namespace.ImportBatch` | crates/jjosh-cli/src/project_import.rs:137-310 | the batch succeeds exactly when the mounts are disjoint and vacant in all visible trees, the remotes are not configured, and every source can be reserved after those before it, and then merges all of them |
| `Namespace.ImportIsConservative` | crates/jjosh-cli/src/project_import.rs:153-310 | an accepted batch overwrites nothing live, publishes every source in full, and leaves every old and new reference with its project |
| `Namespace.ImportPublishesExactly` | crates/jjosh-cli/src/native_import.rs:321-362 | an accepted batch publishes each bookmark and tag of each source at the commit that its target was rewritten to, the new project with its label and binding or the source's records with all paths below the mount, and no other reference |
| `Namespace.ImportHidesNothing` | crates/jjosh-cli/src/project_import.rs:171-184 | an importable batch hides no file of a visible tree |
| `Namespace.BatchKeepsClaims` | crates/jjosh-cli/src/project_config.rs:76-114 | no two projects claim a name or a path, across the batch and the destination |
| `Namespace.RemoveProject` | crates/jjosh-cli/src/project_config.rs:133-170 | removes a project and its labels exactly when no binding, scoped remote name, unresolved label or reference depends on it |
| `Namespace.RemovalLeavesNothing` | crates/jjosh-cli/src/project_config.rs:132-170 | after a removal nothing live mentions the project and no reference changed its project |
| `Namespace.RegistrationIsUndone` | crates/jjosh-cli/src/project_config.rs:116-130 | removing what was just registered restores the namespace |
| `Namespace.CollectEdits` | crates/jjosh-cli/src/project_import.rs:523-542 | the edits are the least extension that has all incoming ones, and are refused exactly when there is none |
| `Snapshot.NextKeepsValid` | gitoxide/gix-fs/src/snapshot.rs:92-162 | every step of a thread, a writer or a removal keeps the locks exclusive and the tag of every snapshot no later than its value |
| `Snapshot.RunsAreCurrent` | gitoxide/gix-fs/src/snapshot.rs:92-162 | in every interleaving, a cached or returned snapshot tagged with the current modification time has the current content, and no tag is ahead of the file |
| `Snapshot.ReadOnlyCallIsExact` | gitoxide/gix-fs/src/snapshot.rs:117-145 | a call that only takes the read lock returns the file as it is at that moment |
| `Snapshot.SoloCallIsExact` | gitoxide/gix-fs/src/snapshot.rs:92-162 | a call alone on a quiet file returns within four steps with exactly the content, or nothing if there is no file, unless opening fails |
| `Snapshot.SoloStepExists` | gitoxide/gix-fs/src/snapshot.rs:92-162 | nothing blocks a call that runs alone |
| `CommitGraph.LookupByPos` | gitoxide/gix-commitgraph/src/access.rs:75-90 | every position of the chain is found in its file without underflow |
| `CommitGraph.LocationIsUnique` | gitoxide/gix-commitgraph/src/access.rs:75-90 | that file and position are the only ones |
| `CommitGraph.LookupInFile` | gitoxide/gix-commitgraph/src/file/access.rs:76-95 | a hit is always right; on an indexed file a miss is too; it panics only on a fan table that counts more ids than there are |
| `CommitGraph.LookupById` | gitoxide/gix-commitgraph/src/access.rs:59-73 | a hit is at the right position of the chain, without 32-bit overflow; in a chain of indexed files it is in the first file that has the id, and a miss means that none has |
| `CommitGraph.ParentsAreStored` | gitoxide/gix-commitgraph/src/file/commit.rs:124-187 | the parents that are read are exactly the positions that the words of a commit store, and are refused exactly if these are malformed |
| `CommitGraph.TwoParents` | gitoxide/gix-commitgraph/src/file/commit.rs:140-149 | two ordinary edges are two parents, in order |
| `CommitGraph.ManyParents` | gitoxide/gix-commitgraph/src/file/commit.rs:150-187 | an index into the extra edges gives the first parent and then the words from there to the first with the high bit, that bit removed |
| `CommitGraph.GenerationIsStored` | gitoxide/gix-commitgraph/src/file/commit.rs:34-46 | the generation is what is stored above the two lowest bits |
| `CommitGraph.CheckCommit` | gitoxide/gix-commitgraph/src/verify.rs:91-121 | a commit passes exactly when its parents are in range and its generation is one more than their largest, capped; every lookup is in range |
| `CommitGraph.Traverse` | gitoxide/gix-commitgraph/src/file/verify.rs:38-95 | a file passes exactly when it is intact, its ids increase and its commits pass, and yields the largest generation |
| `CommitGraph.VerifyIntegrity` | gitoxide/gix-commitgraph/src/verify.rs:34-140 | accepts exactly the right chains; a reported length is that of the longest path of an acyclic history, and none is reported exactly when a walk is too long |
| `CommitGraph.EdgesAreStored` | gitoxide/gix-commitgraph/src/verify.rs:91-121 | in an accepted chain, the edges and generations are exactly those that the commits store |
| `CommitGraph.AcceptedFiles` | gitoxide/gix-commitgraph/src/verify.rs:60-88 | in an accepted chain, files are intact, name the checksums of all files before them, and hold strictly increasing ids and no null id or tree |
| `CommitGraph.RefusedFiles` | gitoxide/gix-commitgraph/src/verify.rs:60-121 | a chain whose files are so is refused only for a commit with malformed parents or a wrong generation |
| `CommitGraph.ReportIsExact` | gitoxide/gix-commitgraph/src/verify.rs:134-139 | the largest generation determines acyclicity and the longest path, up to the cap |
| `CommitGraph.GenerationBoundsWalks` | gitoxide/gix-commitgraph/src/verify.rs:91-121 | below the cap, no walk is longer than its first commit's generation allows |
| `CommitGraph.GenerationHasWalk` | gitoxide/gix-commitgraph/src/verify.rs:91-121 | every generation is attained by a walk |
| `CommitGraph.CycleAtTheTop` | gitoxide/gix-commitgraph/src/verify.rs:107-120 | a commit that is its own parent passes at the cap |
| `CommitGraph.AcceptedIsSorted` | gitoxide/gix-commitgraph/src/file/verify.rs:57-72 | accepted files have the order that lookups by id rely on |
| `Ewah.ForEachSetBit` | gitoxide/gix-bitmap/src/ewah.rs:100-145 | iteration completes exactly when the stream is well formed, fits the bit count and no bit is refused, and visits the set positions of the expanded sequence |
| `Ewah.VisitedAreSet` | gitoxide/gix-bitmap/src/ewah.rs:96-145 | these are exactly the set bits, strictly increasing and below the bit count |
| `Ewah.VisitLiteral` | gitoxide/gix-bitmap/src/ewah.rs:123-141 | a literal is visited exactly if it starts within the bitmap and sets nothing beyond it |
| `Ewah.HeaderFields` | gitoxide/gix-bitmap/src/ewah.rs:152-176 | a header word holds the running bit, the length of the run in words, and the number of literals |
| `Ewah.RunOfWords` | gitoxide/gix-bitmap/src/ewah.rs:106-121 | a run of set words sets exactly sixty-four bits a word |
| `Ewah.ShiftTestsHighBits` | gitoxide/gix-bitmap/src/ewah.rs:130-132 | a shifted word is zero exactly when no bit beyond the shift is set |
| `Ewah.PackRoundTrip` | gitoxide/gix-bitmap/src/ewah.rs:54-62 | the bits of a packed word are the given ones, padded with zeros |
| `Ewah.FromBitsRoundTrip` | gitoxide/gix-bitmap/src/ewah.rs:53-75 | iterating over a bitmap built from bits visits exactly the set ones |
| `Ewah.WriteTo` | gitoxide/gix-bitmap/src/ewah.rs:77-97 | writes the serialized form exactly when word count and offset are 32 bits wide |
| `Ewah.MostSignificantFirst` | gitoxide/gix-bitmap/src/ewah.rs:77-97 | numbers are written with the most significant byte first |
| `Ewah.Decode` | gitoxide/gix-bitmap/src/ewah.rs:8-42 | succeeds exactly on serialized bitmaps with anything after them, returning both |
| `Ewah.DecodingIsUnique` | gitoxide/gix-bitmap/src/ewah.rs:8-42 | bytes determine the bitmap and the rest, so decoding what was written gives it back |
| `Ident.FindRange` | gitoxide/gix-filter/src/ident.rs:10-25 | finds the first expanded identifier, skipping openings whose line ends first |
| `Ident.Undo` | gitoxide/gix-filter/src/ident.rs:9-41 | the buffer is written exactly when an expanded identifier is somewhere in the text |
| `Ident.UndoneIdentifier` | gitoxide/gix-filter/src/ident.rs:9-41 | the first expanded identifier is collapsed; what is before it is kept, and what follows is treated alike |
| `Ident.UndoneText` | gitoxide/gix-filter/src/ident.rs:9-41 | text without an expanded identifier is kept |
| `Ident.Apply` | gitoxide/gix-filter/src/ident.rs:64-90 | the buffer is written exactly when a collapsed identifier is somewhere in the text |
| `Ident.AppliedIdentifier` | gitoxide/gix-filter/src/ident.rs:64-90 | the first collapsed identifier becomes `$Id: `, the hash and `$`; what is before it is kept, and what follows is treated alike |
| `Ident.AppliedText` | gitoxide/gix-filter/src/ident.rs:64-90 | text without a collapsed identifier is kept |
| `Ident.UndoneApplied` | gitoxide/gix-filter/src/ident.rs:9-90 | undoing what was applied restores every text with nothing to undo, overlapping and unterminated forms included |

## Left out

- SHA-1 and byte-level Git objects: an id is the object, so hash collisions are not modelled and a content-addressed graph has no cycle to report.
- Reference transactions: a transaction is a set of edits applied at once or not at all; locks and the order of files on disk are not modelled, but recording may stop after any subset of its references.
- `canonicalize_filtered_graph`, `retain_observations`, `migrate_context`, `copy_complete_to` and the endpoint cache directory: they repeat the walks and copies above around calls into josh.
- `read_view` and `validate_trees`: reading objects of a captured source; the graph they deliver is a parameter of `NativeSource` and `NativeImport`.
- Merging of conflicted trees: `MergedTree::merge` is given for conflict-free trees as a three-way merge over an empty base, and is otherwise a parameter, as is `resolve`; the statements about trees are for commits without conflicts.
- NativeImport.RewriteGraph: which error is reported when a capture has several faults is not stated; the count of dropped signatures and errors while indexing visible commits are not modelled.
- Offline.SessionAnchors: offline bindings are those that an offline import leaves, without grafts or publications; which bindings of a project are offline is a parameter.
- Ledger.RecordKeepsValid: raw history is assumed to carry no provenance header in its whole ancestry, also below the cut, which a repository that lacks these commits cannot check; `SourceRuns.ReferencesStay` and `SourceRuns.RetentionLasts` do not need this.
- Namespace.ImportBatch: generated project and binding ids are assumed new; that the captured sources are checked again before publication is not modelled.
- Namespace.ReservationIsDisjoint: the physical names of remotes are given; the diagnostics of `validate_source` are not modelled and nothing here needs them. Observations count as remote references.
- Namespace.CollectEdits: an edit is compared as a value, its contents are not modelled.
- Snapshot: one lock acquisition, one look at the modification time and one opening of the file are single steps; fairness of locks is not modelled.
- CommitGraph.VerifyIntegrity: the histogram of parent counts, the caller's processor and error texts are not modelled; checksums and file names are one flag.
- Ewah.Decode: lengths are unbounded numbers; on 64-bit machines the checked multiplication of the source cannot fail.
- Ident.Apply: the hash of the text is given in hexadecimal; allocation failures are not modelled.
- The command line, printing, transactions of jj, josh filter evaluation, remote configuration and Git export: interfaces and unseen libraries.
- `gix-features` varints, LFS and SSH servers, configuration, attributes and discovery: independent of the above.
