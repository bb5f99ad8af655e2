# McLoving: models of the artifact pipeline and the evidence verifiers

This project models two parts of McLoving.

The first part is the agent's handling of artifacts after a stage has finished. It matches declared patterns, walks the
workspace, validates the manifest, reads each file twice and uploads the set. `Glob`, `Matching`, `Collection`,
`Walking`, `Refusals` and `Manifest` follow a declaration to the sorted, validated list of files. `Custody`,
`ByteStreams` and `UploadSet` follow that list to a committed or aborted set.

The second part is the scripts that check the repository's own evidence:

- `GitTree` and `SourceArchive`: rebuilding a Git tree id from an archive.
- `Merge` and `TraceShells`: joining logs and system-call traces.
- `BoardGraph`, `BoardRules`, `BoardTopology`, `BoardRows` and `BoardStatuses`: the execution board.
- `Ledger`: the closure ledgers.
- `CorpusManifest`, `Disk` and `CorpusSeal`: the corpus manifest, the disk it stands for, and sealing.
- `PercentDecode`: the marker scan.
- `WindowsNames` and `WindowsPaths`: the Windows path check.

`Seqs` holds shared vocabulary.

Code that loops over mutable state is modelled as methods and classes, each proved against functions and predicates that
say what it should compute. The laws are lemmas about those.

## Where code and promise differ

- **Glob.** The segment matcher compares a name's character with the pattern's before it looks for `*`. A file name that
  itself holds `*` can therefore be missed by a pattern that should match it (`Glob.StarNameMissed`). The matcher never
  accepts too much, and it agrees with the documented dialect for every pattern exactly when no name on the path holds
  `*` (`Glob.SegmentExact`, `Glob.PathExact`).
- **CorpusSeal.** Over every history a listed name of a covered file stays in the manifest
  (`CorpusSeal.SealedForever`), whatever other names hold. A sealed file whose own name holds a line break has no line of
  its own and can leave (`CorpusSeal.BrokenNameLeaves`). `CorpusSeal.LeavesExactly` gives the exact condition for each
  path: it stays if and only if its name holds no line break, or the manifest does not parse, or the names the manifest
  parses to cannot all be files of one disk.
- **CorpusSeal.** A manifest just written does not verify when a covered name is outside the class the parser accepts.
  `CorpusSeal.SealThenVerify` gives the equivalence, for every tree.
- **PercentDecode.** A marker's percent-encoded probe decodes back to the marker exactly when the marker holds no escape
  of its own (`PercentDecode.ProbeComesBack`). A spelling with an escape in it is never found in any value
  (`PercentDecode.FoundIsPlain`).
- **SourceArchive.** The tree id stands for the files when member names are free of NUL, as tar header names are. With a
  NUL in a name two accepted archives with different files can share an id (`SourceArchive.NulNameAmbiguous`). The
  condition is sufficient only: whether a given name with a NUL has a second reading depends on which 20-byte strings the
  hash takes as values, which no check of the archive can tell.
- **TraceShells.** A record cut before white space loses that space when it is rejoined
  (`TraceShells.RejoinedAsPrinted`).
- **Custody.** With no reader left, the flag is free and every workspace reclaimable if and only if the custody mutex was
  never poisoned (`Custody.QuiescenceReleases`). The flag is set with no task left to clear it if and only if some
  acquire won it and then failed to lock (`Custody.LeaksExactly`), and it then stays set for the life of the process
  (`Custody.LeakedFlagIsForever`).
- **Custody.** The reclaim check comes before the removal, not with it. No removal meets an open file as long as no
  reader enters a workspace between the two, and that discipline is exactly what is needed (`Custody.RemovalExact`). Without it one can
  (`Custody.CheckedRemovalMeets`).
- **UploadSet.** A set the controller took is left with neither commit nor abort if and only if the reply to its begin was
  lost to an error (`UploadSet.LeftOpenExactly`), and such a run exists (`UploadSet.LeftOpenRun`).
- **UploadSet.** A run aborts and reports a failure although the controller took its commit if and only if that commit's
  reply was not seen (`UploadSet.TakenYetFailed`), and such a run exists (`UploadSet.TakenYetFailedRun`).

## Model

| member | source | states |
|---|---|---|
| Glob.SegmentExact | crates/domain/src/artifacts.rs:313-349 | The backtracking segment matcher accepts only what the wildcard dialect accepts, and agrees with it on every pattern if and only if the name holds no `*` |
| Glob.StarNameMissed | crates/domain/src/artifacts.rs:330-335 | `*.log` matches `*b.log` in the dialect and not in the matcher |
| Glob.ScanSound | crates/domain/src/artifacts.rs:313-349 | From any state of the scan, acceptance means the dialect matches from here or from the remembered star |
| Glob.ScanExact | crates/domain/src/artifacts.rs:313-349 | On a star-free name, keeping only the most recent star loses no match: the scan decides exactly whether one is left |
| Glob.PathDialect | crates/domain/src/artifacts.rs:266-312 | Per path: the compiled table accepts only what the documented dialect accepts, and exactly that when the path is star-free |
| Glob.PathExact | crates/domain/src/artifacts.rs:281-312 | The table agrees with the recursive `**` dialect on every pattern if and only if no name on the path holds `*`; for every path the walk can meet, the patterns a declaration may hold already tell |
| Glob.DefeatingDeclarable | crates/domain/src/artifacts.rs:151-180 | For any walkable path with a `*` in a name, the defeating pattern is one that pattern validation admits |
| Glob.AncestorDescends | crates/domain/src/artifacts.rs:281-312 | A pattern that matches a path answers yes to descent at every proper ancestor |
| Glob.DescentExact | crates/domain/src/artifacts.rs:281-312 | Descent is answered yes exactly when some nonempty continuation of the path would match |
| Glob.SegmentCharges | crates/domain/src/artifacts.rs:313-349 | Matching a name costs at least its length, and twice that when it matches |
| Glob.CellsCharged | crates/domain/src/artifacts.rs:281-312 | Every cell of the table is charged: the cost is at least the product of the two lengths, each plus one, and exactly that where no segment is compared |
| Glob.SettledCostsNothing | crates/domain/src/artifacts.rs:246-256 | Once a declaration is matched and descent granted, its further patterns cost nothing |
| Glob.MissesCostAll | crates/domain/src/artifacts.rs:246-256 | Where nothing hits, every pattern is charged in full for both questions, or for the match alone once descent is granted |
| Matching.MatchingBudget.Charge | crates/domain/src/artifacts.rs:203-221 | One cell is taken, or the charge fails with nothing remaining |
| Matching.SegmentMatches | crates/domain/src/artifacts.rs:313-349 | The loop answers what the scan decides and charges exactly its steps, or fails with the whole budget spent |
| Matching.FillRow | crates/domain/src/artifacts.rs:281-312 | One row of the table holds, for each suffix of the path, whether the pattern suffix reaches it |
| Matching.Evaluate | crates/domain/src/artifacts.rs:281-312 | The rolling table answers whether the pattern reaches the path, match or descent, at a cost fixed by pattern and path |
| Matching.CompilePattern | crates/domain/src/artifacts.rs:266-280 | The left-to-right loop that drops a `**` after a `**` yields the compiled form which `Glob.PathDialect` relates to the dialect |
| Matching.ClassifyPatterns | crates/domain/src/artifacts.rs:246-256 | Skipping patterns once matched, and descent once granted, gives the same answers as asking all of them |
| Matching.Classify | crates/domain/src/artifacts.rs:238-261 | The matched declarations and the descent answer, charged at a cost that depends on path and declarations alone |
| Collection.CollectionUnique | bins/agent/src/artifacts.rs:156-181 | Declarations and tree determine the collected list: it is the same whatever order directories list in |
| Collection.AncestorsLookBelow | bins/agent/src/artifacts.rs:264-398 | Every proper ancestor of an entry a declaration wants, be it to collect or to look below, is one the walk looks below |
| Collection.WantedIsVisited | bins/agent/src/artifacts.rs:264-398 | Where nothing offends, pruning leaves no wanted entry of the whole workspace unvisited, nor any of its ancestors |
| Collection.NothingPruned | bins/agent/src/artifacts.rs:264-398 | A successful collection holds exactly the objects of the regular files in the whole workspace that a declaration matches, the root spool excepted: pruning hides none |
| Collection.CollectedAsDeclared | bins/agent/src/artifacts.rs:156-181 | From the declarations as written: a successful collection holds only objects of regular files that a declared pattern matches in the documented dialect, and every one of them whose path holds no `*` |
| Walking.Walk.Collect | bins/agent/src/artifacts.rs:374-395 | One object per matched declaration is added and counted, or the refusal names the bound that the file really exceeds |
| Walking.Walk.Settle | bins/agent/src/artifacts.rs:318-395 | A classified entry adds its files to the tally, or is refused with a reason the tree justifies |
| Walking.Walk.Visit | bins/agent/src/artifacts.rs:277-398 | An entry and everything entered below it are each counted once, or the refusal is justified |
| Walking.Walk.WalkDirectory | bins/agent/src/artifacts.rs:264-398 | For any listing order: every entry below is seen once with entries, cells, files and bytes summed exactly, or the refusal is justified |
| Walking.JustifiedRefuses | bins/agent/src/artifacts.rs:264-398 | A justified refusal excludes success under every order |
| Walking.CompileArtifacts | crates/domain/src/artifacts.rs:222-236 | Every declaration keeps its name, with each of its patterns compiled |
| Walking.Collect | bins/agent/src/artifacts.rs:156-181 | Succeeds exactly when nothing visited offends and all four totals are in bounds; then returns the one sorted list, within the file and byte bounds; otherwise a justified refusal |
| Refusals.NothingOffends | bins/agent/src/artifacts.rs:264-398 | Nothing the walk visits offends if and only if every wanted entry anywhere in the workspace has a usable name and kind and every entry visited can be looked at |
| Refusals.MatchedIsFile | bins/agent/src/artifacts.rs:318-398 | A collection succeeds only if every declared path outside the spool, visited or not, is a regular file or a directory under a UTF-8 name |
| Refusals.LookedBelowIsOpen | bins/agent/src/artifacts.rs:322-372 | A collection succeeds only if every entry it looks below is no link and no directory that could not be opened, was replaced or lies too deep |
| Refusals.RefusalMeans | bins/agent/src/artifacts.rs:264-398 | A refusal that names a path is justified if and only if some visited entry is what that refusal says: a wanted link, an unnameable name, a directory too deep or not to be opened, no regular file |
| Manifest.ValidateManifest | crates/domain/src/artifacts.rs:377-400 | Accepts exactly the bounded lists of well-named, distinct members and returns their total; an error is the fault of the first member at fault |
| Manifest.FaultRefuses | crates/domain/src/artifacts.rs:377-400 | A fault at any member rules the whole manifest out |
| Manifest.FaultUnique | crates/domain/src/artifacts.rs:377-400 | A manifest at fault has exactly one error: that of its first member at fault |
| Manifest.CollectionSound | bins/agent/src/artifact_upload.rs:391-414 | The members made from a successful collection have valid, pairwise different names |
| Manifest.CollectManifest | bins/agent/src/artifact_upload.rs:391-414 | What collection returns always passes validation, so the agent never fails an assignment over its own manifest; the total is the sum of the file sizes |
| Manifest.HashedBytes | crates/domain/src/artifacts.rs:401-415 | For any member list the bytes hashed are those of the members stably sorted by name |
| Manifest.BigEndianMeans | crates/domain/src/artifacts.rs:401-415 | The eight bytes of a length or size are its value, most significant first |
| Manifest.Utf8Means | crates/domain/src/artifacts.rs:401-415 | The bytes of a character decode to it by the rules of UTF-8, in the shortest form |
| Manifest.RecordsInjective | crates/domain/src/artifacts.rs:401-415 | The length-prefixed UTF-8 encoding is uniquely decodable into members |
| Manifest.PreimageExact | crates/domain/src/artifacts.rs:401-415 | Two member lists hash the same bytes exactly when each name has the same members in the same order, however names are mixed |
| Manifest.SetIdStandsForMembers | crates/domain/src/artifacts.rs:401-415 | For valid manifests and any hash: one set id if and only if the members are the same or the two byte strings collide |
| Custody.StepKeepsInvariant | bins/agent/src/artifact_upload.rs:18-50 | Every atomic step of acquire, read, release, timeout and poisoning keeps flag, custody set and readers consistent |
| Custody.AlwaysInvariant | bins/agent/src/artifact_upload.rs:18-50 | The invariant holds after every interleaving |
| Custody.OneReaderInCustody | bins/agent/src/artifact_upload.rs:18-50 | While one task holds an open file no other does, its workspace cannot be reclaimed, and the flag is refused to everyone |
| Custody.NoForeignRelease | bins/agent/src/artifact_upload.rs:43-50 | No step of another task removes an owner or its custody entry |
| Custody.EntryOutlivesReader | bins/agent/src/artifact_upload.rs:43-50 | An entry disappears only by its owner's own release, after the file is closed |
| Custody.TimeoutFreesNothing | bins/agent/src/artifact_upload.rs:167-201 | After any further steps without its own release, timeouts of its join included, an owner still owns the same workspace, which cannot be reclaimed |
| Custody.ReleaseFrees | bins/agent/src/artifact_upload.rs:43-50 | An owner that closes its file and releases is gone with the flag free; unless poisoned, its workspace is reclaimable and the next reader becomes owner |
| Custody.QuiescenceReleases | bins/agent/src/artifact_upload.rs:188-201 | With no reader left, the flag is clear and every workspace reclaimable if and only if the mutex was never poisoned |
| Custody.PoisonIsForever | bins/agent/src/artifact_upload.rs:23-42 | Poisoning is never undone |
| Custody.LeakedFlagIsForever | bins/agent/src/artifact_upload.rs:30-42 | A flag set with no task to clear it stays set: no reader ever starts again and no workspace is reclaimed |
| Custody.LeaksExactly | bins/agent/src/artifact_upload.rs:30-42 | The flag is left set with no task to clear it if and only if some acquire won it and then failed to lock |
| Custody.PoisonThenAcquireLeaks | bins/agent/src/artifact_upload.rs:30-42 | One poisoning and one acquire reach that state |
| Custody.NoOwnerAfterPoison | bins/agent/src/artifact_upload.rs:30-42 | After poisoning no task becomes an owner |
| Custody.RemovalExact | bins/agent/src/worker.rs:4271-4281 | No workspace is ever both owned and cleared for removal if and only if no reader enters a workspace between its check and its removal |
| Custody.EndangeredMeets | bins/agent/src/worker.rs:4271-4281 | A workspace owned and cleared is exactly one from which opening a file makes the removal meet it |
| Custody.NoRemovalMeets | bins/agent/src/worker.rs:4271-4281 | In a disciplined run no removal meets an open file |
| Custody.CheckedRemovalMeets | bins/agent/src/worker.rs:4271-4281 | A check, then a reader entering and opening a file, then the removal: it meets the open file |
| ByteStreams.Source.Read | bins/agent/src/artifact_upload.rs:71-159 | A read returns between one byte and what was asked, and nothing only at the end of the file as it then is |
| ByteStreams.DigestReader | bins/agent/src/artifact_upload.rs:71-117 | A digest is the hash of exactly the announced number of bytes, from the start; of an unchanged file it is the file's hash; undisturbed, it is given if and only if the length is right, and `changed_length` otherwise |
| ByteStreams.SendBytes | bins/agent/src/artifact_upload.rs:124-142 | The sending loop delivers a prefix of an unchanged file in nonempty bounded frames, never reports completion itself, and in a calm run sends all announced bytes exactly when the file has them |
| ByteStreams.StreamReader | bins/agent/src/artifact_upload.rs:118-159 | Bounded nonempty frames carry at most the announced bytes; the end is sent exactly on completion, after all bytes went out and the file was seen to end; a calm run completes if and only if the length is right |
| ByteStreams.StagesWithEnd | bins/controller/src/artifact_rpc.rs:231-258 | The controller's receive loop finishes for data with one end and never for data alone |
| ByteStreams.StagesExact | bins/controller/src/artifact_rpc.rs:231-258 | The receive loop finishes exactly for bounded data frames, then one end, and nothing after it |
| ByteStreams.ReaderTask | bins/agent/src/artifact_upload.rs:282-339 | Whatever the reads, cancellations and sends do, the controller can stage the object exactly when the reader reports completion; from an unchanged file it then holds that file under its own hash, and undisturbed the reader completes if and only if the length is right |
| UploadSet.UploadedMeansAccepted | bins/agent/src/artifact_upload.rs:259-376 | A member is reported uploaded exactly when the reader was owned, prepared, joined unrefused, and the controller accepted |
| UploadSet.UploadMember | bins/agent/src/artifact_upload.rs:259-376 | Reader and uploader together, against a controller that registers whole objects and answers retries for what it holds: a member reported uploaded is held with exactly the announced length and digest, even if the file changed, and if it was not held before it was read completely |
| UploadSet.TakesExact | bins/controller/src/artifact_rpc.rs:231-258 | The controller takes exactly a header, bounded data frames of the announced length and digest, and one end |
| UploadSet.UnjoinedParks | bins/agent/src/artifact_upload.rs:458-506 | A run that stops at a member has aborted once and not committed, and its abort is detached if and only if that member's reader was never seen to stop; it then reports reconciliation |
| UploadSet.Session.Operate | bins/agent/src/artifact_upload.rs:222-246 | One operation is logged with the answer its tokens, its reply and the controller give, fencing before cancellation before the reply |
| UploadSet.Session.Stage | bins/agent/src/artifact_upload.rs:444-457 | Members are uploaded in manifest order, each once, up to the first that is not uploaded |
| UploadSet.CollectAndUpload | bins/agent/src/artifact_upload.rs:428-531 | Through any world of replies, decisions, tokens and upload outcomes, the run has exactly the log and the report of the ending that world determines |
| UploadSet.UploadAndCommit | bins/agent/src/artifact_upload.rs:444-531 | The same from an accepted begin on |
| UploadSet.EndingsExact | bins/agent/src/artifact_upload.rs:428-531 | The endings listed are exactly those of runs in which a cancelled token stays cancelled: each run has one, and each is reached |
| UploadSet.EndingReached | bins/agent/src/artifact_upload.rs:428-531 | For every possible ending a world is given whose run has it |
| UploadSet.NotBegunEnds | bins/agent/src/artifact_upload.rs:428-443 | A set whose begin was not accepted is never committed, and is aborted once exactly when begin was given up on cancellation |
| UploadSet.BegunEnds | bins/agent/src/artifact_upload.rs:444-531 | A set whose begin was accepted has a commit acknowledged and no abort, or one abort and no commit |
| UploadSet.EndsOnce | bins/agent/src/artifact_upload.rs:428-531 | Over all endings: a begin known accepted ends in an acknowledged commit or one abort, never both, never neither |
| UploadSet.LeftOpenExactly | bins/agent/src/artifact_upload.rs:428-531 | A set the controller took is left with neither an acknowledged commit nor an abort if and only if the reply to its begin was lost to an error |
| UploadSet.LeftOpenRun | bins/agent/src/artifact_upload.rs:428-443 | A begin the controller takes and whose reply times out leaves the set with neither commit nor abort |
| UploadSet.TakenYetFailed | bins/agent/src/artifact_upload.rs:507-531 | A run reports a failure although the controller took its commit if and only if the reply to that commit was not seen; it then has aborted once |
| UploadSet.TakenYetFailedRun | bins/agent/src/artifact_upload.rs:507-531 | Such a run: the commit is taken and its reply times out |
| UploadSet.SuccessIsCommitted | bins/agent/src/artifact_upload.rs:428-531 | Success is reported exactly for the run: begin accepted, every member uploaded once in order, commit acknowledged |
| UploadSet.ReportFromWorld | bins/agent/src/artifact_upload.rs:428-531 | The report from the world alone: begin's answer unless accepted, then the first member not uploaded, then commit's answer; a failed cleanup overrides a refusal and never an error |
| UploadSet.ReportWasSeen | bins/agent/src/artifact_upload.rs:428-531 | Every error reported was seen by an operation or a member; every refusal reported is a member's, a cancellation, or a quota that begin or commit met |
| UploadSet.CancelledWasCancelled | bins/agent/src/artifact_upload.rs:222-246 | A cancellation is reported only where the token was cancelled by then, or a member reported one |
| UploadSet.FencedBeginReported | bins/agent/src/artifact_upload.rs:222-246 | Lost authority, a stop or a cancellation before begin is reported as such, in this order, and otherwise begin's own reply |
| UploadSet.OutcomeMeans | bins/agent/src/artifact_upload.rs:259-376 | Which outcome of a member each combination of reader, preparation, join and receipt gives |
| GitTree.InsertMeaning | scripts/jcomp003/verify-paired.py:84-100 | Insertion fails exactly when a file stands on the way or something stands at or below the path; otherwise it binds that path and changes no other |
| GitTree.NormalUnique | scripts/jcomp003/verify-paired.py:84-100 | Directories without empty ones are determined by the files in them |
| GitTree.EncodeInjective | scripts/jcomp003/verify-paired.py:102-107 | Equal directory bodies list equal entries, or two hashed objects collide |
| GitTree.IdInjective | scripts/jcomp003/verify-paired.py:102-108 | Equal ids mean equal trees, or an explicit collision among the objects hashed for them |
| GitTree.Digest | scripts/jcomp003/verify-paired.py:102-107 | The recursive digest hashes the entries in Git's order, where a directory sorts as its name with a slash |
| GitTree.DecimalExact | scripts/jcomp003/verify-paired.py:98-107 | The size in an object header is the decimal numeral of the length, without leading zero |
| GitTree.OrderIsGits | scripts/jcomp003/verify-paired.py:104-104 | Sorting by the key is sorting by Git's own comparison of names, where a directory's name goes on with a slash and a file's ends |
| GitTree.ListingInGitOrder | scripts/jcomp003/verify-paired.py:102-107 | The entries of every tree object stand in Git's order |
| GitTree.ObjectBytes | scripts/jcomp003/verify-paired.py:102-107 | The bytes of a tree object: header, then for each entry mode, name, NUL and the id of what it names |
| SourceArchive.SourceArchiveTree | scripts/jcomp003/verify-paired.py:70-108 | Answers exactly for acceptable archives, whose paths are admissible, readable and apart and which supply every required file, with the id of the one tree holding exactly the archive's files |
| SourceArchive.PathMeans | scripts/jcomp003/verify-paired.py:77-86 | A member's path is what its name spells, trailing slashes aside, and is admitted exactly when no component is `..` or `.git` |
| SourceArchive.LeafMeans | scripts/jcomp003/verify-paired.py:87-100 | The mode and the blob object with which a file or link enters the tree, and which members can be read |
| SourceArchive.TreeUnique | scripts/jcomp003/verify-paired.py:70-108 | Archives with the same files have the same tree |
| SourceArchive.OrderIrrelevant | scripts/jcomp003/verify-paired.py:70-108 | Shuffling the members changes neither acceptance nor the id |
| SourceArchive.IdStandsForFiles | scripts/jcomp003/verify-paired.py:70-108 | The same files give one id; one id means the same paths, modes and contents, or an explicit hash collision |
| SourceArchive.NulNameAmbiguous | scripts/jcomp003/verify-paired.py:70-108 | With a NUL in a name, two accepted archives with different files have one tree object and one id |
| Merge.LinesKeepBytes | scripts/jcomp003/verify-paired.py:167-169 | Splitting a stream into lines drops no byte |
| Merge.LinesExact | scripts/jcomp003/verify-paired.py:167-169 | The lines are the one cutting of the stream after each terminator, `\r\n` being one, and nowhere else |
| Merge.OneLine | scripts/jcomp003/verify-paired.py:167-169 | A text without terminator, alone or followed by `\n`, `\r` or `\r\n`, is one line |
| Merge.Advance | scripts/jcomp003/verify-paired.py:171-178 | The new position set is exactly where a merge can stand after this line |
| Merge.MergedExact | scripts/jcomp003/verify-paired.py:165-181 | True exactly when the combined lines are an order-preserving merge of the two streams' lines, and then its bytes merge theirs |
| Merge.InterleavesExact | scripts/jcomp003/verify-paired.py:165-181 | An order-preserving merge is exactly a way of giving every line a side so that each stream is what its side took |
| Merge.PassesThrough | scripts/jcomp003/verify-paired.py:165-181 | Every merge passes, after any number of lines, through a merge of prefixes |
| Merge.BytesInterleave | scripts/jcomp003/verify-paired.py:165-181 | A merge of lines is a merge of their bytes: none lost, none reordered |
| TraceShells.TraceShells | scripts/jcomp003/verify-paired.py:189-227 | The single pass reports what joining all split records first and reading the whole ones afterwards would, failures included |
| TraceShells.AttachExits | scripts/jcomp003/verify-paired.py:224-227 | Every shell gets its process's exit, and a shell without one fails the trace |
| TraceShells.SplitRecord | scripts/jcomp003/verify-paired.py:198-205 | A record cut in two with other processes between reads like the rejoined record, at the place it resumed, with the time it began |
| TraceShells.RejoinedAsPrinted | scripts/jcomp003/verify-paired.py:202-205 | The rejoined record is the one printed if and only if the cut is not before white space |
| TraceShells.UnmatchedRefused | scripts/jcomp003/verify-paired.py:198-223 | A resumption nothing opened, a second opening by one process, and an opening nothing resumes are each refused |
| TraceShells.WholeTraceJoins | scripts/jcomp003/verify-paired.py:198-205 | A trace in which nothing is cut joins to itself |
| TraceShells.ShellsInOrder | scripts/jcomp003/verify-paired.py:189-227 | The shells are those of the records that start one, in the order of the trace |
| TraceShells.LastExitMeans | scripts/jcomp003/verify-paired.py:206-209 | A process's exit is that of its last exit record |
| TraceShells.ReportFailsExactly | scripts/jcomp003/verify-paired.py:206-227 | A trace of whole records fails exactly when one of them cannot be read or the process of a shell never exits |
| TraceShells.ShellsCarryLastExit | scripts/jcomp003/verify-paired.py:189-227 | Each reported shell keeps its pid, time and arguments and carries the last exit of its process |
| BoardGraph.CycleSearch.Begin | scripts/verify-execution-board.py:389-389 | Marking a ticket grey adds it to the open path and keeps the search's invariant |
| BoardGraph.CycleSearch.Finish | scripts/verify-execution-board.py:393-393 | A finished ticket is ranked above everything it depends on |
| BoardGraph.CycleSearch.Open | scripts/verify-execution-board.py:389-393 | An unseen ticket is finished, and ranked if no cycle was found |
| BoardGraph.CycleSearch.VisitDependencies | scripts/verify-execution-board.py:390-392 | After the loop every dependency is ranked, or a cycle was reported |
| BoardGraph.CycleSearch.Visit | scripts/verify-execution-board.py:380-393 | Visiting keeps the three-colour invariant, only adds reports, and ranks the ticket when there are none |
| BoardGraph.RankedAcyclic | scripts/verify-execution-board.py:378-396 | A graph with a rank falling along every edge has no cycle |
| BoardGraph.IndexOf | scripts/verify-execution-board.py:384-384 | The first position of the ticket on the path |
| BoardGraph.FindCycles | scripts/verify-execution-board.py:378-396 | A cycle is reported if and only if the graph has one, and every report is a closed walk along declared dependencies |
| BoardGraph.Closure.Walk | scripts/verify-execution-board.py:235-239 | Adds only what the ticket reaches, and every addition brings its own successors |
| BoardGraph.Reachable | scripts/verify-execution-board.py:233-243 | Exactly the tickets reached over one or more dependencies, cyclic boards included |
| BoardGraph.ReachableFromAll | scripts/verify-execution-board.py:233-243 | The transitive closure for every ticket |
| BoardRules.RequiredEdges | scripts/verify-execution-board.py:252-318 | No complaint exactly when every undecided pair is allowed, every allowance is needed and, with a repository at hand, no file is named outside backticks |
| BoardRules.UnquotedPaths | scripts/verify-execution-board.py:253-262 | No complaint exactly when no ticket names a file of the repository outside backticks |
| BoardRules.MissingEdges | scripts/verify-execution-board.py:263-295 | No complaint exactly when every pair that shares a boundary, remains and is unordered is allowed |
| BoardRules.MissingFor | scripts/verify-execution-board.py:263-295 | The same for one ticket against the tickets after it |
| BoardRules.StaleAllowances | scripts/verify-execution-board.py:296-317 | No complaint exactly when every allowance excuses a pair of tickets that still needs it |
| BoardRules.AllowanceExact | scripts/verify-execution-board.py:263-318 | On an accepted board a pair with a remaining ticket is allowed if and only if the two share a boundary and neither reaches the other |
| BoardRules.AllowanceMeans | scripts/verify-execution-board.py:263-318 | The same with nothing left to look up: a common token, or one family with both remaining, and no path of dependencies either way |
| BoardRules.FamilyMeans | scripts/verify-execution-board.py:278-281 | A ticket's family is its name up to the last hyphen |
| BoardTopology.CheckTopology | scripts/verify-execution-board.py:403-513 | No complaint exactly when every lane row is in order and the lanes list each remaining ticket once and nothing else; the classified tickets are those listed |
| BoardTopology.TopologyCheck.ClassifyLane | scripts/verify-execution-board.py:467-495 | One lane is added to the classification, with a complaint exactly if it breaks a lane rule |
| BoardTopology.TopologyCheck.CheckSerial | scripts/verify-execution-board.py:481-487 | A serial lane is complained of exactly when a ticket does not depend on the one before it |
| BoardTopology.TopologyCheck.ReadRow | scripts/verify-execution-board.py:424-467 | One row's lanes are classified, malformed rows being complaints |
| BoardTopology.TopologyCheck.ReadTable | scripts/verify-execution-board.py:404-424 | All rows of a lane table are read, and a table that is not a lane table is a complaint |
| BoardTopology.LaneOfPartition | scripts/verify-execution-board.py:488-513 | A lane of an accepted board names remaining tickets, each once |
| BoardTopology.AcceptedRow | scripts/verify-execution-board.py:424-495 | On an accepted board a row has as many cells as its header and, by its class, one ticket, several, a chain of dependencies, or none that remains |
| BoardTopology.ChainReaches | scripts/verify-execution-board.py:481-487 | Adjacent dependencies make every later ticket of a chain reach every earlier one |
| BoardTopology.SerialRunsAsListed | scripts/verify-execution-board.py:403-513 | In a serial lane of an accepted board each later ticket depends on each earlier one, and any order of the remaining work that respects dependencies has done the earlier one first |
| BoardRows.RowRoundTrip | scripts/verify-execution-board.py:65-70 | A row written with pipes escaped reads back cell for cell, whatever pipes and backslashes the cells hold |
| BoardRows.SpacedRowReads | scripts/verify-execution-board.py:68-70 | The cells read do not depend on the white space around them, any kind and any amount; a cell that ends in a backslash needs some on its right |
| BoardStatuses.ReadBoard | scripts/verify-execution-board.py:359-368 | No repeat is reported exactly when each ticket has one line, and then the map holds exactly what the lines state |
| BoardStatuses.ReadFromUnique | scripts/verify-execution-board.py:359-368 | The lines determine the map |
| BoardStatuses.TicketIdMeans | scripts/verify-execution-board.py:52-52 | A ticket id is a capital, then one or more capitals, digits and hyphens |
| BoardStatuses.WrittenRowStates | scripts/verify-execution-board.py:68-70 | A written row states a ticket if and only if it has an id, one of the five statuses and two cells more |
| BoardStatuses.WrittenRowLooks | scripts/verify-ticket-closure-receipts.py:503-587 | To the closure verifier any written row with an id and a status counts as a ticket, and only one of four cells can be read |
| BoardStatuses.Tables | scripts/verify-ticket-closure-receipts.py:474-500 | The scan finds the tables in order, each with its rows up to the first line that is none |
| BoardStatuses.TablesWhole | scripts/verify-ticket-closure-receipts.py:474-500 | Every table found starts at a row with a separator under it and runs to the last row in one piece |
| BoardStatuses.StartsCovered | scripts/verify-ticket-closure-receipts.py:474-500 | No such start lies outside the tables found |
| BoardStatuses.SeparatorMeans | scripts/verify-ticket-closure-receipts.py:420-420 | A separator is white space, colons, pipes and hyphens, at least one, between two pipes |
| BoardStatuses.TicketTableMeans | scripts/verify-ticket-closure-receipts.py:503-587 | A table is a ticket table exactly when its header starts with `Ticket` |
| BoardStatuses.ReadStatuses | scripts/verify-ticket-closure-receipts.py:503-587 | No complaint exactly when the board is readable, and then the statuses are those of the ticket rows |
| BoardStatuses.EnoughTickets | scripts/verify-ticket-closure-receipts.py:503-587 | A board read without complaint states as many tickets as its ticket tables have rows, and at least 147 |
| BoardStatuses.VerifiersAgree | scripts/verify-ticket-closure-receipts.py:503-587 | If the closure verifier reads the board without complaint, the line-by-line reading gives each ticket one line and the same map |
| BoardStatuses.ReadBoth | scripts/verify-execution-board.py:359-368 | Both readers on one board: a clean closure reading means no repeats and equal maps |
| Ledger.CheckLedger | scripts/verify-ticket-closure-receipts.py:965-1012 | No complaint exactly when both ledgers are their baselines, are disjoint, and hold only closed tickets that still need them |
| Ledger.Account | scripts/verify-ticket-closure-receipts.py:1124-1151 | Debt is reported exactly for the open tickets in the debt ledger, each once, and any open ticket outside it is a complaint |
| Ledger.Reconcile | scripts/verify-ticket-closure-receipts.py:1023-1154 | The accounting accepts exactly under its conditions, with the debts counted |
| Ledger.GatherReceipts | scripts/verify-ticket-closure-receipts.py:1045-1057 | The receipted tickets are the closed ones with a receipt free of defects, and any defect is a complaint |
| Ledger.CheckAttributions | scripts/verify-ticket-closure-receipts.py:1066-1102 | No complaint exactly when every attribution names a closed ticket and a document that records it |
| Ledger.Verify | scripts/verify-ticket-closure-receipts.py:1015-1163 | From the lines of the board to the verdict: no error exactly when the board is readable and receipts, attributions, ledgers and pinned closures are in order for the statuses it states; the debt then reported is exactly the two debt ledgers |
| Ledger.AcceptedAccounts | scripts/verify-ticket-closure-receipts.py:1015-1163 | On acceptance the closed tickets split, per obligation, into satisfied, exempt and debt; attributions are exactly the reviewed ones; ledgers are their baselines; what is owed is the two debt ledgers; strict acceptance leaves none |
| Ledger.InOrderExact | scripts/verify-ticket-closure-receipts.py:1015-1163 | Ticket by ticket: everything is in order if and only if the ledgers are their baselines, nothing else is complained of, the tickets `DONE` on the board are the pinned ones, and each of these has exactly one of receipt, exemption and debt, and exactly one of recorded attribution, exemption and debt |
| CorpusManifest.ManifestEntries | scripts/verify-jenkins-corpus.py:80-88 | Parses a manifest, or fails on a malformed or repeated line |
| CorpusManifest.AcceptedClass | scripts/verify-jenkins-corpus.py:82-82 | The accepted names, letter by letter: letters, digits, underscore, dot, slash, plus and hyphen, at least one |
| CorpusManifest.DigestMeans | scripts/verify-jenkins-corpus.py:82-82 | A digest is 64 of the digits `0` to `9` and `a` to `f` |
| CorpusManifest.LineEnds | scripts/verify-jenkins-corpus.py:83-83 | A line ends at any of the ten line breaks, and `\r\n` is one |
| CorpusManifest.ManifestGives | scripts/verify-jenkins-corpus.py:91-113 | A manifest written from names without line breaks gives each covered file its digest and nothing else |
| CorpusManifest.CoveredGives | scripts/verify-jenkins-corpus.py:105-111 | Whatever other names hold, a covered file whose name holds no line break has its own line |
| CorpusManifest.ManifestRoundTrip | scripts/verify-jenkins-corpus.py:80-113 | For every tree, the written manifest parses back to the digests of the covered files if and only if every covered name is in the accepted class |
| Disk.PlainRead | scripts/verify-jenkins-corpus.py:98-104 | A name as a walk spells it is read exactly where it stands below the root |
| Disk.BundleNames | scripts/verify-jenkins-corpus.py:71-77 | Every file below the root is in the bundle under its relative name |
| Disk.ReadableCompatible | scripts/verify-jenkins-corpus.py:98-104 | Names that are all read on one disk never need one path to be both file and folder |
| CorpusSeal.Root.Seal | scripts/verify-jenkins-corpus.py:91-113 | Writes the manifest of the present tree exactly when it may: never over one, on replacement only with every unnamed entry intact, without links or anything in the temporary's place; a failure changes nothing |
| CorpusSeal.Root.Reseal | scripts/verify-jenkins-corpus.py:323-329 | Happens exactly when every named path is listed and nothing else has changed; with none named it may also write a first manifest |
| CorpusSeal.Root.VerifyManifest | scripts/verify-jenkins-corpus.py:116-125 | Passes exactly when the manifest parses to the digests of the covered files, without links |
| CorpusSeal.StepKeeps | scripts/verify-jenkins-corpus.py:91-113 | One edit, seal or reseal keeps every listed name of a covered file, with its digest unless the reseal names it |
| CorpusSeal.SealedForever | scripts/verify-jenkins-corpus.py:91-113 | Over any run, a listed name of a covered file never leaves the manifest and keeps its digest until a reseal names it, whatever other names hold |
| CorpusSeal.SealThenVerify | scripts/verify-jenkins-corpus.py:91-125 | For every tree, a manifest just written verifies if and only if every covered name is in the accepted class |
| CorpusSeal.LeavesExactly | scripts/verify-jenkins-corpus.py:80-113 | A sealed path stays on whatever disk a reseal is allowed if and only if its name holds no line break, or the manifest does not parse, or its names cannot all be files of one disk |
| CorpusSeal.BrokenNameLeaves | scripts/verify-jenkins-corpus.py:80-113 | A file named with a line break, replaced by two plain files with the promised bytes, is dropped by a reseal that names nothing |
| PercentDecode.PercentDecodeFixedPoint | scripts/scan-percent-encoded-markers.py:25-35 | Gives the fixed point of decoding when eight passes reach it, and the scan error otherwise |
| PercentDecode.ProbeDepth | scripts/scan-percent-encoded-markers.py:67-90 | A probe of any depth over an escape-free text takes exactly that many passes back to it |
| PercentDecode.ProbeComesBack | scripts/scan-percent-encoded-markers.py:67-90 | A probe decodes to its text if and only if the text holds no escape itself |
| PercentDecode.ContainsMarker | scripts/scan-percent-encoded-markers.py:55-64 | The verdict is whether a spelling of a marker occurs in the fixed point, case folded where the spelling says so |
| PercentDecode.SelfTestHolds | scripts/scan-percent-encoded-markers.py:67-90 | For every marker and depth: an escape-free spelling is found through up to eight layers and refused beyond |
| PercentDecode.FoundIsPlain | scripts/scan-percent-encoded-markers.py:25-64 | Whatever the nesting, a spelling found in a decoded value, exactly or in any case, holds no escape |
| PercentDecode.DecodesLayer | scripts/scan-percent-encoded-markers.py:25-35 | One pass undoes any layer that encodes each percent sign and any other characters |
| PercentDecode.EscapeMeans | scripts/scan-percent-encoded-markers.py:25-35 | An escape decodes to the byte its two digits spell, and the rest is decoded after it |
| PercentDecode.HexDigitsMean | scripts/scan-percent-encoded-markers.py:25-35 | A hexadecimal digit stands for the same value in either case |
| PercentDecode.LayersKeepVerdict | scripts/scan-percent-encoded-markers.py:25-64 | Layers that change something add one pass each, never move the fixed point, and so never change a verdict within eight passes |
| WindowsPaths.FirstUnsafePath | scripts/windows-agent-impact.py:347-390 | Nothing is returned exactly when all paths are safe to check out together, in whatever order they are visited; what is returned is one of them |
| WindowsPaths.ClashExact | scripts/windows-agent-impact.py:371-390 | Two paths clash if and only if, case aside, they are one file spelled twice, share a directory spelled twice, or one is a directory of the other |
| WindowsPaths.WithinExact | scripts/windows-agent-impact.py:300-305 | A path is within a directory if and only if its first components are the directory's, case aside |
| WindowsPaths.PartsMean | scripts/windows-agent-impact.py:353-353 | The parts of a path are its components after the root it starts from: none, one slash, or exactly two |
| WindowsNames.SafetyIgnoresCase | scripts/windows-agent-impact.py:319-370 | Whether a component is safe does not depend on the case it is spelled in |
| WindowsNames.DeviceNamesUnsafe | scripts/windows-agent-impact.py:354-365 | A device name is unsafe in any case, with spaces after it and with any extension |
| WindowsNames.ShortNamesUnsafe | scripts/windows-agent-impact.py:319-333 | The short names of Git's control files, `~1` to `~4`, are unsafe |
| WindowsNames.FallbackNamesUnsafe | scripts/windows-agent-impact.py:335-345 | So are the fallback names: a shortened prefix, a tilde and a number |
| WindowsNames.FlawsUnsafe | scripts/windows-agent-impact.py:356-366 | A reserved, control or non-ASCII character anywhere, a dot or space at the end, or a length above 255 makes a component unsafe |
| WindowsNames.OrdinarySafe | scripts/windows-agent-impact.py:353-370 | A name of letters, digits, underscores and hyphens is unsafe if and only if it is too long or a device name |
| WindowsPaths.VisitDirectories | scripts/windows-agent-impact.py:372-382 | The ancestors of a path are recorded with their spelling, or the whole set is unsafe |
| WindowsPaths.SafeDownwards | scripts/windows-agent-impact.py:347-390 | Every subset of a safe set of paths is safe |
| WindowsPaths.Classify | scripts/windows-agent-impact.py:393-425 | The Windows run is required exactly under the rule's conditions on paths, directories and policies |
| WindowsPaths.MorePathsStillRun | scripts/windows-agent-impact.py:393-425 | Adding changed paths never turns a required run into a waiver |
| WindowsPaths.WaivedExact | scripts/windows-agent-impact.py:393-425 | The run is waived if and only if the paths check out safely, none is a fixed one or below a watched directory, case aside, and neither closure nor policy moved |

## Left out

- SourceArchive.IdStandsForFiles: requires member names free of NUL, as tar header names are; extended headers can carry others, and `SourceArchive.NulNameAmbiguous` shows what happens then.
- SourceArchive.SourceArchiveTree: the nested dictionary filled in place is a value that each insertion replaces, and the hexadecimal spelling of the final id is not modelled.
- TraceShells.TraceShells: which bodies start a shell and which exit is a parameter, so the regular expressions and the decoding of traced strings are not modelled.
- BoardTopology.CheckTopology: the extraction of ticket ids from a cell is a parameter, and the dispatch table and section headings are not modelled.
- BoardRules.RequiredEdges: each ticket's boundary tokens and bare paths are data, so the regular expressions and stop list are not modelled.
- BoardRules.StaleAllowances: an allowance naming one ticket twice makes the script raise an error, which counts here as a complaint.
- PercentDecode.ContainsMarker: the spellings of a marker are a parameter, so base64 and hexadecimal forms are not modelled.
- WindowsPaths.Classify: each revision's package closure and root policy are data.
- Ledger.Verify: a receipt's defects, an attribution's document and the complaints about views and citations are data, so the text of those documents is not modelled.
- CorpusSeal.LeavesExactly: the disk holds no links outside the root, so a manifest name that leaves the root through one is not modelled.
- CorpusSeal.SealedForever: edits change the tree and not the manifest file itself; removing the manifest by hand and sealing afresh is outside these runs.
- Walking.Collect: cancellation during the walk and errors while listing a directory are not modelled; the tree does not change while it is walked.
- UploadSet.CollectAndUpload: starts at the begin operation; the feature flag, the early active-reader test and the bound on refusal text are not modelled.
- Custody.OneReaderInCustody: each atomic operation is one step of an interleaving; memory orderings weaker than that are not modelled.
- Reopening a file below the workspace by descriptor, and the identity checks there.
- The controller's database and object store behind the upload stream.
- The other checks of the paired-run and corpus scripts, which compare fields of fixed documents.
