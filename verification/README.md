# Crabcloud, modelled and proved in Dafny

Crabcloud is a file-sync server written in Rust. This project models the parts of it that keep state
consistent over time - the file cache, its population on a miss, the trashbin, deletion through shares, the
mail queue, cached settings, rate limiting, upload ids, the property store, the activity log, the search index
and the XML envelope - and proves properties of the models. `dafny verify dfyconfig.toml` checks everything.

## How it is laid out

- **Paths.** `StoragePaths` relates the program's path strings to lists of segments; every proof about a tree
  uses segments. `LikePattern` says what the SQL pattern `dir/%` selects. `PlainTree` and `Sums` hold the plain
  tree, whose directory sizes are recomputed from scratch, and finite sums.
- **File cache.** `FileCacheSpec` gives each storage event as a function on the table of rows; `FileCaches` is
  the class whose methods update the table step by step as the program does, each proved equal to its function.
  A move rewrites the rows its LIKE pattern selects, one by one; `FileCacheRewrites` proves that this is the
  substitution of the leading path when the pattern selects just the rows below (`MovesCleanly`), `FileCacheStrays`
  what happens when it does not. `FileCacheRefinement` proves that runs of events refine the plain tree,
  `FileCacheEtags` what an unchanged etag of a directory means, `FileCacheWrites` what each event writes into which
  rows and what an unchanged etag of a single row means, `FileCacheMoves` what a move does and undoes. One database
  dialect stands for all three; `fold` says whether LIKE ignores ASCII case (sqlite does).
- **Populate.** `Populate` is the recursive cache fill run by one task, with any set of database and storage
  operations failing, `PopulateProtocol` the lock protocol with any number of tasks, one atomic step at a time,
  while other events insert and evict rows.
- **Trash.** `Disks` is a disk with a schedule of faults: statements about every schedule are statements about
  every failure path. The schedule also covers database statements. `TreeCopy` is the copy with an explicit stack,
  `TrashNames` the suffixes and restored names, `TrashSpec` the service's operations as functions, `TrashRuns` whole
  histories of them, `TrashService` the service itself: each of its methods, failing or not, is shown to be such a
  history (`Reaches`). `ShareDelete` has the two deletions through a share, which are histories too.
- **The rest.** `MailSystem` (state machine), `MailOutcomes` (what became of a mail), `MailProgress` (when the queue
  moves on) and `MailWorkers` (the queue and the worker's loop); `AppConfigs` (service, cache, and interleavings of
  one setting); `RateLimiters`; `Mounts` and `Base64` (resolution and upload ids); `Properties`, with `UniqueIndex`
  for an UPDATE that gives rows new keys one by one; `Activities`; `SearchIndex`; `XmlEnvelope`. `Wrappers`,
  `Decimals` and `Texts` are helpers.

I/O, clocks, randomness and the backend's answers are parameters. Etags drawn by the cache come from a counter
that never repeats; the hash of a path is taken to be injective, so rows are keyed by their path.

## Where the code does not do what it is meant to do

Each of these is a lemma with the exact condition, or with an execution that shows it.

- Re-creating a cached directory resets its size to 0: that directory and all its ancestors fall short by its old
  size, so the sizes stay right exactly if it was zero (`RecreatedDirectoryShortfall`, `RecreatedDirectoryIff`). It
  also gives the directory the event's etag, which local storage derives from time and inode: when that is an etag
  the directory had before, equal etags mean equal subtrees exactly if it was empty of bytes, is as old as the event
  says, and has below it what it had then (`RecreatedSameIff`). A file written in between goes unnoticed
  (`RecreationHidesChange`). For single rows, files too, the etag can be trusted throughout a run exactly if no write
  brings back an etag of its start for something else (`TruthfulIff`).
- A stat of a directory that is not cached answers the backend's size for it, and the next one 0: the two agree
  exactly if that size is 0 (`StatTwice`).
- Copying a directory inserts its top row only, so it is complete exactly for a source with nothing below it
  (`CopiedDirectoryIff`). A late root row gets size 0 and is right exactly for an empty tree (`RootSizes`).
- `LIKE 'from/%'` is the segment-prefix test exactly if the name has no `%`, no `_` and, on sqlite, no letter
  (`LikeIsExactIff`); the source describes the pattern as a plain prefix test. Moving `a_b` takes a file of the
  sibling `axb` along and leaves the id and etag of `axb` as they were, and the same holds for every other such name
  (`WildcardMoveTakesSibling`): etags survive every move of a directory, and sizes, paths and parents stay right,
  exactly if its name is literal in that sense (`EtagsSurviveIff`, `RefinementSurvivesIff`). The theorems about
  moves ask that the pattern selects just the rows below in the table at hand (`MovesCleanly`).
- Removing a lock from the map after checking its count is called racy but bounded in the source; the two steps let
  two tasks populate one path at once, or again (`RaceCollides`, `RaceReapplies`). With check and removal in one step
  the first cannot happen (`ExclusiveIffAtomic`). Events that bypass the locks can still insert a path between the
  second look and the apply (`InsertedThenApplied`): what is applied is fresh exactly if none did
  (`AtomicApplyIsFresh`).
- The trash suffix is computed from a row count. With the suffixes 1 to n of a second in use, restoring or purging
  the k-th makes the next deletion of that second collide exactly if k < n (`RemovalCollidesIff`,
  `RemovalBreaksFreshness`), and the rename then silently replaces the earlier entry before the row is refused
  (`CollisionReplaces`).
- The doc comment of the share-mount deletion says directories are deleted outright; the code copies
  them to the trashbin first, and the model follows the code.
- A worker slower than five minutes loses its claim and both workers send (`ReclaimExclusiveIff`,
  `SecondClaimant`). On sqlite, where a claim takes two statements, several workers can exceed the retry limit with a
  stale count (`StaleAttemptsExceedLimit`): the limit holds throughout a run exactly if every retry recorded carries
  the row's count or finds room left (`LimitRunIff`), and always if claims are fresh (`FreshClaimsBounded`), as they
  are in one transaction (`OneTransactionBounded`).
- A due mail of unknown type ends the claim that meets it. A turn sends something exactly if something is due and each
  such mail has a full batch of due mails before it (`AllKnownIff`, `Cycle`). Once the first such mail is due, no mail
  at all is ever sent again exactly if fewer than a full batch before it are still open (`StarvedIff`).
- An empty setting is cached as "missing" (`DecodeIff`). Two application names can share a cache key exactly if one
  continues the other with a colon (`CacheKeysCollide`). A fill that was overtaken by a write serves the old value
  until it expires (`LateFill`): the cache is up to date throughout a run exactly if no write of another value finds
  an entry and no fill brings another value than the current one (`CurrentIff`), as a fill from a fetch after the
  last write never does (`NewFillFits`).
- The retry hint of the rate limiter is cut to whole seconds; waiting that long is enough exactly if the rest of
  the window is a whole number of seconds or less than one (`RetryAfterIff`).
- Renaming properties hands the database a byte count where it counts characters, and selects rows by the same
  LIKE pattern. For the rows at hand it substitutes the leading path exactly if the old path is ASCII or has nothing
  below it, and the pattern selects no other row that the cut would change (`RenameSubstitutesIff`); `a_b` to `z`
  takes `axb/c` along (`RenameTakesSibling`). The unique index is checked row by row, so that a rename into the own
  subtree can fail or not depending on the order of the rows (`OrderDecides`); a statement can fail exactly if a row
  is given a key that another row has or is given (`MayFailIff`). Copying is right for every name (`CopySubstitutes`).
- A batch of search rows equals row-by-row upserts exactly if no key repeats within a chunk (`ChunkIsEachIff`).
- An activity event that comes out of order moves a row's last-seen time back, so that the next event can open a
  second row inside the window (`LateEventSplits`): a delivery keeps the rows apart exactly if it opens a row or is
  not earlier than the latest time of the row it meets (`DeliverTidyIff`).
- The XML printer uses object keys as tag names: the tags of the document match exactly if all keys are names
  (`EnvelopeReads`).

## Model

| member | source | states |
|---|---|---|
| StoragePaths.New | crates/crabcloud-storage/src/path.rs:25-57 | the constructor's loops give exactly the verdict of `Parse` for every raw string, errors included |
| StoragePaths.ParseIff | crates/crabcloud-storage/src/path.rs:25-57 | accepted strings are exactly the renderings of legal paths with any number of trailing slashes, within the byte limit |
| StoragePaths.ParentAndBasename | crates/crabcloud-storage/src/path.rs:73-88 | the string operations compute the parent and last segment of the path they render |
| StoragePaths.JoinAppends | crates/crabcloud-storage/src/path.rs:90-96 | joining appends the child's segments |
| StoragePaths.RenderInjective | crates/crabcloud-storage/src/path.rs:22-57 | distinct legal paths have distinct texts |
| StoragePaths.StartsWithIsBelow | crates/crabcloud-filecache/src/propagate.rs:88-110 | the string test for `dir/` is the proper segment-prefix test |
| LikePattern.LikeIsExactIff | crates/crabcloud-filecache/src/propagate.rs:88-142 | LIKE `dir/%` selects exactly the paths below dir, for every path, if and only if dir's name is literal |
| LikePattern.WildcardSelectsSibling | crates/crabcloud-filecache/src/propagate.rs:88-142 | a concrete sibling that the pattern selects wrongly |
| FileCacheSpec.AncestorsPresent | crates/crabcloud-filecache/src/propagate.rs:1283-1324 | rows whose parent ids name the row at the parent path are closed under non-root ancestors |
| FileCacheSpec.ResolvedWalk | crates/crabcloud-filecache/src/propagate.rs:1017-1058 | once the parent resolves, the walk up the ancestors finds every row it needs |
| FileCacheSpec.CascadeIsSubtree | crates/crabcloud-filecache/src/propagate.rs:434-467 | cascading along parent ids removes exactly the doomed rows |
| FileCacheSpec.CascadeBelowNonRoot | crates/crabcloud-filecache/src/propagate.rs:434-467 | for a non-root row these are exactly the rows at or below its path |
| FileCacheSpec.CascadeRootIff | crates/crabcloud-filecache/src/propagate.rs:434-467 | deleting the root row empties the table exactly if every top-level row names it as parent |
| FileCaches.FileCache.PropagateAncestors | crates/crabcloud-filecache/src/propagate.rs:1017-1058 | the ancestor loop adds the delta and a fresh etag to every ancestor, or reports the first missing one |
| FileCaches.FileCache.CascadeDelete | crates/crabcloud-filecache/src/propagate.rs:434-467 | repeated removal of children reaches the least fixed point of the foreign-key cascade |
| FileCaches.FileCache.UpsertLeaf | crates/crabcloud-filecache/src/propagate.rs:805-873 | inserts or updates one row, keeping its id, with every other column from the arguments, and returns the old size |
| FileCaches.FileCache.ApplyPut | crates/crabcloud-filecache/src/propagate.rs:341-433 | the whole new state and outcome of a written file or created directory; once accepted the row has the event's kind, size, etag and time |
| FileCaches.FileCache.ApplyDeleted | crates/crabcloud-filecache/src/propagate.rs:434-518 | the whole new state and outcome of a deletion |
| FileCaches.FileCache.ApplyCopied | crates/crabcloud-filecache/src/propagate.rs:642-803 | the whole new state and outcome of a copy, errors rolled back |
| FileCaches.FileCache.RewriteDescendants | crates/crabcloud-filecache/src/propagate.rs:1148-1189 | visits the selected rows in some order, each once, and ends as rewriting them in that order does: complete, or at the first text that does not parse or path another row has |
| FileCaches.FileCache.ApplyMoved | crates/crabcloud-filecache/src/propagate.rs:520-640 | whatever the pattern selects, an outcome of `MoveOutcome`, exact but for the order of the rows; when it selects just the rows below, the whole new state; any failure leaves the table as it was |
| FileCaches.FileCache.ShiftSizes | crates/crabcloud-filecache/src/propagate.rs:561-567 | subtracting along the old chain and adding along the new one, or touching only the common parent |
| FileCacheRewrites.DescendantParses | crates/crabcloud-filecache/src/propagate.rs:1165-1186 | the new path text of a descendant parses to the substituted path unless it is too long |
| FileCacheRewrites.RewriteNext | crates/crabcloud-filecache/src/propagate.rs:1148-1189 | when the new paths are free and distinct, no rewritten path is held by another row, at any point of the loop, in any order |
| FileCacheRewrites.FreeRewriting | crates/crabcloud-filecache/src/propagate.rs:1148-1189 | so every order ends with all rows at their new paths and nothing else changed, or fails on a path that does not parse |
| FileCacheRewrites.CleanOutcome | crates/crabcloud-filecache/src/propagate.rs:520-640 | when the pattern selects just the rows below, the row-by-row rewriting has one outcome: the substituted subtree with both chains adjusted |
| FileCacheStrays.WildcardMoveTakesSibling | crates/crabcloud-filecache/src/propagate.rs:520-640 | for every name that is not literal, a table in which every outcome of the move carries off a sibling's file and leaves the sibling's row, etag included, as it was |
| FileCacheStrays.EtagsSurviveIff | crates/crabcloud-filecache/src/propagate.rs:520-640 | in every table and for every target equal etags still mean equal subtrees after a move of a directory if and only if its name is literal for LIKE |
| FileCacheStrays.RefinementSurvivesIff | crates/crabcloud-filecache/src/propagate.rs:520-640 | in every table and for every target every outcome of a move is the plain tree's, with all invariants, if and only if the name is literal |
| FileCacheRefinement.StepRefines | crates/crabcloud-filecache/src/propagate.rs:22-49 | each admissible event is refused by both the table and the plain tree, or taken by both with related results, keeping all invariants |
| FileCacheRefinement.RunRefines | crates/crabcloud-filecache/src/propagate.rs:22-49 | over any admissible run every row's size is the total of the file sizes below it and never negative |
| FileCacheRefinement.MovedRefines | crates/crabcloud-filecache/src/propagate.rs:520-640 | a move, whatever the common ancestors, is renaming the subtree in the plain tree |
| FileCacheRefinement.RecreatedDirectoryShortfall | crates/crabcloud-filecache/src/propagate.rs:355-390 | what each row's size is after a directory is created again |
| FileCacheRefinement.RecreatedDirectoryIff | crates/crabcloud-filecache/src/propagate.rs:355-390 | re-creation keeps the sizes right if and only if the old size was zero |
| FileCacheRefinement.RootSizes | crates/crabcloud-filecache/src/propagate.rs:1283-1324 | a root row inserted late is right if and only if the tree is empty of bytes |
| FileCacheRefinement.CopiedDirectoryIff | crates/crabcloud-filecache/src/propagate.rs:642-703 | the copied paths are complete if and only if the source has nothing below it |
| FileCacheRefinement.DeletedRootIff | crates/crabcloud-filecache/src/propagate.rs:434-518 | deleting the root empties the table if and only if every top-level row is linked to it |
| FileCacheWrites.PutEffect | crates/crabcloud-filecache/src/propagate.rs:341-433 | accepted if and only if the parent has a row or is the root; then the row has the event's kind, size, etag, time, name and parent, under its old id or an unused one; exactly the rows above gain the delta, the time and etags of their own; nothing else changes |
| FileCacheWrites.CopyEffect | crates/crabcloud-filecache/src/propagate.rs:642-803 | a copy has the source's kind and size, a new id, a new etag and the event's time, and the rows above change likewise |
| FileCacheWrites.DeleteEffect | crates/crabcloud-filecache/src/propagate.rs:434-518 | a deletion leaves just the rows the cascade spares; those above lose the size and get the time and etags of their own, the others stay |
| FileCacheWrites.TruthfulIff | crates/crabcloud-filecache/src/lib.rs:3-8 | throughout a run of clean moves and any other events the same row, file or directory, with the same etag has the same kind, size and time if and only if every write onto an existing row brings an etag the row did not have at the first moment, or what the row was then |
| FileCacheWrites.TruthfulStepIff | crates/crabcloud-filecache/src/propagate.rs:341-433 | the same for one event of any kind |
| FileCacheWrites.EqualEtagMeansEqualRow | crates/crabcloud-filecache/src/lib.rs:3-8 | so over a run whose writes reuse no etag of its start |
| FileCacheEtags.EqualEtagMeansEqualSubtree | crates/crabcloud-filecache/src/lib.rs:3-8 | same directory id and same etag at two moments of a run mean identical subtrees, even if the directory moved; moves select just the rows below, and a directory created again with the etag of the first moment is found as it was then |
| FileCacheEtags.FaithfulIff | crates/crabcloud-filecache/src/lib.rs:3-8 | throughout a run of clean moves and any other events equal etags mean equal subtrees if and only if every directory created again gets an etag it did not have at the first moment, or is found as it was then |
| FileCacheEtags.FaithfulStepIff | crates/crabcloud-filecache/src/propagate.rs:341-433 | the same for one event of any kind |
| FileCacheEtags.RecreatedSameIff | crates/crabcloud-filecache/src/propagate.rs:355-390 | a directory created again with an earlier etag has the earlier subtree if and only if that one had size zero, the event's time, and the same content below |
| FileCacheEtags.RecreationHidesChange | crates/crabcloud-filecache/src/propagate.rs:355-390 | for every directory: a file is written below it and the directory created again with the etag it had; id and etag are as before, the subtree is not |
| FileCacheEtags.RunExplained | crates/crabcloud-filecache/src/propagate.rs:1017-1058 | over any run whose moves are clean a directory row was stamped since, is new, was created since with the etag it has, or is an old one with an identical subtree |
| FileCacheMoves.MovedKeys | crates/crabcloud-filecache/src/propagate.rs:534-568 | a move that selects just the rows below maps the paths one to one onto the substituted paths |
| FileCacheMoves.MovedRow | crates/crabcloud-filecache/src/propagate.rs:534-568 | in such a move ids and contents travel along; only the chains' sizes change, with the move's time and new etags, and the top row's name and parent |
| FileCacheMoves.MovedParent | crates/crabcloud-filecache/src/propagate.rs:520-568 | the moved row hangs below the row now at its parent's path |
| FileCacheMoves.MoveRefused | crates/crabcloud-filecache/src/propagate.rs:520-640 | a refused move changes nothing, and each error has its cause: no source, a taken target, a missing parent, a path too long |
| FileCacheMoves.MoveBackAccepted | crates/crabcloud-filecache/src/propagate.rs:520-568 | the opposite move, if its pattern too selects just the rows below, is always accepted |
| FileCacheMoves.MoveBackRestores | crates/crabcloud-filecache/src/propagate.rs:520-640 | and it restores every path, size, id, name and parent |
| Populate.Populator.Stat | crates/crabcloud-filecache/src/populate.rs:44-123 | with any operations failing: an answer exactly for what is cached or exists when none fails, and it is the cached row's, or else the backend's; afterwards the path has the row made from the backend's answer and its non-root ancestors are cached; an error leaves only existing proper prefixes added, in the state a stat of one of them leaves, with all invariants |
| Populate.RetryCompletes | crates/crabcloud-filecache/src/populate.rs:44-123 | repeating a stat that stopped part-way ends in the tree the first would have reached |
| Populate.Populator.StatTwice | crates/crabcloud-filecache/src/populate.rs:34-123 | a second stat makes no backend call and fails only with its own lookup; its answer is the first one if and only if the path was cached, is a file, or is a directory of size 0 in the backend; otherwise it differs in the size, which is 0 |
| Populate.Populator.List | crates/crabcloud-filecache/src/populate.rs:129-148 | lists exactly the backend's children and caches each, when no operation fails; the error tells a file from a missing path; whatever happens only prefixes and children are added |
| Populate.PopulateTaken | crates/crabcloud-filecache/src/populate.rs:86-116 | applying the fetched entry never fails for a missing ancestor |
| Populate.MissTracks | crates/crabcloud-filecache/src/populate.rs:44-123 | a filled row continues to track the plain tree |
| Populate.PopulatedOnlyPrefixes | crates/crabcloud-filecache/src/populate.rs:86-116 | nothing but existing prefixes of the path is added |
| PopulateProtocol.AtomicCleanupExclusive | crates/crabcloud-filecache/src/populate.rs:54-121 | in every interleaving with one-step cleanup, at most one task is between lock and apply for a path |
| PopulateProtocol.AtomicApplyIsFresh | crates/crabcloud-filecache/src/populate.rs:70-121 | with one-step cleanup, what a task is about to apply is not cached if and only if no other event has inserted it since that task's second look |
| PopulateProtocol.NothingInserted | crates/crabcloud-filecache/src/populate.rs:70-121 | without insertions of a path by others it is never among those |
| PopulateProtocol.InsertedThenApplied | crates/crabcloud-filecache/src/scanner/mod.rs:139-157 | an event that bypasses the locks inserts the path just before it is applied |
| PopulateProtocol.WaitsUpwards | crates/crabcloud-filecache/src/populate.rs:54-100 | a task waits only for the lock of a proper ancestor of every path it holds |
| PopulateProtocol.NoSetDeadlocks | crates/crabcloud-filecache/src/populate.rs:54-121 | in every reachable state every nonempty set of busy tasks has one that waits for no lock held in the set |
| PopulateProtocol.NoDeadlock | crates/crabcloud-filecache/src/populate.rs:54-121 | so while any task is busy some task can move |
| PopulateProtocol.ExclusiveIffAtomic | crates/crabcloud-filecache/src/populate.rs:163-170 | exclusion holds in all runs if and only if the count check and the removal are one step |
| PopulateProtocol.RaceCollides | crates/crabcloud-filecache/src/populate.rs:163-170 | an interleaving in which two tasks populate one path at once |
| PopulateProtocol.RaceReapplies | crates/crabcloud-filecache/src/populate.rs:163-170 | an interleaving in which a cached path is populated again |
| TreeCopy.CopyDirRecursive | crates/crabcloud-trash/src/service.rs:916-967 | terminates; succeeds exactly for a directory of files and directories without a fault; the result is the structural copy; nothing outside changes |
| TreeCopy.CopyEntry | crates/crabcloud-trash/src/service.rs:927-963 | one returned entry: copied, opened, or the reason to stop |
| TrashNames.UniqueSuffixIsFresh | crates/crabcloud-trash/src/service.rs:121-157 | counting gives a suffix no row has, as long as rows were only added |
| TrashNames.InsertKeepsNumbered | crates/crabcloud-trash/src/service.rs:121-157 | and adding the row keeps it so |
| TrashNames.SuffixTakenIff | crates/crabcloud-trash/src/service.rs:121-157 | whatever was added and removed, the counted suffix is taken if and only if a row of the same second has that index |
| TrashNames.RemovalCollidesIff | crates/crabcloud-trash/src/service.rs:121-157 | with n suffixes of a second in use, removing the k-th makes the next one collide if and only if k < n |
| TrashNames.RemovalBreaksFreshness | crates/crabcloud-trash/src/service.rs:121-157 | a table where a removal makes the same suffix be handed out again |
| TrashNames.TrashNameInjective | crates/crabcloud-trash/src/service.rs:86-86 | name and suffix can be read back from the file name in the trashbin |
| TrashNames.CandidatesDistinct | crates/crabcloud-trash/src/service.rs:883-888 | the hundred restore names are pairwise distinct |
| TrashService.Trash.InsertRow | crates/crabcloud-trash/src/service.rs:160-212 | adds the row, or refuses it on a failed statement or a taken name |
| TrashService.Trash.SoftDelete | crates/crabcloud-trash/src/service.rs:62-108 | succeeds exactly when possible and nothing fails, with the whole new state and a row that describes the deletion; on failure nothing moved, or the bytes are stranded complete; always a history of permitted operations |
| TrashService.Trash.SoftDeleteFromReader | crates/crabcloud-trash/src/service.rs:243-318 | exact success condition and state; a failure loses nothing, and an unlinked partial copy leaves no trace |
| TrashService.Trash.SoftDeleteDirectoryFromPath | crates/crabcloud-trash/src/service.rs:347-438 | the same for a tree; the partial copy is removed whole when the cleanup works |
| TrashService.Trash.CopyOrRollBack | crates/crabcloud-trash/src/service.rs:397-412 | a failed copy whose cleanup works leaves the disk exactly as before |
| TrashService.Trash.PickNonCollidingName | crates/crabcloud-trash/src/service.rs:878-899 | the first free candidate; a collision error only if all hundred are taken |
| TrashSpec.FirstFreeIs | crates/crabcloud-trash/src/service.rs:883-898 | the candidate chosen is free and all before it are taken |
| TrashSpec.RestoredBeside | crates/crabcloud-trash/src/service.rs:550-570 | the place is the destination if and only if that is free; in any case it is in the destination's directory, under the first free of its candidate names |
| TrashService.Trash.Restore | crates/crabcloud-trash/src/service.rs:540-634 | exact success condition and state; an explicit destination is the place if nothing is there, else the first free candidate name in its directory; without one the same for the old place; each error has its cause; a failure leaves the row |
| TrashService.Trash.Purge | crates/crabcloud-trash/src/service.rs:638-644 | exact success condition and state; only the entry's own tree can be damaged by a failure |
| TrashService.Trash.PurgeEntry | crates/crabcloud-trash/src/service.rs:657-696 | bytes first, then the row, which stays if anything fails |
| TrashRuns.FreeIff | crates/crabcloud-trash/src/service.rs:81-90 | with rows and files paired, a place in the trashbin is free exactly if no row has that name |
| TrashRuns.StepKeepsPairing | crates/crabcloud-trash/src/service.rs:62-108 | an operation whose two halves both go through keeps rows and trashbin entries in bijection |
| TrashRuns.RunKeepsPairing | crates/crabcloud-trash/src/service.rs:62-760 | and so does a whole history of them |
| TrashRuns.StepKeeps | crates/crabcloud-trash/src/service.rs:62-108 | any operation, failing half-way or meeting a taken suffix included, leaves the rows and trees of all entries it does not touch; the holder of a taken suffix counts as touched |
| TrashRuns.RunKeeps | crates/crabcloud-trash/src/service.rs:62-760 | over any history that does not touch an entry, its row and its tree stay; every method of the service yields such a history, named by its last ensures clause |
| TrashRuns.RestoreReturnsDeleted | crates/crabcloud-trash/src/service.rs:540-634 | after any such history, restoring brings back the deleted tree, at its old path if that is free, and onto no other entry |
| TrashRuns.DeletedPurgeableIff | crates/crabcloud-trash/src/service.rs:657-696 | after any history that leaves it alone a deleted entry has the row that describes it, and can be purged if and only if the deletion recorded its kind |
| TrashRuns.DeleteThenRestore | crates/crabcloud-trash/src/service.rs:62-108 | restoring at once gives back disk and rows, but for the trashbin directory itself |
| TrashRuns.CollisionReplaces | crates/crabcloud-trash/src/service.rs:62-108 | a taken suffix: the holder's tree is replaced and the row refused |
| TrashRuns.DeleteKeepsBytes | crates/crabcloud-trash/src/service.rs:84-90 | the bytes over homes and trashbins stay the same |
| TrashRuns.RestoreKeepsBytes | crates/crabcloud-trash/src/service.rs:567-584 | and so on the way back |
| TrashRuns.CopiedIntoFacts | crates/crabcloud-trash/src/service.rs:389-412 | a staged tree equals its source, which is still there |
| ShareDelete.View.DeleteViaShareMount | crates/crabcloud-fs/src/view.rs:677-743 | success exactly when possible, leaving just the copy, named by a row that describes the deletion; on every failure all that was there is still there; a refused or failed removal takes the copy back unless the cleanup fails too |
| ShareDelete.View.RemoveSource | crates/crabcloud-fs/src/view.rs:714-742 | remove the source or else take the staged copy back |
| ShareDelete.View.DeleteDirectoryViaShareMount | crates/crabcloud-fs/src/view.rs:825-937 | success exactly when possible; on failure the source is complete, or a row names a complete copy; without permission nothing happens |
| ShareDelete.CopySurvives | crates/crabcloud-fs/src/view.rs:885-906 | a partial removal of the source leaves the copy complete |
| MailSystem.BatchStep | crates/crabcloud-core/src/mail_queue.rs:141-190 | every step but an unsafe reclaim keeps one claimant per mail |
| MailSystem.RunExclusive | crates/crabcloud-core/src/mail_queue.rs:141-190 | no mail ever has two claimants, for any number of workers, if only mails whose claimant is gone are reclaimed |
| MailSystem.ReclaimExclusiveIff | crates/crabcloud-core/src/mail_queue.rs:400-429 | a reclaim keeps that if and only if no stuck mail is still held |
| MailSystem.TerminalForever | crates/crabcloud-core/src/mail_queue.rs:278-394 | sent and failed are absorbing over any run |
| MailSystem.FreshClaimsBounded | crates/crabcloud-core/src/mail_queue.rs:141-190 | for any number of workers: if every claim takes the row's count of that moment and only abandoned mails are reclaimed, attempts and sends stay bounded |
| MailSystem.OneTransactionBounded | crates/crabcloud-core/src/mail_queue.rs:192-276 | claims in one transaction are always fresh, so they need no such assumption |
| MailSystem.OneWorkerBounded | crates/crabcloud-core/src/mail_worker.rs:50-115 | any run of one worker, crashes included, keeps the bounds, never reclaims unsafely and claims fresh |
| MailSystem.LimitStepIff | crates/crabcloud-core/src/mail_queue.rs:310-356 | a step keeps the retry limit if and only if a retry it records carries the row's count or finds room left |
| MailSystem.LimitRunIff | crates/crabcloud-core/src/mail_queue.rs:141-356 | so the limit holds throughout a run of any number of workers if and only if no stale count is recorded on a row without room |
| MailSystem.SendsBounded | crates/crabcloud-core/src/mail_worker.rs:88-111 | attempts at most 3 before and 4 after the end; sends at most 4 plus the reclaims |
| MailSystem.MarkedLowersRank | crates/crabcloud-core/src/mail_queue.rs:306-394 | every recorded attempt lowers the number of attempts left |
| MailOutcomes.OutcomeOfRun | crates/crabcloud-core/src/mail_worker.rs:88-113 | in every run of any number of workers the state, the attempts and the due time of each mail follow from the mailer's answers: the last recorded one decides, the others are counted, and a retry waits 60, 300 or 1800 seconds |
| MailOutcomes.SentIff | crates/crabcloud-core/src/mail_worker.rs:88-113 | with one claimant each a mail is sent if and only if an acceptance of it was recorded, and has failed if and only if a permanent answer was, or a transient one that came with three failed attempts |
| MailOutcomes.SpacedOn | crates/crabcloud-core/src/mail_queue.rs:310-356 | a mail that is due only after the wait its last retry set keeps all its attempts that far apart |
| MailProgress.SelectedIff | crates/crabcloud-core/src/mail_queue.rs:150-160 | the select reaches a due mail if and only if fewer than the limit are due before it |
| MailProgress.AllKnownIff | crates/crabcloud-core/src/mail_queue.rs:160-189 | a claim meets no unknown type if and only if every due mail of unknown type has a full batch of due mails before it |
| MailProgress.StarvedIff | crates/crabcloud-core/src/mail_queue.rs:141-190 | with idle workers and a first pending mail of unknown type: once it is due no run sends anything if and only if fewer than a full batch of earlier mails are open |
| MailSystem.SecondClaimant | crates/crabcloud-core/src/mail_queue.rs:396-429 | how a slow claimant gets company |
| MailSystem.StaleAttemptsExceedLimit | crates/crabcloud-core/src/mail_queue.rs:145-190 | a reachable state with four failed attempts still pending |
| MailWorkers.MailQueue.ClaimBatch | crates/crabcloud-core/src/mail_queue.rs:141-190 | claims exactly the due mails in order of id; an error leaves a claimed prefix |
| MailSystem.ClaimAllIs | crates/crabcloud-core/src/mail_queue.rs:160-189 | claiming a batch changes exactly its pending mails |
| MailWorkers.MailQueue.MarkFailedRetry | crates/crabcloud-core/src/mail_queue.rs:310-356 | one attempt more, due after the backoff of the attempts before |
| MailSystem.ReclaimSettles | crates/crabcloud-core/src/mail_queue.rs:400-429 | a reclaim frees exactly the mails claimed more than 300 seconds ago; after it nothing is stuck, a second one does nothing, no attempt is counted or lost, and due is exactly what was due or was stuck and would have been |
| MailWorkers.MailWorker.Fetch | crates/crabcloud-core/src/mail_worker.rs:64-79 | a batch is all the due mails, all of known type; otherwise a statement failed or a due mail has an unknown type |
| MailWorkers.MailWorker.Drain | crates/crabcloud-core/src/mail_worker.rs:80-113 | each claimed mail is handed to the mailer once, in order |
| MailWorkers.MailWorker.Cycle | crates/crabcloud-core/src/mail_worker.rs:52-114 | a turn reclaims every fifth time, then sends exactly the due mails it claimed; unless a statement fails it sends something if and only if something is due and no due mail of unknown type is within reach |
| MailWorkers.MailWorker.Run | crates/crabcloud-core/src/mail_worker.rs:50-115 | the loop's effect is a run of the state machine; finished mails stay and every mail's sends and attempts are bounded; each mail handed over has one answer of the mailer, in order; it is sent if and only if one accepted it, has failed if and only if one gave it up; after a retry it is left alone for its wait |
| AppConfigs.AppConfigService.Get | crates/crabcloud-core/src/appconfig.rs:54-76 | called one at a time: the current value of a setting with that cache key, unless it is empty; so of the setting itself if no other in use shares its key |
| AppConfigs.AppConfigService.Set | crates/crabcloud-core/src/appconfig.rs:80-87 | stores the value and leaves the cache coherent |
| AppConfigs.CacheKeyInjective | crates/crabcloud-core/src/appconfig.rs:48-50 | distinct settings have distinct keys if application names have no colon |
| AppConfigs.CacheKeysCollide | crates/crabcloud-core/src/appconfig.rs:48-50 | two application names can share a key if and only if one continues the other with a colon |
| AppConfigs.DecodeIff | crates/crabcloud-core/src/appconfig.rs:56-67 | the sentinel round trip works if and only if the value is not the empty string |
| AppConfigs.BoundedStaleness | crates/crabcloud-core/src/appconfig.rs:54-87 | in every interleaving of misses, fetches, fills, writes and invalidations an answer was the database's value less than 60 seconds plus the fetch-to-fill delay ago |
| AppConfigs.CurrentIff | crates/crabcloud-core/src/appconfig.rs:54-87 | the cache holds the database's value throughout a run if and only if no write of another value finds an entry and no fill brings another value than the current one |
| AppConfigs.NewFillFits | crates/crabcloud-core/src/appconfig.rs:63-76 | a fill from a fetch after the last write brings the current value |
| AppConfigs.HitIsCurrent | crates/crabcloud-core/src/appconfig.rs:54-87 | after a write and any invalidation that follows it, if every later fill comes from a fetch after the write, a hit is the value written |
| AppConfigs.OldFetchWasOutstanding | crates/crabcloud-core/src/appconfig.rs:54-87 | the only fetches older than the write are those outstanding when it was made |
| AppConfigs.LateFill | crates/crabcloud-core/src/appconfig.rs:63-86 | a fill overtaken by a write serves the old value |
| RateLimiters.RateLimiter.Check | crates/crabcloud-publiclinks/src/ratelimit.rs:65-88 | decision and new log of one call |
| RateLimiters.FromLog | crates/crabcloud-publiclinks/src/ratelimit.rs:65-88 | inside one window at most the rest of its cap, and at most one cap for each window that can still begin |
| RateLimiters.WithinWindow | crates/crabcloud-publiclinks/src/ratelimit.rs:65-88 | inside one window exactly the first calls are let through, until the cap is reached |
| RateLimiters.AtMost | crates/crabcloud-publiclinks/src/ratelimit.rs:65-88 | any closed interval of length L lets at most cap * (L / window + 2) - 1 calls through, for every monotone trace |
| RateLimiters.BoundReached | crates/crabcloud-publiclinks/src/ratelimit.rs:65-88 | that bound is reached, for every window above one, every cap and every number of windows |
| RateLimiters.KeysIndependent | crates/crabcloud-publiclinks/src/ratelimit.rs:65-88 | a key's decisions do not depend on calls with other keys |
| RateLimiters.HintIs | crates/crabcloud-publiclinks/src/ratelimit.rs:81-85 | a refused call is told the rest of the window in whole seconds, and at least one |
| RateLimiters.RetryAfterIff | crates/crabcloud-publiclinks/src/ratelimit.rs:81-85 | when waiting for the hint is enough |
| Mounts.Resolve | crates/crabcloud-fs/src/view.rs:187-210 | finds a mount exactly if a prefix matches; it is the deepest, and prefix plus rest is the path |
| Mounts.DeepestUnique | crates/crabcloud-fs/src/view.rs:187-210 | with distinct prefixes there is just one deepest mount |
| Mounts.MatchesIff | crates/crabcloud-fs/src/uploads.rs:71-74 | the string test is the segment-prefix test |
| Mounts.UploadIdRoundTrip | crates/crabcloud-fs/src/uploads.rs:162-203 | an id decodes to what was encoded, on any mounts that still have the prefix, and is refused on others |
| Mounts.Uploads.Begin | crates/crabcloud-fs/src/uploads.rs:91-102 | the id names the deepest mount and the path below it |
| Mounts.Uploads.CommitUpload | crates/crabcloud-fs/src/uploads.rs:139-159 | reaches the backend exactly for destinations that resolve to the id's mount and path; a refusal tells a mismatch from a destination without mount |
| Mounts.AcceptedIffSame | crates/crabcloud-fs/src/uploads.rs:91-159 | a commit is accepted if and only if its destination is the one begun |
| Base64.DecodeIff | crates/crabcloud-fs/src/uploads.rs:162-188 | bytes decode from their encoding and from no other text; no colon occurs in it |
| Base64.FromUtf8Utf8 | crates/crabcloud-fs/src/uploads.rs:189-194 | text survives the way through bytes |
| UniqueIndex.MayFailIff | crates/crabcloud-filecache/src/properties.rs:252-332 | a working UPDATE of unique keys, checked row by row in an unknown order, can fail if and only if some row is given a key that another row has or is given |
| UniqueIndex.OrderPlaces | crates/crabcloud-filecache/src/properties.rs:252-332 | after any part of any order every row is at its new or old key, none lost and none doubled; without a row in the way no order fails |
| UniqueIndex.UpdatedRekeys | crates/crabcloud-filecache/src/properties.rs:252-332 | a statement that goes through gives every row its new key, and no two the same |
| Properties.PropertyStore.RenamePath | crates/crabcloud-filecache/src/properties.rs:252-332 | the outcome of the two statements, each row by row in some order; it succeeds when both work and no row is in another's way; every row then has its rewritten path with its value, none is lost; a failure keeps all rows, moved at most by the first statement; the rows of other users stay in any case |
| Properties.OrderDecides | crates/crabcloud-filecache/src/properties.rs:268-281 | for every ASCII path renamed into its own subtree: a table whose final keys are distinct and for which one order fails and another succeeds |
| Properties.CleanRenameSucceeds | crates/crabcloud-filecache/src/properties.rs:252-332 | onto a target with nothing at or below it, a right rename puts no row in another's way in either statement |
| Properties.CleanRenameMoves | crates/crabcloud-filecache/src/properties.rs:252-332 | such a rename gives each row of the user the substituted path and keeps its value |
| Properties.RenameSubstitutesIff | crates/crabcloud-filecache/src/properties.rs:252-332 | for the rows at hand the rewriting is path substitution if and only if the old path is ASCII or has nothing below it, the pattern misses the new path of the top row, and any other row it selects is one the cut does not change |
| Properties.RenameTakesSibling | crates/crabcloud-filecache/src/properties.rs:252-332 | an ASCII name that carries off a sibling's row |
| Properties.RenameOf | crates/crabcloud-filecache/src/properties.rs:252-332 | for each single path, whatever the names: exactly when it gets the substituted path |
| Properties.PropertyStore.CopyPath | crates/crabcloud-filecache/src/properties.rs:335-382 | succeeds exactly if no statement fails and every selected path can be cut; then each target holds a copied value; no row but the targets changes, in any outcome |
| Properties.CopiesApart | crates/crabcloud-filecache/src/properties.rs:335-382 | rows with distinct targets each have their own copy |
| Properties.CopyCarriesSubtree | crates/crabcloud-filecache/src/properties.rs:335-382 | after a copy the resource and everything below it have their values at the substituted paths, if the pattern selects no row elsewhere |
| Properties.CopyLeavesRest | crates/crabcloud-filecache/src/properties.rs:335-382 | and whatever its outcome the rows of other users and those outside the target are as before |
| Properties.CopySubstitutes | crates/crabcloud-filecache/src/properties.rs:372-379 | the copied path is the substituted path, for every name |
| Activities.Activity.Emit | crates/crabcloud-activity/src/service.rs:257-326 | each recipient is delivered to once, in order; a failure leaves exactly those before it done |
| Activities.RunSeparated | crates/crabcloud-activity/src/service.rs:257-326 | with times in order, rows of one key lie more than the window apart |
| Activities.RunCounts | crates/crabcloud-activity/src/service.rs:257-326 | the counts of a key add up to the events delivered to it: repeated recipients count once, those who opted out of the type do not unless they are the actor |
| Activities.RunTells | crates/crabcloud-activity/src/service.rs:257-326 | every row of a run has the time of an event for its recipient that opened it, with the actor's or the recipient's subject as fits, and the time and parameters of the one that wrote it last |
| Activities.UniqueIs | crates/crabcloud-activity/src/service.rs:258-264 | the filtered list has each recipient once |
| Activities.UniqueInOrder | crates/crabcloud-activity/src/service.rs:258-264 | cutting the list short cuts the filtered list short, so the order is kept |
| Activities.MetIff | crates/crabcloud-activity/src/sql.rs:35-59 | a delivery is counted on a row if and only if one of its key was last seen at most the window before, and then on the one seen last |
| Activities.DeliverTidyIff | crates/crabcloud-activity/src/service.rs:292-326 | a delivery keeps each row truthful about its latest time and the rows of a key apart if and only if it opens a row or is not earlier than the row it meets |
| Activities.LateEventSplits | crates/crabcloud-activity/src/service.rs:292-309 | in any such state: after a late event, one that is due inside the window opens a second row all the same |
| SearchIndex.ChunkIsEachIff | crates/crabcloud-search/src/service.rs:178-223 | a chunk equals its rows upserted one by one if and only if no key repeats in it |
| SearchIndex.ManyIsEach | crates/crabcloud-search/src/service.rs:174-301 | for every chunk size batching is upserting row by row |
| SearchIndex.Search.UpsertMany | crates/crabcloud-search/src/service.rs:174-301 | the chunk loop gives that index |
| SearchIndex.Search.DeleteManyForViewerFiles | crates/crabcloud-search/src/service.rs:311-345 | chunked deletion is deletion pair by pair |
| SearchIndex.Batch | crates/crabcloud-search/src/service.rs:820-843 | the loops build one row for each file and recipient |
| SearchIndex.RowsShow | crates/crabcloud-search/src/service.rs:820-843 | a row is in the batch if and only if it shows one of the files, column by column, to one of the recipients |
| SearchIndex.SharedIndex | crates/crabcloud-search/src/service.rs:809-845 | after a share each recipient has each file once, as the file cache has it; every other row is as before |
| SearchIndex.BatchDistinct | crates/crabcloud-search/src/service.rs:809-845 | distinct files and recipients give distinct keys |
| SearchIndex.Search.FanOutForShare | crates/crabcloud-search/src/service.rs:809-845 | the index after upserting every file for every recipient in chunks |
| SearchIndex.Search.FanOutForUnshare | crates/crabcloud-search/src/service.rs:852-871 | exactly the rows of those files and recipients are gone |
| SearchIndex.PairsAreKeys | crates/crabcloud-search/src/service.rs:863-870 | deleting pair by pair is deleting the keys of the shared rows |
| SearchIndex.UnshareRestores | crates/crabcloud-search/src/service.rs:809-871 | sharing and unsharing an unchanged subtree restores the index of recipients without rows there |
| XmlEnvelope.XmlEscape | crates/crabcloud-ocs/src/envelope.rs:130-136 | the five replacements equal one substitution per character |
| XmlEnvelope.UnescapeIff | crates/crabcloud-ocs/src/envelope.rs:130-136 | escaped text, and only it, reads back through the predefined entities (section 4.6 of XML 1.0 Fifth Edition) |
| XmlEnvelope.WriteValue | crates/crabcloud-ocs/src/envelope.rs:106-128 | the recursive writer appends the printed value |
| XmlEnvelope.PrintReads | crates/crabcloud-ocs/src/envelope.rs:106-128 | a reader with a tag stack and the predefined entities reads a printed value back as its tree of tags and leaf texts, in order, if and only if every key is a Name, and refuses it otherwise |
| XmlEnvelope.EnvelopeReads | crates/crabcloud-ocs/src/envelope.rs:78-104 | so for the whole response, with its status, code and message |

## Left out

- Several storages in one table, and the columns for mimetype, permissions and storage mtime: they follow the row and add no invariant.
- Machine integers: sizes, ids and counters are unbounded here, 64 bits wide in the program.
- The copies of each statement for the other database dialects; `ClaimBatch` of `MailSystem` is the claim in one transaction of MySQL and Postgres.
- Counters after a rollback: `FileCaches.FileCache.Rollback` puts ids and the etag source back, a database may skip numbers.
- Detecting whether a share target is a file or a directory, and the outright deletion of a directory whose mount names no owner: one branch each, before the modelled part.
- ShareDelete.View.DeleteViaShareMount: the wrapper's permission check is one flag of the share; the backend is the owner's home on the same disk.
- The versions cascade of a purge, activity events after a restore or deletion, `purge_all` and `sweep_expired` (loops over `PurgeEntry`), `get_by_id` and `list`.
- Links on the disk: an entry that is neither file nor directory stands for all of them.
- MailWorkers.MailWorker.Run: mails enqueued while a batch is drained are covered by the runs of `MailSystem`; in the class they come between turns (`Submit`).
- MailSystem.OneTransactionBounded: a rolled-back claim transaction of MySQL or Postgres is not a step of its own.
- The contents of a mail, the templates and the transport; the mailer answers accepted, transient or permanent.
- `incr` of the memory cache (a parsed number with saturation) and the clock wait for its lock.
- Full-text ranking and query parsing, `translate_path`, and `walk_under` inside the fan-out (the files are a parameter).
- Activities.RunSeparated: needs event times in order; `DeliverTidyIff` says exactly when an event out of order does harm.
- XmlEnvelope.EnvelopeReads: the pushes of the fixed frame are one expression (`Body`); characters that XML forbids altogether are not excluded from texts.
- Names are compared exactly: the MySQL table of the trash has no binary collation (migrations/core/0009_files_trash/mysql.sql:1-12), so there stored names that differ only in case are one name to the unique index and the suffix count.
- The JSON form of the envelope, status tables, HTTP routing, sharing rules, the scanner and the storage backends themselves.
