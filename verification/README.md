# Verified models of the module loader, the playground bundler and the CLI's RPC streams

This project models four pieces of the repository that carry real invariants, and proves what they are for.

* **The AMD module manager** (`src/vs/loader.js`). `LoaderModel` is a small-step machine over a heap of module
  records: a definition, one iteration of `_resolve`, the end of `_resolve` and a load error are the steps, and
  active `_resolve` calls form a stack, so that a script loader may define modules synchronously in the middle of
  another module's resolution. `LoaderInvariant` and `LoaderSteps` show what every step keeps, `LoaderTheorems`
  what holds in every reachable state and over every run, `LoaderManager` is the class with its searches and loops,
  proved against the machine. `ModuleIds` is the normalisation of module ids.
* **Source maps and bundling** (`scripts/playground-server.ts`). `Vlq` and `Mappings` are the format (ECMA-426,
  "Base64 VLQ" and "Mappings structure", with the alphabet of section 4 of RFC 4648) and a reference decoder, with
  `SourceMapExample` one text read in full;
  `SourceMapModel`, `SourceMapTheorems` and `SourceMapBuilder` the one-pass re-encoder and its growable buffer;
  `Acceptance` which sources it takes; `ModuleLoader` the loading of modules as memoised promises; `Bundler` the
  post-order walk; `LoadedBundle` the bundle of a loaded module map; `BundleCache` the incremental bundle.
* **RPC streams** (`cli/src/rpc.rs`, `cli/src/msgpack_rpc.rs`). `Streams` is the lock-based hand-over of write
  halves, `WireTrace` the grammar of the outgoing channel, `Framing` the message codec.
* **Storage** (`cli/src/auth.rs`, `cli/src/download_cache.rs`). `Keyring` and `DownloadCache`.

## Main results

1. *Deadlock freedom despite cycles.* In every reachable quiescent state of the loader without failures, every
   module has completed (`DeadlockFreedom`). In general a module is left incomplete exactly when it waits, directly
   or transitively, for a failed module without having been failed itself (`StuckExactly`).
2. *Failures can miss waiters.* A module that is defined after one of its dependencies failed is failed at once, but
   modules already waiting for it are not told (loader.js:1677-1681). `StrandedRun` gives the run, `SettledExactly`
   says when every module settles, `FailureClosedExactly` shows that this branch is the only step that can strand a
   waiter, and exactly when it does, and `SettledRun` that a whole run without such a step leaves nobody waiting.
3. *Concatenation preserves meaning.* Decoding the bundle's mappings gives each source's own segments, moved below
   the lines before it, naming the same files and positions (`ConcatenationPreservesMeaning`, `BundleMeaning`).
4. *The VLQ bound is exact.* A number survives `addVLQ` and decoding if and only if it lies strictly between
   -2^30 and 2^30, read as the format says (`VlqBoundExact`) or with addSource's own loop (`LoopRoundTrip`): `<<`
   converts to 32 bits.
5. *Streams.* In every interleaving the write half of a stream is in one place, nothing accepted is lost, duplicated
   or reordered, and a removed stream is shut down once, after everything accepted was delivered (`SingleOwnership`,
   `Conservation`, `CleanShutdown`, `NoLostWakeup`, `TasksFinish`).
6. *Loading.* In every interleaving of file reads a file's promise settles if and only if the file does not lead to one
   that asks, directly or transitively, for itself (`SettlesExactly`); if the entry's does, the promises spell the one
   right module map, and every dependency is bundled before its module (`LoadsExactly`, `LoadingEnds`, `LoadedUnique`,
   `DependenciesFirst`). With a cycle the promises wait for each other for ever, and no edit of a file that leads to
   the cycle is ever taken in, even if it would break the cycle (`CycleEditsIgnored`, `NeverRecovers`).
7. *Incremental bundles.* After any edits, the module map that is kept is right, and the next bundle has the modules of
   a rebuild, if and only if no file that was loaded without a `define` call has one now (`RightAfterEdits`,
   `SameModulesExactly`). The bundle is the same text if and only if this holds or both bundles are rejected, that is,
   some source map has a byte outside its alphabet or the entry is not a module (`SameBundleExactly`, for a missed
   module with some text). `StaleBundle` gives an edit after which the bundle stays wrong.
8. *Keyring secrets.* A stored secret is read back from a clean keyring if and only if it does not fill its last entry
   and that entry does not end in the marker (`FreshRoundTripExactly`); an exact multiple of the entry size is lost.

## Model

| member | source | states |
|---|---|---|
| LoaderSteps.ReachableValid | src/vs/loader.js:1658-1776 | Every reachable state satisfies the whole invariant: exact counters, one completion and one request per id, acyclic waiting, completion order |
| LoaderSteps.NextValid | src/vs/loader.js:1352-1787 | Every single step (definition, one dependency, end of `_resolve`, load error) keeps the invariant |
| LoaderInvariant.OnCompleteInv | src/vs/loader.js:1722-1776 | The completion cascade keeps the invariant, with the releases still pending counted exactly |
| LoaderTheorems.CounterExactness | src/vs/loader.js:1107-1107 | An incomplete module's counter is its number of occurrences over all inverse-dependency lists, with multiplicity, plus the dependencies its `_resolve` has still to examine; it is positive once `_resolve` is over; every listed waiter is defined |
| LoaderTheorems.ResolvingProgresses | src/vs/loader.js:1658-1721 | While a `_resolve` call is active a step is enabled, and every such step reduces the work left |
| LoaderTheorems.DeadlockFreedom | src/vs/loader.js:1658-1776 | In every reachable quiescent state without failures every module has completed, whatever cycles were cut |
| LoaderTheorems.EveryDefinitionRuns | src/vs/loader.js:1352-1776 | The same said of the events: without load errors, in a quiescent state exactly the modules that were defined have run |
| LoaderTheorems.StuckExactly | src/vs/loader.js:1676-1719 | In a quiescent state a module is incomplete iff it has not failed and waits, directly or transitively, for a failed one |
| LoaderTheorems.SettledExactly | src/vs/loader.js:1677-1681 | In a quiescent state all modules have settled iff every waiter of a failed module has failed |
| LoaderTheorems.FailureClosedExactly | src/vs/loader.js:1677-1681 | A step lets a failure miss a waiter iff it fails a module directly, because of a failed dependency, while a module that has not failed waits for it |
| LoaderTheorems.SettledRun | src/vs/loader.js:1658-1787 | A run from the start in which no step strands a waiter ends with every waiter of a failed module failed, and with all modules settled if it is quiescent |
| LoaderTheorems.StrandedRun | src/vs/loader.js:1677-1681 | A concrete run, in which every script that fails was asked for, ends quiescent with a module that never settles |
| LoaderTheorems.DeclaredExactly | src/vs/loader.js:1352-1363 | Over any run a module is on record with exactly the dependencies of its first definition, and with none iff it was not defined before its script failed |
| LoaderTheorems.TopologicalExecution | src/vs/loader.js:1722-1776 | Over any run no factory runs twice, and a factory runs strictly after those of the regular dependencies in its define call, except for dependencies that lead back to the module |
| LoaderTheorems.AcyclicExecution | src/vs/loader.js:1684-1695 | When the define calls are acyclic no edge is cut and the order is topological |
| LoaderTheorems.QueueUp | src/vs/loader.js:1697-1698 | Whoever comes to wait for a module queues up behind those that wait already |
| LoaderTheorems.NotifyInOrder | src/vs/loader.js:1763-1775 | Waiters are released from the front, each with everything that follows from it, before the next |
| LoaderTheorems.DependenciesDropped | src/vs/loader.js:1164-1164 | A module's dependency list is dropped when its factory has run and only then; until then it is the defined one |
| LoaderTheorems.RequestedExactly | src/vs/loader.js:1591-1596 | A script is asked for exactly when a dependency is examined that is neither defined nor asked for |
| LoaderTheorems.LoadErrorExact | src/vs/loader.js:1464-1498 | A load error fails its module and exactly those that wait for it; other completed modules keep their record |
| LoaderTheorems.SettledForGood | src/vs/loader.js:1172-1180 | Over any run a completed or failed module stays so and its factory does not run afterwards |
| LoaderTheorems.LaterDependentsFail | src/vs/loader.js:1677-1681 | A module defined after a dependency failed never runs, and has failed once its `_resolve` is over |
| LoaderTheorems.RequestsComplete | src/vs/loader.js:1591-1596 | Every script is asked for at most once, and every awaited undefined id has been asked for |
| LoaderManager.ModuleManager.HasDependencyPath | src/vs/loader.js:1505-1541 | The breadth-first search is true iff a non-empty chain of recorded dependencies leads from one id to the other |
| LoaderManager.ModuleManager.FindCyclePath | src/vs/loader.js:1548-1568 | A result is a genuine dependency chain read backwards, ending at the target unless cut at depth 50; there is one whenever a chain exists |
| LoaderManager.ModuleManager.OnModuleComplete | src/vs/loader.js:1722-1776 | The recursive cascade computes the specified new state; it terminates because completed modules only grow |
| LoaderManager.ModuleManager.Resolve | src/vs/loader.js:1658-1721 | The loop over the dependencies computes the specified new state |
| LoaderManager.ModuleManager.DefineModule | src/vs/loader.js:1352-1372 | A definition leads from a reachable state to a reachable state, the specified one, with the given dependencies on record; duplicates change nothing |
| LoaderManager.ModuleManager.OnLoadError | src/vs/loader.js:1464-1498 | For a script that was asked for, the breadth-first flood computes the specified new state, reachable again |
| LoaderManager.DefineReachable | src/vs/loader.js:1352-1372 | Running `_resolve` to its end is a run of the machine, so all theorems hold of the manager |
| ModuleIds.Normalize | src/vs/loader.js:1061-1078 | The result denotes the same location under a stack semantics of `.` and `..`, nothing in it can be rewritten further, and a normal id is returned unchanged |
| ModuleIds.NormalExactly | src/vs/loader.js:1061-1078 | What the four expressions leave, by the names between slashes: `.` at most last, and a name before `..` only where the `..` is last, or if it is empty or `..` itself |
| Vlq.AlphabetExact | scripts/playground-server.ts:816-824 | The two tables are those of the alphabet, in its order, with the padding character; no other character is in them |
| Vlq.AlphabetRoundTrip | scripts/playground-server.ts:816-824 | The two tables are inverse to each other on the 64 digits and no digit is a separator |
| Vlq.WrittenNumbers | scripts/playground-server.ts:849-868 | What addVLQ writes for 0, -1, 16 and -1533 |
| Vlq.VlqRoundTrip | scripts/playground-server.ts:849-868 | A number strictly between -2^30 and 2^30 is read back from its digits, consuming exactly them, whatever follows |
| Vlq.VlqBoundExact | scripts/playground-server.ts:849-868 | No other number is |
| Vlq.AbsorbDigits | scripts/playground-server.ts:769-787 | The decoding loop adds up the value of the digits as long as it fits 31 bits, shifts modulo 32 included |
| Vlq.LoopRoundTrip | scripts/playground-server.ts:769-787 | The decoding loop of addSource gives back what addVLQ wrote iff the number is strictly between -2^30 and 2^30 |
| Vlq.FinishedExact | scripts/playground-server.ts:776-778 | The end of a number for any accumulated value: half of its low 32 bits, negated if odd |
| Mappings.TokenizeEncode | scripts/playground-server.ts:756-789 | Written separators and numbers are read back |
| SourceMapExample.DecodedText | scripts/playground-server.ts:756-790 | What the mappings CCEG;IDEA,KCFHE,K say, segment by segment |
| SourceMapModel.SourceLinesExact | scripts/playground-server.ts:680-697 | The stored content is the given one, with a newline added only where it does not end a line; sourceLines counts its newlines; the map is the given one |
| SourceMapModel.AddNamesSound | scripts/playground-server.ts:720-728 | Old source indices keep their names, every new index leads to its name, and no other name comes in |
| SourceMapModel.AddNamesDistinct | scripts/playground-server.ts:720-728 | No file is listed twice |
| SourceMapModel.RunBytesTokens | scripts/playground-server.ts:756-789 | On well-formed text the byte loop does what the loop over separators and numbers does |
| SourceMapModel.CommitSimulates | scripts/playground-server.ts:741-757 | A commit of a segment whose source index is in its map writes exactly that segment, remapped, in a form that decodes to it |
| SourceMapModel.RunSimulates | scripts/playground-server.ts:756-790 | The output decodes to the input's segments, moved and remapped |
| SourceMapModel.SeparatorsKept | scripts/playground-server.ts:756-768 | The output has the separators of the input, in order, and no others |
| SourceMapModel.UnmappedKeepsIndex | scripts/playground-server.ts:749-751 | A segment whose source index is outside its map, and the next one with an index, are written with the source index written last |
| SourceMapTheorems.AddSourceAppends | scripts/playground-server.ts:716-795 | addSource appends its source's segments below everything added before, padding included |
| SourceMapTheorems.ConcatenationPreservesMeaning | scripts/playground-server.ts:716-795 | After any well-formed sources the mappings decode to their segments in order, moved down, naming the same files and positions; the map has as many lines as the output |
| SourceMapTheorems.LinesAlignedExactly | scripts/playground-server.ts:791-794 | Map and output stay line-aligned iff the source's mappings have no more lines than its content |
| SourceMapBuilder.DynamicBuffer.EnsureCapacity | scripts/playground-server.ts:835-842 | Growing the buffer keeps its contents |
| SourceMapBuilder.DynamicBuffer.AddVLQ | scripts/playground-server.ts:849-868 | The loop appends exactly the digits of the number |
| SourceMapBuilder.DynamicBuffer.AddBuffer | scripts/playground-server.ts:877-881 | Appends the bytes |
| SourceMapBuilder.SourceMapBuilder.AddLine | scripts/playground-server.ts:710-714 | Appends the line and one semicolon |
| SourceMapBuilder.SourceMapBuilder.CommitSegment | scripts/playground-server.ts:741-757 | Writes the numbers of the segment and moves the last* fields; a source index outside the map is written as zero and leaves the last index undefined |
| SourceMapBuilder.SourceMapBuilder.AddSource | scripts/playground-server.ts:716-795 | The object ends in the specified state, and throws exactly when the specification says so |
| SourceMapBuilder.NewSource | scripts/playground-server.ts:680-697 | The same of the loop that counts and the constructor |
| Bundler.BundleOrder | scripts/playground-server.ts:501-516 | On any finite graph, cyclic or not, exactly the reachable modules are emitted, each once, and a dependency that does not lead back to its module comes before it |
| Bundler.SiblingsInOrder | scripts/playground-server.ts:510-512 | Dependencies are taken in the order of the define call: of two of the root, the first is emitted first unless the second is needed by it or one before it |
| Bundler.Bundle.VisitModule | scripts/playground-server.ts:505-514 | The recursive visit follows the specified walk and the builder holds the emitted sources in order; it fails iff some source map is not accepted |
| Bundler.BundleWithDependencies | scripts/playground-server.ts:501-525 | The bundle is the sources' text in post-order and one line with their map and the entry's sourceRoot, or fails iff a source is not accepted |
| Bundler.BundleMeaning | scripts/playground-server.ts:501-525 | A bundle of well-formed modules is accepted and the source map in its last line says of every line what the module's own map said |
| Acceptance.AcceptedAnywhere | scripts/playground-server.ts:756-770 | Whatever was added before, addSource throws iff the mappings have a byte that is no separator and not in the alphabet; otherwise it appends the text |
| Acceptance.AcceptedAll | scripts/playground-server.ts:716-795 | A list of sources is taken iff each is, and the output is their text |
| ModuleLoader.SettlesExactly | scripts/playground-server.ts:551-589 | In every interleaving, once no step is left, a file's promise has settled iff no file it leads to asks, directly or transitively, for itself |
| ModuleLoader.LoadsExactly | scripts/playground-server.ts:551-589 | In every interleaving, once no step is left, every file to which a request of a loaded file resolves is there; the entry's promise has settled iff the requests it leads to are acyclic, iff there is a right module map, and then the promises spell it |
| ModuleLoader.LoadedMeans | scripts/playground-server.ts:558-584 | The right module map said of the files: a file is a module iff it parses, with its own requests and source, and its dependencies are exactly the modules to which its requests resolve |
| ModuleLoader.ResolveAllSplit | scripts/playground-server.ts:565-574 | Each request is resolved on its own, in order; those that are not files are left out and nothing else is |
| ModuleLoader.LoadingEnds | scripts/playground-server.ts:551-589 | Every run has at most two steps for each file that the entry leads to |
| ModuleLoader.LoadedUnique | scripts/playground-server.ts:551-589 | The files determine the module map |
| LoadedBundle.EmittedExactly | scripts/playground-server.ts:501-516 | The bundle has exactly the parsed modules of the map, each once |
| LoadedBundle.DependenciesFirst | scripts/playground-server.ts:501-589 | In the bundle of a loaded map every dependency comes before its module |
| LoadedBundle.BundleShape | scripts/playground-server.ts:501-525 | The bundle of a loaded map is rejected iff the entry is not a module or some module's mappings have an illegal byte; otherwise it is the modules' text and one line |
| LoadedBundle.EntryInOrder | scripts/playground-server.ts:501-516 | The entry's dependencies are bundled in order, unless a later one is needed by an earlier one |
| LoadedBundle.LoadedMeaning | scripts/playground-server.ts:501-525 | The bundle of a loaded map with well-formed source maps is the modules' text in order, and the map in its last line says of every line what the module's own map says |
| BundleCache.PatchIsReload | scripts/playground-server.ts:536-549 | Patching a source in place gives the module map that loading the new text would give |
| BundleCache.KeptRightExactly | scripts/playground-server.ts:487-498 | A kept map is that of the files on disk iff no file it holds without a define call has one now |
| BundleCache.RightAfterEdits | scripts/playground-server.ts:487-498 | The same over a whole history: a load and any edits that do not discard the loader |
| BundleCache.SameModulesExactly | scripts/playground-server.ts:472-498 | After any edits, the modules bundled next are those of a rebuild, in the same order, under the same exact condition |
| BundleCache.SameBundleExactly | scripts/playground-server.ts:472-498 | And the text is the same iff the condition holds or both bundles are rejected |
| BundleCache.StaleBundle | scripts/playground-server.ts:487-498 | A concrete load and edit after which the cached bundle and a rebuild are two different texts |
| BundleCache.CycleEditsIgnored | scripts/playground-server.ts:487-498 | When the files lead to a cycle, edits of files that lead to it leave the loader as it is, whatever the new texts |
| BundleCache.HungUntilDiscarded | scripts/playground-server.ts:487-498 | A loader whose entry has not settled stays so over any edits that do not discard it |
| BundleCache.NeverRecovers | scripts/playground-server.ts:487-498 | A concrete file that asks for itself and an edit that would mend it: loading the new text succeeds, the edit is not taken in |
| BundleCache.CachedBundle.GetBundle | scripts/playground-server.ts:472-485 | Over any history of the object the answer is that of the loader kept or made now, pending if its entry never settles; it is the answer of a rebuild exactly under the conditions above |
| BundleCache.CachedBundle.SetModuleContent | scripts/playground-server.ts:487-498 | Discards the loader iff the file is a module and its new text does not parse or asks for other modules, and else changes at most that module's source; keeps the invariant that relates the loader to the files on disk; the call returns iff the file's promise is not one that never settles |
| Streams.Streams.InsertStream | cli/src/rpc.rs:575-584 | One step of the machine, from reachable to reachable: the theorems below hold of the object |
| Streams.Streams.WriteStream | cli/src/rpc.rs:564-573 | The same; a loop is started iff the result says so |
| Streams.Streams.RemoveStream | cli/src/rpc.rs:543-562 | The same; the caller gets the write half to shut down iff the result says so |
| Streams.Streams.TakeTurn | cli/src/rpc.rs:602-621 | The same for the locked region of write_loop: give the write half back, shut down, or take the whole queue |
| Streams.Streams.WriteBatchOut | cli/src/rpc.rs:623-627 | The loop over a batch writes it in order up to the first write that fails, and drops the rest |
| Streams.Streams.WriteLoop | cli/src/rpc.rs:596-631 | Left alone, the loop ends; everything accepted has been written unless a write failed; the stream is shut down iff it was removed, and else its record has the write half again |
| Streams.SingleOwnership | cli/src/rpc.rs:543-631 | No two tasks hold one write half; a loop always finds its record; a record with its write half has an empty queue and is not ended; one without it has a loop |
| Streams.Conservation | cli/src/rpc.rs:564-631 | Delivered, then current batch, then queue is what was accepted, in order, for streams without write errors |
| Streams.AcceptedExactly | cli/src/rpc.rs:564-573 | What is accepted of a stream that was not removed is exactly what was written to it since it was inserted |
| Streams.RemovedExactly | cli/src/rpc.rs:543-562 | A removal is taken in, and everything written before it is accepted |
| Streams.CleanShutdown | cli/src/rpc.rs:543-631 | A stream is shut down at most once, only when removed, and only after everything accepted was delivered |
| Streams.NoLostWakeup | cli/src/rpc.rs:564-631 | When no task is left everything accepted is delivered and exactly the removed streams are shut down |
| Streams.TasksFinish | cli/src/rpc.rs:596-631 | Every step of a task reduces the work left |
| WireTrace.WireGrammar | cli/src/rpc.rs:453-524 | streams_started precedes data and ends, and every stream it announces has a reader; at no time has a request id more replies than streams_started and calls without streams (other methods, refused duplex calls), and the replies to come make up the difference; an end is sent once and nothing of the stream follows; the segments are a prefix of the bytes read |
| WireTrace.StreamCloses | cli/src/rpc.rs:480-524 | Over any run a reader has taken exactly what was read; once reading has ended and no send is left, while the channel is open, stream_ended has been sent exactly once, and all that was read |
| WireTrace.StartBeforeReply | cli/src/msgpack_rpc.rs:85-95 | The reply to an id that only duplex calls use comes after a streams_started of that id |
| Framing.ChunkingIrrelevant | cli/src/msgpack_rpc.rs:66-97 | However the input is split into reads, the frames are those of the whole input |
| Framing.NothingLost | cli/src/msgpack_rpc.rs:139-162 | The frames' bytes and the leftover are the bytes received |
| Framing.Connection.Decode | cli/src/msgpack_rpc.rs:139-162 | Takes exactly the parsed bytes off the buffer, or leaves it |
| Framing.Connection.Receive | cli/src/msgpack_rpc.rs:66-97 | The decode loop dispatches every complete frame and keeps the rest |
| Framing.Connection.ReceiveAll | cli/src/msgpack_rpc.rs:66-97 | Any sequence of reads dispatches the frames of their concatenation, and nothing is lost |
| Keyring.KeyringStorage.Read | cli/src/auth.rs:308-328 | The loop assembles what the entries spell, or None when one is missing |
| Keyring.KeyringStorage.Store | cli/src/auth.rs:330-352 | The loop writes the parts, each full one with the marker |
| Keyring.StoreExactly | cli/src/auth.rs:330-352 | Entry by entry: the full parts with the marker, the rest without, and every other entry unchanged |
| Keyring.ReadAfterStore | cli/src/auth.rs:308-352 | What is read after a store, whatever stale entries there are |
| Keyring.RoundTripExactly | cli/src/auth.rs:308-352 | The round trip succeeds iff the entries behind the stored ones are not read, or happen to spell what is missing |
| Keyring.FreshRoundTripExactly | cli/src/auth.rs:330-352 | From a clean keyring it succeeds iff the secret does not fill its last entry and that entry does not end in the marker; an exact multiple reads as None |
| Keyring.EntriesFit | cli/src/auth.rs:330-345 | No entry written exceeds the limit |
| DownloadCache.KeepsTheFiveNewest | cli/src/download_cache.rs:52-139 | After any operations without deletions, with successful removals, the list is exactly the five most recently touched names in order |
| DownloadCache.ListedExactly | cli/src/download_cache.rs:52-139 | With successful removals, deletions included: the list is a front part of the names touched and not deleted since, by recency, and has exactly those that five more recent names have never pushed out |
| DownloadCache.FoldersAreListed | cli/src/download_cache.rs:52-139 | If besides every filled folder could be moved to its place, the folders on disk are exactly the listed names: created, not deleted since, not pushed out |
| DownloadCache.TouchKeepsOthers | cli/src/download_cache.rs:119-139 | A touch, removals failing or not, puts the name in front and loses at most the last other name, with its folder, when there are too many |
| DownloadCache.CacheInvariant | cli/src/download_cache.rs:52-139 | After any operations the list is duplicate-free and in recency order, every folder is listed, and with successful removals at most five names are kept |
| DownloadCache.DownloadCache.TouchName | cli/src/download_cache.rs:119-139 | Remove, insert at the front and pop compute the specified list and folders |
| DownloadCache.DownloadCache.ExistsName | cli/src/download_cache.rs:52-60 | True iff the folder exists, which puts the name in front; the object keeps what CacheInvariant says of its history |
| DownloadCache.DownloadCache.DeleteName | cli/src/download_cache.rs:63-72 | Fails iff the folder exists and cannot be removed, and then changes nothing; on success exactly that folder and that name are gone and the others keep their order; the same invariant |
| DownloadCache.DownloadCache.CreateName | cli/src/download_cache.rs:78-117 | Succeeds iff the folder exists or could be filled and moved, and then it exists; the same invariant |

## Left out

- AMD plugins (`a!b`), exported values, error callbacks and `catchError`: they run code outside the manager; factories are opaque and do not call back into the loader.
- Module records are values in the manager's map, one per id, instead of objects: the manager never holds a second reference to a record across a change, so no aliasing is lost.
- The flag arrays of the loader's searches are sets of flagged ids; string ids and `ModuleIdProvider` are not modelled, an id is a number.
- The console text of a cycle warning: only the cut edge is recorded; the path search is modelled on its own.
- Streams with a write error: ownership and shutdown are proved, conservation is not claimed, since part of a buffer may have been written.
- Stream ids come from a 32-bit counter that can wrap: the streams and the wire trace assume that an id is inserted once.
- ConcatenationPreservesMeaning: asks for coordinates in 0 up to 2^30 and at most 2^30 file names, because differences beyond that do not survive addVLQ (VlqBoundExact); names (the fifth field) are dropped, as in the original.
- AddSource: says nothing of the builder after a thrown error; the original abandons it.
- parseModule, the path mapper and the text of the source-map comment line (JSON and base64) are parameters; a file that cannot be read is not modelled, nor are edits that arrive before a load has come to rest.
- SameBundleExactly: asks that some missed module have some text, that stored sources end a line and that the comment is one line; missed modules without any text may leave the bundle's text as it was (SameModulesExactly holds for them too).
- WriteLoop: no other call comes in between; interleavings are the business of the machine's theorems.
- The parser of the message codec is a parameter: deterministic, reading a frame from left to right, at least one byte, and nothing behind it. An end of input on the socket is not modelled.
- Back-pressure of the 8-slot channel of `start_msgpack_rpc`: no progress is claimed for the message loop.
- Keyring errors other than a missing entry, encryption, OAuth, time-outs; failures of writing `lru.json`; the staging folder of `create`.
