# Verified models of the caching proxy and of the algorithms in its GoogleTest tree

The repository is a small concurrent HTTP proxy (`lib/`, `app/`) with a copy of GoogleTest and
GoogleMock beside it. These Dafny files model the shared state of the proxy and the algorithmic
core of GoogleTest, and prove what that code is for. Run `dafny verify dfyconfig.toml` here.

What changes state in the source is a class with `modifies` clauses, a method with loops, or, for
the two semaphore protocols, a step system over all interleavings. Each such method is tied to a
specification that does not repeat its body, and the properties of the specification are lemmas.

| file | what it models |
|---|---|
| `BipartiteMatching.dfy` | the augmenting-path search, and the pairing decisions built on it |
| `MatchMatrix.dfy` | the flattened matrix and its use as a counter over all graphs |
| `LruModel.dfy`, `CacheQueue.dfy` | the cache: its list behaviour over all histories, and the pointer structure that has it |
| `LruStackDistance.dfy`, `ProxyCache.dfy` | what the cache holds after any requests, the inclusion of small caches in large ones, and the request handler on the pointer cache |
| `RingBuffer.dfy`, `RingHistory.dfy` | the ring buffer's protocol for any number of threads, and what its callers hand in and are given |
| `ReaderWriterLock.dfy`, `LockProgress.dfy` | the lock's protocol for any number of threads, and what a passage through it does |
| `Arithmetic.dfy` | facts about products, remainders and sums over sequences, shared by the others |
| `GlobFilter.dfy` | glob matching with one restart point, and test filters |
| `Expectations.dfy` | walks over the graph of prerequisites, calls, sequences |
| `SimpleRegex.dfy` | the small regular expressions: validator and backtracking matcher |
| `EditDistance.dfy`, `EditOptimality.dfy` | the edit table, its back-trace, and how optimal the script is |
| `Hunks.dfy`, `DiffScript.dfy`, `Patching.dfy`, `UnifiedDiff.dfy` | one hunk, the listing that a script stands for, what hunks do to a file, and the diff of two files |
| `Utf8.dfy` | UTF-8 encoding, UTF-16 decoding, the UTF-8 validator |
| `Uint128Printer.dfy` | decimal printing of 128-bit integers in two halves |
| `PrimeTables.dfy` | sieve, trial divisions, hybrid, next prime |
| `BufferedReader.dfy` | the buffered reader over an arbitrarily chunked stream |

## Where the code does not do what its documentation says

- `CalculateOptimalEdits` is announced as optimal (gtest-internal.h, line 169). It is not: where
  two of the three costs share the least place, it replaces although that may be dearer
  (`EditOptimality.OptimalFails`). What it does return is always the lightest script among those
  that match equal items and replace at such a tie (`EditOptimality.ReturnedIsBestBound`).
  It is optimal exactly when the recurrence without the guard gives the same weight for the two inputs
  (`EditOptimality.OptimalIffLeast`), in other words when obeying the guard costs nothing
  (`EditOptimality.OptimalIffGuardHarmless`). Then no such tie lies on its back-trace
  (`EditOptimality.OptimalAvoidsTies`). Whether ties occur does not decide it: one off the way may be
  harmless (`EditOptimality.TieOffTheWayIsHarmless`) or not (`EditOptimality.HarmOffTheWay`). All
  prefixes together are minimal exactly when there is none at all.
- `CreateUnifiedDiff` takes any context, but with context 0 it prints no hunk at all.
  `UnifiedDiff.CreateUnifiedDiff` states the exact condition under which patching succeeds;
  `UnifiedDiff.NothingWithoutContext` is an input that fails.
- `CodePointToUtf8` promises its "Invalid Unicode" text above 0x10FFFF and gives it only above
  0x1FFFFF. `Utf8.InvalidMessageExact` states where the two differ, `Utf8.NoMessageAboveUnicode` gives
  the first such code point, and `Utf8.OutputValidIff` says
  exactly which code points come out as valid UTF-8.
- `RE::FullMatch` promises to match the entire string. For a regex that ends in an escaped `$` no
  end anchor is added, and a prefix suffices; `SimpleRegex.FullMatchMeansWhole` proves that these
  are exactly the regexes that break the promise, and `SimpleRegex.FullMatchOfPrefix` shows one.

## Model

| member | source | states |
|---|---|---|
| `BipartiteMatching.MaxBipartiteMatchState.TryAugment` | googletest/googlemock/src/gmock-matchers.cc:184-208 | a search ends on the count of unseen right nodes; success links the left node, unlinks no other and restores mutual reference; failure changes nothing and leaves an explored region; a search that starts inside a dead region fails |
| `BipartiteMatching.MaxBipartiteMatchState.Compute` | googletest/googlemock/src/gmock-matchers.cc:132-163 | one pass over the left nodes gives a matching that no other matching of the graph exceeds |
| `BipartiteMatching.FindMaxBipartiteMatching` | googletest/googlemock/src/gmock-matchers.cc:228-230 | the result is a maximum matching, listed by increasing element |
| `BipartiteMatching.LinkAugments` | googletest/googlemock/src/gmock-matchers.cc:196-203 | linking to an unused node, or to one whose partner has been rerouted, augments the flow and touches nothing seen or dead |
| `BipartiteMatching.DeadAfterFailure` | googletest/googlemock/src/gmock-matchers.cc:143-152 | what a failed search visited becomes part of a dead region that later augmentations never enter, so the failed left node stays unmatchable |
| `BipartiteMatching.CoverBoundsMatchings` | googletest/googlemock/src/gmock-matchers.cc:124-163 | the dead right nodes and the used left nodes outside form a vertex cover, so every matching of the graph is at most as large as the number of used left nodes |
| `BipartiteMatching.SaturatesIffInjection` | googletest/googlemock/src/gmock-matchers.cc:437-452 | a maximum matching uses up the elements exactly when an injection along edges exists |
| `BipartiteMatching.BijectionIffBothSaturated` | googletest/googlemock/src/gmock-matchers.cc:437-452 | a perfect matching exists exactly when a maximum matching uses up both sides |
| `BipartiteMatching.MaximumSurvivesFlip` | googletest/googlemock/src/gmock-matchers.cc:437-446 | a maximum matching is maximum with elements and matchers exchanged, which lets one search answer the superset question too |
| `BipartiteMatching.FindPairing` | googletest/googlemock/src/gmock-matchers.cc:437-476 | true exactly when, as the flags ask, an injection of elements into matchers, one of matchers into elements, or a bijection exists |
| `BipartiteMatching.VerifyMatchMatrix` | googletest/googlemock/src/gmock-matchers.cc:370-435 | true exactly when sizes agree for an exact match and every node of the sides that must be used up has an edge |
| `BipartiteMatching.PairingIsPlausible` | googletest/googlemock/src/gmock-matchers.cc:370-435 | the cheap check never rejects a matrix that admits a pairing |
| `BipartiteMatching.MatchAndExplain` | googletest/googlemock/include/gmock/gmock-matchers.h:3642-3652 | cheap check and search together decide whether a pairing exists |
| `MatchMatrices.MatchMatrix.SpaceIndex` | googletest/googlemock/include/gmock/gmock-matchers.h:3539-3541 | every coordinate lies within the flattened vector |
| `MatchMatrices.IndexInjective` | googletest/googlemock/include/gmock/gmock-matchers.h:3539-3549 | different coordinates never share a place in the flattened vector |
| `MatchMatrices.MatchMatrix.SetEdge` | googletest/googlemock/include/gmock/gmock-matchers.h:3525-3527 | exactly one edge of the graph is added or removed |
| `MatchMatrices.MatchMatrix.NextGraph` | googletest/googlemock/src/gmock-matchers.cc:247-259 | the bits become those of the increment; false exactly when all bits were set |
| `MatchMatrices.IncrementAddsOne` | googletest/googlemock/include/gmock/gmock-matchers.h:3529-3532 | the increment adds one to the matrix read as a number, and wraps to the empty graph exactly when full |
| `MatchMatrices.EveryGraphVisitedOnce` | googletest/googlemock/include/gmock/gmock-matchers.h:3510-3512 | from the empty graph each graph is reached at exactly one moment before the counter wraps |
| `MatchMatrices.CounterWrapsAfterAllGraphs` | googletest/googlemock/include/gmock/gmock-matchers.h:3529-3532 | after two to the number of cells steps, and not before, the graph is empty again |
| `CacheQueue.Cache.constructor` | lib/src/cache.c:30-43 | two sentinels linked to each other, nothing held, no load |
| `CacheQueue.Cache.Enqueue` | lib/src/cache.c:163-175 | appends at the most recently used end, keeping forward and backward links mirror images, the count the length and the load the total weight |
| `CacheQueue.Cache.Dequeue` | lib/src/cache.c:184-200 | takes exactly the least recently used node, or nothing from an empty list, and keeps the list well formed |
| `CacheQueue.Cache.Update` | lib/src/cache.c:208-220 | moves one node to the most recently used end; nodes, count and load stay |
| `CacheQueue.Cache.AddCache` | lib/src/cache.c:114-126 | the list becomes the model's list after an add; the eviction loop ends and never dequeues from an empty list |
| `CacheQueue.Cache.IsMatch` | lib/src/cache.c:261-269 | true exactly when host, port and path have equal lengths and, place by place, the same character or the two cases of one ASCII letter |
| `CacheQueue.Cache.IsCached` | lib/src/cache.c:236-254 | hands out payload and size of the matching entry nearest to the most recently used end, where matching is meant character by character, and moves only that node; nothing is handed out, and nothing changes, exactly when no entry matches |
| `CacheQueue.RunOps` | lib/src/cache.c:30-290 | every sequential run of adds and lookups keeps the pointer structure valid, passes its self-check after each operation, holds what the model run holds, and answers each lookup with what was added last for the key, or with nothing if nothing is held |
| `LruModel.FoldIffSameKey` | lib/src/cache.c:261-269 | two keys fold to the same exactly when all three strings agree character by character up to ASCII case |
| `LruModel.TrimIsLongestFit` | lib/src/cache.c:118-125 | eviction leaves the longest most-recently-used suffix whose weight fits the capacity |
| `LruModel.AddExact` | lib/src/cache.c:114-126 | what an add leaves is the longest suffix, new entry included, that fits, and nothing else is |
| `LruModel.AddKeepsNewEntry` | lib/src/cache.c:114-126 | the new entry survives its own arrival exactly when it fits the capacity |
| `LruModel.RunWithinCapacity` | lib/src/cache.c:114-126 | in every run the load stays within the capacity |
| `LruModel.HeldAreLatestAdded` | lib/src/cache.c:114-254 | over every history, duplicate keys included, the entries held for a key are the latest ones added for it, in the order of arrival |
| `LruModel.HitReturnsLatestAdd` | lib/src/cache.c:236-254 | a hit returns what was added last under that key up to letter case; a miss means that no entry for the key is held |
| `LruModel.LookupKeepsMatches` | lib/src/cache.c:236-254 | a lookup reorders the entries of no key among themselves |
| `LruModel.ListSortedByLastUse` | lib/src/cache.c:208-220 | the list is always sorted by the moment each entry was last added or hit |
| `LruStackDistance.RecencyIsOrder` | lib/src/proxy-module.c:43-62 | the reference order is the set of requested keys in the order of their last requests |
| `LruStackDistance.ServeAllIsRun` | lib/src/proxy-module.c:43-62 | serving requests is one of the runs of lookups and adds that the pointer cache follows |
| `LruStackDistance.CacheIsTrimmedRecency` | lib/src/proxy-module.c:43-62 | after any requests, each a lookup and on a miss an add, the cache holds exactly the most recently requested keys whose total weight fits |
| `LruStackDistance.Inclusion` | lib/src/cache.c:114-254 | a cache of smaller capacity always is the most recently used part of a larger one, so more capacity never turns a hit into a miss |
| `LruStackDistance.HitIffRecentEnough` | lib/src/cache.c:236-254 | a request hits exactly when the key and all keys requested since weigh no more than the capacity |
| `ProxyCache.ServeRequests` | lib/src/proxy-module.c:43-62 | on the pointer cache, each request hits exactly when its key is recent enough to fit |
| `ProxyCache.CompareCapacities` | lib/src/proxy-module.c:43-62 | of two pointer caches that serve the same requests, the larger one hits whenever the smaller one does |
| `RingBuffer.NextKeepsInv` | lib/src/sbuf.c:18-36 | every step of every thread keeps units conserved, counters apart, and each unread value in its slot, and only extends the two histories |
| `RingBuffer.RunIsSafe` | lib/src/sbuf.c:4-36 | in every interleaving slots, items and threads in flight make up n, rear is at most n ahead of front, and values are read in the order in which they were written |
| `RingBuffer.NoUnreadSlotOverwritten` | lib/src/sbuf.c:18-24 | no write of any run changes a slot whose value has not been read |
| `RingBuffer.SomeThreadCanStep` | lib/src/sbuf.c:18-36 | with a slot and a thread of each kind, no reachable state is a deadlock |
| `RingBuffer.OnlyPBlocks` | lib/src/sbuf.c:18-36 | a thread in the middle of a call is blocked by nothing but a P |
| `RingHistory.RunHasActions` | lib/src/sbuf.c:18-36 | every run is the outcome of a sequence of thread moves, each call beginning with an item of its own |
| `RingHistory.ItemsConserved` | lib/src/sbuf.c:18-36 | over every run, the items that callers hand in are exactly those written and those still carried to the ring; the values read are exactly those returned to callers and those still on their way out |
| `RingHistory.HoldsWhatItRead` | lib/src/sbuf.c:26-36 | between its read and its return, a remover holds the value that its own read took from the ring |
| `RingHistory.CallsCanFinish` | lib/src/sbuf.c:18-36 | from every state that keeps the invariant, the calls under way can all be finished, without new ones; then the lock is free and slots and items make up n |
| `ReaderWriterLock.NextKeepsInv` | lib/src/cache.c:45-75 | every step of every reader or writer keeps the counts of `readcnt`, `mutex` and `w` in balance |
| `ReaderWriterLock.MutualExclusion` | lib/src/cache.c:45-75 | in every reachable state at most one writer is inside, and never beside a reader |
| `ReaderWriterLock.QuietStates` | app/reader-writer.c:13-42 | whenever `mutex` is free, `readcnt` is the number of counted readers and `w` is held exactly by a writer or a group of readers |
| `ReaderWriterLock.SomeThreadCanStep` | app/reader-writer.c:13-42 | some thread can always step |
| `ReaderWriterLock.ReaderJoins` | app/reader-writer.c:13-34 | readers are favoured: while one reads and `mutex` is free, another can enter without waiting for `w` |
| `LockProgress.WriterPasses` | lib/src/cache.c:67-75 | a free lock lets a writer in, which takes w; a writer inside gets out by its own step, and w is free afterwards |
| `LockProgress.FirstReaderEnters` | lib/src/cache.c:45-55 | a reader that finds the lock free gets in by five steps of its own and takes w for the group |
| `LockProgress.LastReaderLeaves` | lib/src/cache.c:57-65 | the last reader gets out by five steps of its own and gives w back |
| `LockProgress.OtherReaderLeaves` | lib/src/cache.c:57-65 | a reader that is not the last gets out by four steps of its own and leaves w taken |
| `LockProgress.AllCanLeave` | lib/src/cache.c:45-75 | from every state that keeps the invariant, everybody inside can get out, and the lock is then as it was set up |
| `GlobFilter.LaterStarSubsumes` | googletest/googletest/src/gtest.cc:707-731 | once a later star is reached, an earlier one is never needed as a restart point |
| `GlobFilter.PatternMatchesString` | googletest/googletest/src/gtest.cc:695-740 | true exactly when the pattern matches declaratively, within (name length + 1) * (pattern length + 1) turns |
| `GlobFilter.SplitUnique` | googletest/googletest/src/gtest.cc:1234-1249 | a string splits at a delimiter in only one way |
| `GlobFilter.SplitString` | googletest/googletest/src/gtest.cc:1234-1249 | the parts hold no delimiter and join back to the string |
| `GlobFilter.ExactPattern` | googletest/googletest/src/gtest.cc:744-747 | a pattern without wildcards matches exactly itself, which justifies the set of exact patterns |
| `GlobFilter.UnitTestFilter.constructor` | googletest/googletest/src/gtest.cc:749-767 | the filter accepts a name exactly when one of the ':'-separated patterns matches it |
| `GlobFilter.UnitTestFilter.MatchesName` | googletest/googletest/src/gtest.cc:769-776 | set lookup and globs together equal trying every pattern |
| `GlobFilter.MatchesFilter` | googletest/googletest/src/gtest.cc:842-845 | a name passes exactly when one of the filter's patterns matches it |
| `GlobFilter.SplitFilter` | googletest/googletest/src/gtest.cc:789-819 | the filter is divided at its first dash; later dashes stay in the negative part; an empty positive part selects everything |
| `GlobFilter.PositiveAndNegativeUnitTestFilter.MatchesName` | googletest/googletest/src/gtest.cc:829-833 | selected by the positive patterns and not by the negative ones |
| `Expectations.AllPrerequisitesAreSatisfied` | googletest/googlemock/src/gmock-spec-builders.cc:135-152 | ends on every acyclic graph although it revisits shared nodes; true exactly when every transitive prerequisite is satisfied |
| `Expectations.FindUnsatisfiedPrerequisites` | googletest/googlemock/src/gmock-spec-builders.cc:155-182 | adds exactly the unsatisfied nodes reached through satisfied ones that have not been called |
| `Expectations.ClosureRetiresAll` | googletest/googlemock/src/gmock-spec-builders.cc:114-128 | when retired nodes have only retired prerequisites, stopping at a retired node misses nothing |
| `Expectations.RetireAllPreRequisites` | googletest/googlemock/src/gmock-spec-builders.cc:108-131 | retires exactly the transitive prerequisites and restores the closure; the walk ends |
| `Expectations.ShouldHandle` | googletest/googlemock/include/gmock/gmock-spec-builders.h:1121-1131 | true exactly when not retired and every transitive prerequisite is satisfied |
| `Expectations.RecordCall` | googletest/googlemock/include/gmock/gmock-spec-builders.h:1215-1250 | a call keeps the graph consistent: whoever has been called has only retired, satisfied prerequisites |
| `Expectations.UnusedIsConsistent` | googletest/googlemock/include/gmock/gmock-spec-builders.h:1215-1250 | a graph in which nothing has been called or retired is consistent |
| `Expectations.RunCalls` | googletest/googlemock/include/gmock/gmock-spec-builders.h:1121-1250 | over any list of calls from the start, each handled call finds all transitive prerequisites satisfied by the calls handled before it and is never followed by a handled call to one of them; whoever has been called has retired, satisfied prerequisites |
| `Expectations.CalledMeansSettled` | googletest/googlemock/include/gmock/gmock-spec-builders.h:1215-1250 | in every state that `RunCalls` passes through, the prerequisites of a called expectation are retired and satisfied |
| `Expectations.BlameComplete` | googletest/googlemock/src/gmock-spec-builders.cc:155-182 | the short report names an unsatisfied prerequisite exactly when one exists anywhere below |
| `Expectations.Sequence.AddExpectation` | googletest/googlemock/src/gmock-spec-builders.cc:757-765 | the previous member of the sequence becomes a prerequisite, nothing else changes |
| `Expectations.AddAll` | googletest/googlemock/src/gmock-spec-builders.cc:757-765 | after adding any list to a sequence, each member is a transitive prerequisite of every later one |
| `SimpleRegex.ValidateRegex` | googletest/googletest/src/gtest-port.cc:792-843 | accepts exactly the printed forms of the grammar, and never reads past the end |
| `SimpleRegex.AcceptedIffPrinted` | googletest/googletest/src/gtest-port.cc:792-843 | the left-to-right conditions of the validator define exactly that grammar |
| `SimpleRegex.PrintInjective` | googletest/googletest/src/gtest-port.cc:792-843 | an accepted string has only one reading |
| `SimpleRegex.AtomDecides` | googletest/googletest/src/gtest-port.cc:751-781 | the matcher of one character decides what each valid atom means, given by character codes: digits, word characters, white space and their complements, control characters, any but a newline, or the character itself |
| `SimpleRegex.EscapeByCode` | googletest/googletest/src/gtest-port.cc:745-747 | what may be escaped is exactly ASCII punctuation, by code, and the eleven class letters |
| `SimpleRegex.MatchRepetitionAndRegexAtHead` | googletest/googletest/src/gtest-port.cc:852-871 | true exactly when some allowed number of repetitions leaves a string whose prefix the rest matches |
| `SimpleRegex.MatchRegexAtHead` | googletest/googletest/src/gtest-port.cc:876-900 | true exactly when a prefix of the string is in the language of the regex; the mutual recursion ends and never reads past the end of the regex |
| `SimpleRegex.MatchRegexAnywhere` | googletest/googletest/src/gtest-port.cc:910-920 | true exactly when some substring, a prefix after '^' and a suffix before '$', is in the language |
| `SimpleRegex.PartialMatch` | googletest/googletest/src/gtest-port.cc:933-950 | an invalid regex matches nothing; a valid one matches as its only reading says, each atom meaning a set of character codes |
| `SimpleRegex.FullPatternPrinted` | googletest/googletest/src/gtest-port.cc:954-964 | the pattern made for a full match is the same regex with both anchors, except that an escaped '$' at the end passes for the second one |
| `SimpleRegex.FullMatch` | googletest/googletest/src/gtest-port.cc:926-929 | true exactly when the whole string is in the language or, after an escaped '$' at the end of the regex, some prefix of it |
| `SimpleRegex.FullMatchMeansWhole` | googletest/googletest/src/gtest-port.cc:926-964 | a full match means, for all strings, that the whole string is in the language exactly for the regexes that do not end in an escaped '$' |
| `SimpleRegex.FullMatchOfPrefix` | googletest/googletest/src/gtest-port.cc:962-964 | an escaped dollar alone fully matches "$x", which is not in its language |
| `EditDistance.CalculateOptimalEdits` | googletest/googletest/src/gtest.cc:1291-1346 | the filled table and its back-trace give the script of the specification, which replays left into right and is all matches exactly when they are equal |
| `EditDistance.CalculateOptimalLineEdits` | googletest/googletest/src/gtest.cc:1367-1381 | interning the lines first gives the same script as comparing the lines themselves |
| `EditDistance.InternalStrings.GetId` | googletest/googletest/src/gtest.cc:1351-1363 | equal strings get equal numbers, different ones different numbers, for good |
| `EditDistance.BacktraceReplays` | googletest/googletest/src/gtest.cc:1335-1346 | from every cell the back-trace ends at (0,0), replays left into right, and weighs what the cell says |
| `EditDistance.EditsReplay` | googletest/googletest/src/gtest.cc:1291-1346 | the script replays left into right, weighs the final cell, at most 1.00001 * max(lengths), and is all matches exactly when left equals right |
| `EditDistance.SameScripts` | googletest/googletest/src/gtest.cc:1367-1381 | the script depends only on which items are equal |
| `EditOptimality.MoveByCosts` | googletest/googletest/src/gtest.cc:1318-1332 | where the items differ, an addition or a removal is chosen exactly when it starts strictly below both other costs, and a replacement wherever two of the costs share the least place or replacing is the strictly cheapest start |
| `EditOptimality.ReturnedIsBestBound` | googletest/googletest/src/gtest.cc:1310-1346 | on every input the returned script matches equal items, replaces where the least of the three costs is shared, and weighs least of all scripts that do both |
| `EditOptimality.LeastIsLowerBound` | googletest/googletest/include/gtest/internal/gtest-internal.h:169-176 | no script that replays weighs less than the recurrence without the guard |
| `EditOptimality.LeastIsReached` | googletest/googletest/include/gtest/internal/gtest-internal.h:169-176 | some script that replays weighs exactly that |
| `EditOptimality.OptimalIffLeast` | googletest/googletest/include/gtest/internal/gtest-internal.h:169-176 | the returned script is optimal exactly when its weight equals the recurrence without the guard |
| `EditOptimality.OptimalIffGuardHarmless` | googletest/googletest/src/gtest.cc:1319-1332 | the returned script is optimal exactly when every script is matched by one that obeys the guard and weighs no more |
| `EditOptimality.OptimalAvoidsTies` | googletest/googletest/src/gtest.cc:1319-1346 | the back-trace of an optimal script visits no cell where the replacement was forced by a tie |
| `EditOptimality.TieOffTheWayIsHarmless` | googletest/googletest/src/gtest.cc:1319-1332 | "abab" into "bab" has such a cell and still gets an optimal script |
| `EditOptimality.HarmOffTheWay` | googletest/googletest/src/gtest.cc:1319-1332 | "aba" into "baac" has no such cell on its back-trace and still gets a script that is not optimal |
| `EditOptimality.MinimalIffNoBadTie` | googletest/googletest/src/gtest.cc:1310-1332 | the cells for all pairs of prefixes hold minimal weights exactly when no cell replaces although adding or removing starts from no more |
| `EditOptimality.EntryIsLowerBound` | googletest/googletest/src/gtest.cc:1310-1332 | without such a tie no script that replays the prefixes weighs less than the cell |
| `EditOptimality.OptimalFails` | googletest/googletest/src/gtest.cc:1321-1332 | "aba" into "bab" gets a script that is not optimal |
| `Hunks.Hunk.PushLine` | googletest/googletest/src/gtest.cc:1399-1414 | the line joins the old side, the new side or both; it goes to the end, a removed line in front of the added ones just before it; the three header counts stay the numbers of lines of each kind; a change resets the trailing context, a common line lengthens it |
| `Hunks.Hunk.PrintTo` | googletest/googletest/src/gtest.cc:1416-1424 | the printed lines keep both sides and their order, with removals before additions in every group |
| `Hunks.PauseBounds` | googletest/googletest/src/gtest.cc:1457-1465 | every run of unchanged lines between two changed ones of a hunk is within the number that bounds the joining of hunks |
| `DiffScript.ListBehind` | googletest/googletest/src/gtest.cc:1399-1414 | behind lines that do not end in added ones, edits are listed as they would be alone, so that hunks can be built one by one |
| `UnifiedDiff.BuildHunk` | googletest/googletest/src/gtest.cc:1480-1517 | the hunk holds a contiguous slice of each side with the promised unchanged lines around its edits, keeps fewer than 2 * `context` unchanged lines between them, and stops only where the next edit is far |
| `Patching.OneMoreHunk` | googletest/googletest/src/gtest.cc:1519-1524 | appending a hunk that starts within the copied lines keeps the partial patch equal to the same part of right |
| `UnifiedDiff.CreateUnifiedDiff` | googletest/googletest/src/gtest.cc:1466-1527 | hunks are disjoint, in order and agree with both files; each is surrounded by exactly `context` unchanged lines except at the ends of the files, and joined with the next exactly as far as fewer than 2 * `context` unchanged lines lie between; with positive context, their lines and the unchanged lines between them are exactly the listing of the script of `CalculateOptimalEdits`; patching left with all of them gives right exactly when context is positive or the files are equal |
| `UnifiedDiff.NothingWithoutContext` | googletest/googletest/src/gtest.cc:1488-1517 | with context 0 no hunk is printed for one changed line |
| `Utf8.IsValidUTF8` | googletest/googletest/src/gtest-printers.cc:481-512 | true exactly on the byte sequences of the syntax in section 4 of RFC 3629 |
| `Utf8.ValidIffEncoding` | googletest/googletest/src/gtest.cc:1972-1998 | NUL-free bytes are valid exactly when they are a concatenation of encoded non-zero scalar values |
| `Utf8.EncodingInjective` | googletest/googletest/src/gtest.cc:1972-1998 | two lists of scalar values with the same encoding are the same list |
| `Utf8.InvalidMessageExact` | googletest/googletest/src/gtest.cc:1966-1975 | the error text appears exactly above 0x1FFFFF, which differs from the documented bound exactly between 0x10FFFF and 0x1FFFFF |
| `Utf8.NoMessageAboveUnicode` | googletest/googletest/src/gtest.cc:1966-1975 | 0x110000 becomes four bytes that are no valid UTF-8, and no message |
| `Utf8.MessageNamesCodePoint` | googletest/googletest/src/gtest.cc:1972-1975 | the error text holds the code point in upper-case hexadecimal without leading zeros |
| `Utf8.BitsKept` | googletest/googletest/src/gtest.cc:1972-1998 | every number up to 0x1FFFFF, surrogates included, is written in the shortest of the four forms, with the marks of lead and trail bytes and exactly its bits |
| `Utf8.OutputValidIff` | googletest/googletest/src/gtest.cc:1972-1998 | encoded code points are valid UTF-8 exactly when each is a scalar value or so large that it turns into the error text |
| `Utf8.WideStringToUtf8` | googletest/googletest/src/gtest.cc:2039-2059 | the loop encodes the code points read up to the length or the first NUL |
| `Utf8.Utf16ReadBack` | googletest/googletest/src/gtest.cc:2007-2024 | reading the UTF-16 form of scalar values (section 2.1 of RFC 2781) gives them back |
| `Utf8.Utf16ToUtf8` | googletest/googletest/src/gtest.cc:2039-2059 | NUL-free well-formed UTF-16 becomes valid UTF-8 that decodes to the same code points and no others |
| `Utf8.ValidOutputIffUtf16` | googletest/googletest/src/gtest.cc:2039-2059 | 16-bit input becomes valid UTF-8 exactly when its part before the first NUL is well-formed UTF-16 |
| `Utf8.UnitsStandAlone` | googletest/googletest/src/gtest.cc:2007-2011 | wherever wide characters are not 16 bits wide, no two are combined: each stands for itself up to the first NUL |
| `Utf8.Utf32ToUtf8` | googletest/googletest/src/gtest.cc:2039-2059 | NUL-free UTF-32 becomes valid UTF-8 that decodes to the same code points and no others |
| `Uint128Printer.DivisionStep` | googletest/googletest/src/gtest-printers.cc:304-313 | one turn divides exactly by ten, and the new low half stays below 2^64 |
| `Uint128Printer.DivideByTen` | googletest/googletest/src/gtest-printers.cc:301-313 | quotient and last digit of the value held in two halves |
| `Uint128Printer.PrintUnsigned` | googletest/googletest/src/gtest-printers.cc:289-321 | the text is the decimal numeral of the value, without leading zeros, at most 39 digits |
| `Uint128Printer.PrintSigned` | googletest/googletest/src/gtest-printers.cc:322-329 | a minus sign exactly for negative values, then the numeral of the absolute value, the least value included |
| `PrimeTables.OnTheFlyPrimeTable.IsPrime` | googletest/googletest/samples/prime_tables.h:55-64 | trial division up to the square root decides primality for all integers |
| `PrimeTables.OnTheFlyPrimeTable.GetNextPrime` | googletest/googletest/samples/prime_tables.h:66-74 | the open-ended search ends and returns the least prime above p, or -1 for negative p |
| `PrimeTables.PrimeAbove` | googletest/googletest/samples/prime_tables.h:66-74 | primes never run out |
| `PrimeTables.PreCalculatedPrimeTable.CalculatePrimesUpTo` | googletest/googletest/samples/prime_tables.h:100-123 | the sieve marks exactly the primes |
| `PrimeTables.PreCalculatedPrimeTable.GetNextPrime` | googletest/googletest/samples/prime_tables.h:91-97 | the least prime above p within the table, or -1 exactly when the table has none |
| `PrimeTables.HybridPrimeTable.IsPrime` | googletest/googletest/samples/sample8_unittest.cc:59-64 | decides primality for all integers, whatever the size of the table |
| `PrimeTables.HybridPrimeTable.GetNextPrime` | googletest/googletest/samples/sample8_unittest.cc:66-72 | the least prime above p, within or beyond the table; below zero, 2 from a table that holds it and -1 otherwise |
| `PrimeTables.IsPrimeByOddDivisors` | googletest/googletest/samples/sample1.cc:45-66 | odd trial division with the quotient test decides primality for all integers |
| `BufferedReader.Rio.RioRead` | lib/src/csapp.c:721-743 | delivered bytes followed by what is still to come are what was to come before; zero means the end |
| `BufferedReader.Rio.ReadNb` | lib/src/csapp.c:761-775 | delivers the next n bytes, fewer only at the end of the stream |
| `BufferedReader.Rio.ReadLineB` | lib/src/csapp.c:782-803 | delivers the bytes up to and including the next newline, cut at the length limit or the end |
| `BufferedReader.LineExact` | lib/src/csapp.c:782-803 | a line ends at the first byte 10, and otherwise only at the length limit or the end of the stream |
| `BufferedReader.Serve` | lib/src/csapp.c:721-803 | any mix of the two calls gives answers that depend on the stream alone, however `read()` cuts or interrupts it |
| `BufferedReader.AnswersInOrder` | lib/src/csapp.c:721-803 | the answers put together are a prefix of the stream: nothing lost, repeated or reordered |

## Left out

- Sockets, name lookup, signals, thread creation, logging and HTML error pages: input and output without a result to state.
- `parse_uri` and `parse_request`: straight scanning of fixed-size buffers would only add easy members.
- Fine-grained composition of lock and cache: cache operations are atomic here and the lock is a protocol of its own. The source releases the read lock before `update` (lib/src/cache.c:245-248) and tests the load outside the lock (lib/src/cache.c:119-122); nothing is claimed about such interleavings.
- Memory of cache nodes: allocation, `free_node`, `cache_destroy`, `print_cache` and the copy into the caller's buffer. A node's weight, which stands for `strlen(payload)`, never changes, and `bytesize` is carried along unrelated to it, as in the source.
- The size limit in lib/src/proxy-module.c:61: answers too large for the cache are never added; the request model covers the others.
- CacheQueue.Cache.LinkLast and CacheQueue.Cache.Unlink stand for pointer assignments that the source writes out in `enqueue` and `update`; the methods that fill the edit table and build hunks divide single functions of the source in the same way.
- Machine widths where they are not the point: the ring's `front` and `rear`, `i * i` in the prime tests, and the repetition limit of the regex matcher are unbounded integers. The width of the 128-bit printer is modelled.
- Edit costs are exact reals; the doubles of the source are not rounded here.
- The search for a matching takes the graph as a value, vectors are sequences, and elements are compared with matchers beforehand; messages to listeners, `Randomize` and `DebugString` are not modelled.
- Hunk headers: a hunk is a record with its starts and counts; the text that omits one half of the header is not modelled.
- The order of the glob patterns after partitioning, and the pointer order of expectation sets, are arbitrary choices; results do not depend on them.
- Cardinalities are functions of the call count; argument matchers and actions are outside the graph. Prerequisites point to expectations set earlier, given as a rank.
- Null arguments of the regex functions and the text of their error messages.
- Characters as numbers: a byte is a number below 256, a `wchar_t` a number whose size is a parameter that only decides whether surrogate pairs are combined.
- PrimeTables.PreCalculatedPrimeTable.GetNextPrime: the table has at least two entries and p is at least -1, as below that the source indexes outside its array.
- `read()` is a finite list of deliveries, interruptions and failures chosen beforehand; after the list it delivers all it can.
- `nio_*`, a second buffered reader, death tests, the mock registry, listeners, reports, flag parsing and the template machinery of GoogleTest.
