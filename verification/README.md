# Prometheus MCP server: documentation state, text front ends and time arithmetic

This project models the parts of the Prometheus MCP server whose behaviour is more than plumbing,
and proves what they promise.

- **Live documentation.** Any number of goroutines read the documentation state under a read
  lock; others replace it under the write lock and close the superseded search index after
  unlocking. `DocsProtocol` is the protocol as a step function over arbitrarily many goroutines,
  one source statement per step, and a run is any schedule of steps; `DocsSafety` holds the theorems
  over all schedules, and `DocsProgress` proves the absence of deadlock and that every reader gets
  through. `Updater` is the updater and
  the container as classes, with the composition of any number of `Update` calls against an arbitrary
  remote. `DocsLive` relates concurrent swaps to the container's swaps in sequence. `DocsUpdates` is
  the whole system as a step function: start-up, readers, and any number of goroutines calling `Update`
  under its mutex; it is proved to behave as if the calls had been made one after the other.
- **Archive extraction** (`Archive`): the loop with its filters, caps and 64-bit arithmetic, and the
  path check `filepath.IsLocal`, which is proved to mean that no step along the path leaves the root.
  `MapFs` says which of the stored paths can be opened again, `MapWalk` which of them the walk lists.
- **Search index and documentation tools** (`DocsIndex`, `DocsHandlers`, `Uri`): chunk identifiers,
  building the index, the `prometheus://docs/` URIs and the search tool, whose reads happen in
  separate critical sections.
- **Skills** (`Frontmatter`, `Names`, `Skills`): the two frontmatter expressions under Go's
  leftmost-first matching rule, as a backtracking search over patterns; the name expression as a
  regular language; parsing, loading and reading back through `skill://` URIs.
- **Output and arithmetic** (`Lines`, `Limits`, `Times`): line truncation and the list renderers,
  metadata limits, the automatic step of range queries, numeric timestamps and relative times.
- `Text` holds the pieces of `strings` and `strconv` that all of these use, `Utf8` the encoding behind
  white space and path names.

Conventions. A Go string is a sequence of bytes, one `char` per byte. 64-bit integers are written out
where they matter (`Int64`, `Wrap64`). Instants and durations are unbounded counts of nanoseconds.
`float64` values are exact reals. An error is a value without a message.

Where comments in the source and its code differ, the model follows the code:

- The comment on `stripFrontmatter` (pkg/mcp/docs.go:29-31) describes a block that starts and ends
  with a line `---`. The expression takes any "\n---" for the end, even one that begins a longer line
  (`StripEndsInMidLine`), and looks for it only from offset 4, so that an empty block is not seen
  (`StripKeepsEmptyBlock`). `StripMeetsCommentIff` says exactly when code and comment agree.
- The comment on `truncateStringByLines` (pkg/mcp/handlers.go:92-93) says the flag tells whether
  truncation occurred; for text that ends with its last allowed line, newline included, the flag is
  set although nothing is cut (`FlagOnExactFit`). `FlagTellsCutIff` says that this is the only case.
  The response then carries the warning although it is whole (`WarnedOnExactFit`,
  `WarnedThoughWholeIff`).
- The comment in `ParseTimestampOrDuration` (pkg/prometheus/utils.go:115-118) says durations always
  mean the past relative to now; the valid duration "0", with or without a minus sign, is read as a
  timestamp first and means the epoch (`BareZeroIsEpoch`). `DurationsMeanPastIff` says for every
  duration when the comment holds.
- Extraction stores a path as the archive spells it, and `io/fs` opens cleaned names only: a local path
  such as "a//b.md" is stored and cannot be read (`StoredButNotServed`). `OpenIffClean` says which
  paths can be.
- A file in the archive that bears the name of a directory hides what lies below: with "a.md" and
  "a.md/b.md" both can be read, and only the first is listed and indexed (`HiddenByFile`).
  `FileIsIndexedIff` says for which files this happens.
- A hash is taken from the remote's references and the archive from the main branch in a separate
  request. Nothing here says that the served text is that commit's;
  `HashAndDocsOfLastApplied` says only that both come from the same call.

## Model

| member | source | states |
|---|---|---|
| DocsProtocol.Reachable | pkg/mcp/server.go:475-486 | after every schedule of readers and swappers: mutual exclusion, a locked goroutine's copy of `s.docs` is current, every index has exactly one owner (about to be installed, current, about to be closed, closed) |
| DocsProtocol.StepKeepsLockInv | pkg/mcp/server.go:555-610 | each statement keeps mutual exclusion, and the state a reader has loaded, or a swapper until it stores, stays equal to `s.docs` |
| DocsProtocol.StepKeepsOwnerInv | pkg/mcp/server.go:475-486 | each statement keeps single ownership: no two goroutines hold the same fresh or superseded index, and neither is current or closed |
| DocsProtocol.StepForgetsNone | pkg/mcp/server.go:475-486 | each statement keeps every index ever built accounted for |
| DocsProtocol.StepKeepsHistInv | pkg/mcp/server.go:475-486 | each statement keeps the event log a legal atomic-register history without use after close, double install or double close |
| DocsSafety.NoReaderMeetsClosedIndex | pkg/mcp/server.go:555-586 | no reader holding the read lock ever has a closed index, although closing happens outside the lock, and no use follows a close |
| DocsSafety.CurrentIndexOpenAndClosesUnique | pkg/mcp/server.go:475-486 | the installed index is never closed, and every index is installed and closed at most once |
| DocsSafety.IndexesConserved | pkg/mcp/server.go:475-486 | built = installed + waiting to be installed, and installed = closed + awaiting close + current, after every schedule |
| DocsSafety.QuiescentLeavesOneOpen | pkg/mcp/server.go:472-486 | with no swap in progress, an index is closed if and only if it is not the current one |
| DocsSafety.ReadsAreAtomic | pkg/mcp/server.go:555-610 | reads refine an atomic register: every use sees the state installed last at that moment |
| DocsSafety.CriticalSectionIsOneGeneration | pkg/mcp/server.go:555-610 | from RLock to RUnlock nothing is installed, so that a reader works on one generation, whenever it loads it |
| DocsSafety.NoSwapSameState | pkg/mcp/handlers.go:546-606 | separate critical sections without a swap between them see the same state |
| DocsSafety.GenerationsNeverGoBack | pkg/mcp/server.go:555-610 | uses see generations in the order of their installation: a later use, by whomever, never sees a state installed before the one an earlier use saw |
| DocsSafety.ReplacedNeverSeenAgain | pkg/mcp/server.go:475-486 | after a generation was seen to be replaced, nobody sees it again |
| DocsProgress.NeverStuck | pkg/mcp/server.go:475-486 | no deadlock: in every reachable state with an unfinished reader or swapper, some unfinished one can execute its next statement |
| DocsProgress.OnlyLockBlocks | pkg/mcp/server.go:476 | an unfinished goroutine is blocked if and only if it is a swapper waiting for a lock that somebody holds |
| DocsProgress.AdvanceShrinksWork | pkg/mcp/server.go:475-486 | each such statement lowers the number of statements left, over all goroutines, by one |
| DocsProgress.AdvancesAreBounded | pkg/mcp/server.go:475-486 | however the unfinished goroutines are scheduled, they execute no more statements than are left |
| DocsProgress.CanFinish | pkg/mcp/server.go:475-486 | after every schedule, all unfinished goroutines can finish, in exactly the number of statements left |
| DocsProgress.FinishedMeansDrained | pkg/mcp/server.go:472-486 | where nothing can advance any more, everybody has finished, the lock is free, and exactly the current index is open |
| DocsProgress.ReadAlone | pkg/mcp/server.go:555-610 | with no writer holding the lock, whatever readers hold it, the four statements of a reader use the current state once and leave everything else as it was |
| DocsProgress.ReadersShare | pkg/mcp/server.go:555-610 | while a reader holds the lock, another can take it, and then both hold it |
| DocsProgress.CanReadNow | pkg/mcp/server.go:555-610 | in every reachable state without a writer inside, an idle goroutine can use the state that is current there |
| DocsProgress.CanAlwaysRead | pkg/mcp/server.go:555-610 | every run can be continued so that a given goroutine uses the state that is then current |
| DocsLive.SwapsAmountToSequence | pkg/mcp/server.go:475-486 | for every interleaving: swapping the installed states one after the other leaves the same state current and closes exactly the indexes that are closed or about to be closed, each once |
| DocsLive.SwapAlone | pkg/mcp/server.go:475-486 | the five statements of a swap, undisturbed, exchange the state and close the superseded index |
| DocsLive.UpdatesAmountToSwaps | pkg/mcp/docs_updater.go:170-178 | any calls of `Update` do to the container what the swaps of the applied calls do, in order |
| DocsLive.UsesSeeUpdates | pkg/mcp/server.go:555-610 | when the installs of a run are those of start-up and of a sequence of `Update` calls, every use sees nothing, the initial state, or what the call installed last before it has fetched |
| DocsLive.QuiescentServerIsUpdaters | pkg/mcp/server.go:472-486 | when the swaps of all these calls are done, current and closed states are those of the calls made one after the other |
| DocsUpdates.AlwaysInStep | pkg/mcp/docs_updater.go:151-180 | after every run of readers and concurrent `Update` calls: only the call that has the mutex is in a swap, and hash, counters and installs are those of the calls so far in sequence, up to where the call in progress has got |
| DocsUpdates.InstallsFollowCalls | pkg/mcp/docs_updater.go:151-180 | the installs of any run are those of start-up and of the calls in the order in which they took the mutex, whether or not documentation was configured |
| DocsUpdates.CallsAmountToSequence | pkg/mcp/docs_updater.go:151-180 | while no call is in progress, hash, fetches, failures, current state, closed states and number of swaps are what the same calls leave when made one after the other |
| DocsUpdates.EveryUseSeesUpdate | pkg/mcp/server.go:555-610 | in any run, every use sees nothing, the state of start-up, or what the call that installed last before it has fetched |
| DocsUpdates.FinishedCallsAreSeen | pkg/mcp/docs_updater.go:151-180 | a use after a finished call comes after the installs of that call and of all before it |
| DocsUpdates.CallsNeverStuck | pkg/mcp/docs_updater.go:158-180 | while a call has the mutex, it or a reader that has started can execute its next statement |
| DocsUpdates.CallsGetThrough | pkg/mcp/docs_updater.go:158-180 | with the mutex free and no reader inside, any idle goroutine can make a call of `Update`, which undisturbed leaves exactly what that call leaves when made alone |
| DocsUpdates.ReadersGetThrough | pkg/mcp/server.go:555-610 | a goroutine outside the mutex can read whenever nobody holds the write lock, a call in progress or not |
| Updater.ServerContainer.SwapDocsState | pkg/mcp/server.go:475-486 | the state is exchanged and exactly the superseded state's index is closed |
| Updater.DocsUpdater.CheckForUpdate | pkg/mcp/docs_updater.go:184-206 | an error unless the main branch is listed; otherwise its hash and whether it is new |
| Updater.DocsUpdater.FetchAndUpdateDocsFS | pkg/mcp/docs_updater.go:211-247 | one fetch; if the answer has status 200, is a gzip stream, extracts, can be walked and indexed, it is swapped in; otherwise nothing changes and an error is reported |
| Updater.DocsUpdater.Update | pkg/mcp/docs_updater.go:158-180 | the whole observable state after one call is the specified function of the state before and what the remote answers |
| Updater.DownloadSucceedsIff | pkg/mcp/docs_updater.go:211-247 | a download works if and only if there is an answer with status 200, a gzip stream, no item that breaks extraction, some wanted entry, a walk without error and an index; its state serves the extracted files |
| Updater.UpdateMeans | pkg/mcp/docs_updater.go:158-206 | a call installs hash and files if and only if main is listed with a new hash and the download works; it reports a failure if and only if main is not listed, or the hash is new and the download fails |
| Updater.OneCall | pkg/mcp/docs_updater.go:158-180 | hash change if and only if swap; an error leaves documentation and hash alone and adds exactly one failure; a known hash causes no fetch, no swap and no failure |
| Updater.UpdateBalance | pkg/mcp/docs_updater.go:158-206 | over any calls: swaps are hash changes, fetches are the calls that met a new hash, failures are the calls that returned an error, every replaced state is closed once |
| Updater.HashAndDocsOfLastApplied | pkg/mcp/docs_updater.go:170-176 | hash and documentation always stem from the same call, the last one that installed anything; with none, both are the initial ones |
| Updater.FetchedIsBoundedAndIndexed | pkg/mcp/docs_updater.go:235-245 | what an update extracts is within the size and count limits and has only local Markdown paths; what it installs opens exactly the extracted files whose path is clean and valid UTF-8, and its index holds exactly the chunks of the files that the walk lists |
| Updater.EveryExtractedChunkIsIndexed | pkg/mcp/server.go:522-546 | if the walk misses no file that can be opened, every chunk of every such extracted file that the index accepts is found under its identifier |
| Updater.WalkMissesNoneIff | pkg/mcp/docs.go:39-47 | when all extracted paths can be opened, the walk of their file system misses no file if and only if no file bears the name of a directory that holds another |
| Updater.FileIsIndexedIff | pkg/mcp/server.go:522-546 | then every extracted file can be read, and its chunks are in the index if and only if no file bears the name of one of its directories |
| MapWalk.WalkMapLists | pkg/mcp/docs.go:39-47 | the walk of a map of files ends and lists a path as a file if and only if it is a file that no other file hides |
| MapWalk.HiddenByFile | pkg/mcp/docs.go:39-47 | two files of which one hides the other |
| MapFs.StoredButNotServed | pkg/mcp/docs_updater.go:292-323 | an archive of one file whose path is local, is stored as it is spelt, and cannot be opened |
| MapFs.OpenIffClean | pkg/mcp/docs_updater.go:292-323 | a path that passes the local check can be opened after storing if and only if it is its own cleaned form and valid UTF-8 |
| Archive.CleanTracksLevel | pkg/mcp/docs_updater.go:292-295 | cleaning a path leaves a leading ".." exactly when some step along it rises above the root |
| Archive.LocalMeansInside | pkg/mcp/docs_updater.go:292-295 | the path check accepts exactly the relative paths no prefix of which leaves the root, inner ".." included |
| Archive.DocPathMeans | pkg/mcp/docs_updater.go:276-287 | the stored path is what follows a slash-free root directory and `docs/`, and every entry of that shape has one |
| Archive.WantedMeans | pkg/mcp/docs_updater.go:276-308 | extracted are exactly the regular entries of no negative size named root, `/docs/` and a non-empty relative path that stays inside and ends in ".md" in any case |
| Archive.ExtractDocs | pkg/mcp/docs_updater.go:256-330 | the loop, in wrapping 64-bit arithmetic, computes the specified fold over the archive's items |
| Archive.LastEntryWins | pkg/mcp/docs_updater.go:267-324 | the map's keys are exactly the paths of wanted entries, each with the contents of the last entry for it |
| Archive.SucceedsIff | pkg/mcp/docs_updater.go:267-329 | extraction succeeds if and only if no item breaks a header, size, count or read rule given what precedes it, and some entry is wanted |
| Archive.ExtractionBounds | pkg/mcp/docs_updater.go:284-323 | at every point: stored bytes ≤ counted bytes ≤ limit, files ≤ limit, duplicates included; keys are non-empty, local and Markdown |
| Archive.UpdateBytes | pkg/mcp/docs_updater.go:322-323 | storing a file adds at most its size, less when it overwrites |
| Archive.SizeCheckExact | pkg/mcp/docs_updater.go:309-313 | for every declared 64-bit size the subtraction form is exact |
| Archive.AdditiveCheckWraps | pkg/mcp/docs_updater.go:309-311 | the additive form would be right if and only if the sum fits 64 bits |
| Archive.SkippedEntryIrrelevant | pkg/mcp/docs_updater.go:276-308 | deleting any one skipped entry changes neither map nor success |
| Archive.OnlyKeptEntriesMatter | pkg/mcp/docs_updater.go:276-308 | deleting all skipped entries changes neither map nor success |
| Archive.RootNameIrrelevant | pkg/mcp/docs_updater.go:276-282 | renaming the slash-free root directory changes neither map nor success |
| DocsIndex.GetDocFileNames | pkg/mcp/docs.go:36-53 | the listing is the walk's files with extension ".md" in any case, in order, or an error |
| DocsIndex.ListingMeans | pkg/mcp/docs.go:43-45 | the listing keeps the files, not directories, that end in ".md" in any case, each where the walk met it |
| DocsIndex.ReadMeans | pkg/mcp/docs.go:55-68 | a file is read if and only if it can be opened, and then without the block at its beginning, said by position |
| DocsIndex.ExtensionIsSuffix | pkg/mcp/docs.go:43 | the listing's extension test and the extraction's suffix test accept the same paths |
| DocsIndex.KeyInjective | pkg/mcp/docs.go:82-84 | `name#id` determines name and id, whatever the name |
| DocsIndex.KeyMeans | pkg/mcp/docs.go:82-84 | the identifier is the name, one "#" and the number, which reads back |
| DocsIndex.RecoverNameMeans | pkg/mcp/handlers.go:565-572 | of any identifier, the name is what precedes its only "#", and there is none without one or with several |
| DocsIndex.RecoverNameIff | pkg/mcp/handlers.go:565-572 | the name is recovered from the identifier if and only if it has no "#"; otherwise the identifier is skipped |
| DocsIndex.BuildDocsState | pkg/mcp/server.go:490-552 | the nested loops compute the specified index, or an error |
| DocsIndex.BuildStateIsBuilt | pkg/mcp/server.go:522-546 | every chunk that can be read, split and indexed is in the index under its identifier; none overwrites another; nothing else is there |
| DocsIndex.BuildSucceedsIff | pkg/mcp/server.go:490-520 | a state is built if and only if there is a file system, it can be walked and an index can be created, and then serves that file system |
| DocsIndex.IndexMeans | pkg/mcp/server.go:522-546 | the index holds exactly the accepted chunks into which the listed files' texts, without their blocks, are split, numbered from 1 |
| DocsIndex.AllChunksMeans | pkg/mcp/server.go:522-546 | which chunks those are, said by membership |
| Uri.EscapeRoundTrip | pkg/mcp/handlers.go:530 | path escaping is undone by decoding for every byte string |
| Uri.EscapeLeavesAloneIff | pkg/mcp/handlers.go:530 | escaping leaves exactly the texts of plain path-segment bytes alone |
| Uri.ParseAssembled | pkg/mcp/resources.go:120-136 | a reference assembled from a plain scheme, host and path text parses into these parts, the path decoded |
| Uri.QueryAndFragmentCut | pkg/mcp/resources.go:120-136 | query and fragment play no part in scheme, host and path; control bytes before the fragment and malformed escapes in it are errors |
| DocsHandlers.DocUriRoundTrip | pkg/mcp/resources.go:157-168 | a documentation URI parses back to one slash and the file string, for every byte string |
| DocsHandlers.DocsReadIsFileRead | pkg/mcp/handlers.go:524-543 | reading through the URI is reading the file, for every non-empty byte string; the empty one is an error |
| DocsHandlers.DocsReadMeans | pkg/mcp/handlers.go:524-543 | reading succeeds if and only if documentation is loaded and the name is a file's, and returns its text without the block at its beginning |
| DocsHandlers.ReadAssembledFile | pkg/mcp/handlers.go:524-543 | a file made of frontmatter and body is read as exactly the body if and only if no "\n---" occurs in the frontmatter before its end |
| DocsHandlers.DocResourceMeans | pkg/mcp/resources.go:157-184 | which documentation URIs are served, and with which text |
| DocsHandlers.DocsSearch | pkg/mcp/handlers.go:546-606 | the handler's loops compute the specified outcome when search and each read may see different states; the index is asked for 25 hits if the limit is below 1 and otherwise for as many as it says |
| DocsHandlers.SearchMeans | pkg/mcp/handlers.go:546-606 | a search fails if and only if the query is empty, no documentation is loaded, the lookup fails, or a file found is no file of the state its read sees; each content is that file's text without its block |
| DocsHandlers.FilesOfMeans | pkg/mcp/handlers.go:562-577 | the file list holds exactly the recovered names, none twice, ordered by first occurrence |
| DocsHandlers.SearchSucceedsIff | pkg/mcp/handlers.go:583-594 | a search succeeds if and only if every file found can be read in the state its own read sees |
| DocsHandlers.HitNamesReadableFile | pkg/mcp/handlers.go:565-577 | a name recovered from a hit is a file of the state that was searched |
| DocsHandlers.SearchOfOneState | pkg/mcp/handlers.go:546-606 | a search that sees one state throughout succeeds and returns each file's text without its block, said by position |
| DocsHandlers.SearchSeesGenerationsInOrder | pkg/mcp/handlers.go:546-606 | in any run, swaps included, no read of a search sees a state installed before the one its search or an earlier read saw |
| DocsHandlers.SearchOfSameGenerationSucceeds | pkg/mcp/handlers.go:546-606 | in any run, swaps included, if search and last read see the same generation then so did every read in between, and the search succeeds |
| DocsHandlers.SearchWithoutSwapSucceeds | pkg/mcp/handlers.go:546-606 | in any run of the protocol, a search succeeds if no swap lands between its first and last critical section |
| Frontmatter.SkillExpressionMeans | pkg/mcp/runbooks.go:191-203 | the leftmost-first match of the skill expression is: first line a fence line, up to the first break that a fence line follows |
| Frontmatter.MatchFence | pkg/mcp/runbooks.go:194 | the closing part matches exactly the lines of `---`, blanks and at most one CR |
| Frontmatter.FenceLineMeans | pkg/mcp/runbooks.go:194 | a fence line is three dashes, spaces and tabs, and at most one CR |
| Frontmatter.MatchLazy | pkg/mcp/runbooks.go:194 | the reluctant group stops at the first position where the rest matches |
| Frontmatter.MatchMany | pkg/mcp/runbooks.go:194 | a greedy class takes all it can, when what follows cannot start inside the class |
| Frontmatter.SkillRoundTrip | pkg/mcp/runbooks.go:194-203 | an assembled document (LF or CRLF, blanks on fences, with or without a final newline) is always split, and back into its frontmatter if and only if no later line of that is a fence line and it does not end in CR before LF |
| Frontmatter.SkillSplitIff | pkg/mcp/runbooks.go:194-203 | a document is split if and only if it is a fence line, text, a line break, a fence line and what follows |
| Frontmatter.SkillBodyIsSuffix | pkg/mcp/runbooks.go:203 | the body is a suffix of the document |
| Frontmatter.StripMeans | pkg/mcp/docs.go:26-34 | stripping removes, once, the prefix through the first "\n---" at offset 4 or later and one newline, or nothing |
| Frontmatter.StripIs | pkg/mcp/docs.go:26-34 | the same by position, both ways |
| Frontmatter.StripMeetsCommentIff | pkg/mcp/docs.go:26-34 | for every text, stripping removes the block that starts and ends with a line `---` if and only if the text does not open with one, or the block is not empty and the first "\n---" after the opening line, if any, fills its line |
| Frontmatter.StripEndsInMidLine | pkg/mcp/docs.go:29-31 | a text whose block ends too early, in a longer line |
| Frontmatter.StripKeepsEmptyBlock | pkg/mcp/docs.go:29-31 | a text whose empty block stays |
| Frontmatter.StripRoundTrip | pkg/mcp/docs.go:26-34 | frontmatter in front of a body is stripped exactly if and only if no "\n---" occurs in it earlier |
| Names.NameMeans | pkg/mcp/runbooks.go:86-88 | the name expression accepts exactly the non-empty words over `[a-z0-9-]` without leading, trailing or doubled hyphen |
| Skills.FindTitle | pkg/mcp/runbooks.go:217-227 | the title is the trimmed text of the first line that starts with "# ", or empty |
| Skills.ParseSkill | pkg/mcp/runbooks.go:197-236 | parsing by expression, decoding, validation and line scan yields what the document denotes by lines |
| Skills.ParseMeans | pkg/mcp/runbooks.go:197-236 | parsing gives a runbook if and only if the document says it: name and description are the decoded fields within their rules, the body is what follows the closing fence without leading CR and LF, the title is the trimmed rest of its first line that starts with "# " and not empty, Raw is the document |
| Skills.LoadSucceedsIff | pkg/mcp/runbooks.go:143-189 | loading succeeds if and only if the directory can be read and every entry is a directory with a parseable SKILL.md of its name and none further down |
| Skills.MetaOkIff | pkg/mcp/runbooks.go:210-215 | which names and descriptions are accepted |
| Skills.ParsedKeepsText | pkg/mcp/runbooks.go:229-235 | Raw is the document itself, Body a suffix of it, and the name is well-formed |
| Text.LessIsByteOrder | pkg/mcp/runbooks.go:187 | names are ordered by their first differing byte, prefixes first |
| Skills.LoadRunbookDefs | pkg/mcp/runbooks.go:143-189 | loading computes the registry of the directory, or an error at the first invalid entry |
| Skills.RegistrySorted | pkg/mcp/runbooks.go:126-189 | the registry is strictly sorted by name and holds exactly the entries' skills |
| Skills.SortedListUnique | pkg/mcp/runbooks.go:187 | a strictly sorted list is determined by its elements, so the sorting algorithm does not matter |
| Skills.GetRunbookDef | pkg/mcp/runbooks.go:239-246 | the skill returned is an element of the list, has that name and is the first with it; nothing is returned if and only if no element has it |
| Skills.SkillResourceMeans | pkg/mcp/resources.go:118-152 | which skill URIs are served, and with which text |
| Skills.SkillUriParses | pkg/mcp/resources.go:118-136 | the URI of a well-formed name parses back to scheme, name and path |
| Skills.ReadReturnsFile | pkg/mcp/handlers.go:617-639 | for any requested name, reading through the URI returns the untouched SKILL.md of the directory of that name, and fails if and only if there is none |
| Lines.TruncateStringByLines | pkg/mcp/handlers.go:94-118 | with a positive limit, truncated if and only if the text has at least that many newlines, and then cut right behind the last of them |
| Lines.FlagTellsCutIff | pkg/mcp/handlers.go:92-118 | for every text and limit, the flag tells whether anything was cut if and only if the text does not end exactly with its `limit`-th line |
| Lines.FlagOnExactFit | pkg/mcp/handlers.go:92-93 | one terminated line and a limit of one: nothing is cut and the flag is set |
| Lines.TruncationUnique | pkg/mcp/handlers.go:94-118 | that contract determines the result |
| Lines.TruncateTwice | pkg/mcp/handlers.go:94-118 | truncating to m, then to n, is truncating to the smaller |
| Lines.RenderTerminated | pkg/mcp/handlers.go:722-730 | the builder loop writes every entry followed by a newline |
| Lines.TerminatedListTruncation | pkg/mcp/handlers.go:722-731 | newline-terminated lists report truncation at `limit` or more entries, show the first `limit`, and lose nothing at an exact fit |
| Lines.JoinedListTruncation | pkg/mcp/handlers.go:748-797 | joined lists are cut if and only if there are more than `limit` entries, and then show exactly the first `limit` |
| Lines.JoinedTruncationCountsInnerNewlines | pkg/mcp/handlers.go:792-797 | for entries that may hold newlines, exactly when a joined list is cut |
| Lines.FormatTruncated | pkg/mcp/handlers.go:663-672 | the warning is appended if and only if the limit is positive and the text has at least that many newlines |
| Lines.WarnedThoughWholeIff | pkg/mcp/handlers.go:660-668 | the whole text is returned with a warning if and only if it ends exactly with its `limit`-th line |
| Lines.WarnedOnExactFit | pkg/mcp/handlers.go:660-668 | one terminated line and a limit of one: nothing is cut and the warning is appended |
| Limits.NormalizeLimit | pkg/mcp/handlers.go:808-831 | an error if and only if the text is not empty and unreadable; the effective limit is that of the text, or the global one for an empty text, and 0 if negative; a positive one is sent as given or in decimal, 0 as the empty text |
| Limits.GlobalLimitIsSent | pkg/mcp/handlers.go:808-811 | the global limit survives printing and reading, for every 64-bit value, and is 0 if negative |
| Text.AtoiOfItoa | pkg/mcp/handlers.go:809-815 | printing a 64-bit integer and reading it back is the identity |
| Text.AtoiMeans | pkg/mcp/handlers.go:815 | reading accepts exactly the non-empty digit strings, signed or not, whose value fits 64 bits |
| Text.DecimalIsPositional | pkg/mcp/handlers.go:809-815 | the value of digits put after digits is positional |
| Times.AutoStepFits | pkg/mcp/handlers.go:210-212 | the automatic step is a whole number of seconds, at least one, and fits a duration |
| Times.AutoStepMonotone | pkg/mcp/handlers.go:210-212 | longer ranges never get smaller steps |
| Times.AutoStepPoints | pkg/mcp/handlers.go:73-76 | ranges of at least 250 s that fit a duration get 251 to 500 samples, with 250 ≤ range/step < 250 + 250/step |
| Times.PointsCount | pkg/mcp/handlers.go:73-76 | the sample count is the number of multiples of the step that fit the range |
| Times.AutoStepShort | pkg/mcp/handlers.go:210-212 | shorter and reversed ranges get one second and at most 250 samples |
| Times.AutoStepPointsIff | pkg/mcp/handlers.go:210-212 | for all ranges, saturating ones included, exactly when there are at most 500 samples |
| Times.RoundIsNearest | pkg/prometheus/utils.go:69 | rounding is to the nearest integer, ties away from zero |
| Times.UnixNormalises | pkg/prometheus/utils.go:70 | the constructor keeps the total and brings the nanoseconds into one second |
| Times.EpochRoundsToMillis | pkg/prometheus/utils.go:67-71 | splitting, rounding and normalising round the whole value to the nearest millisecond, halves away from zero, with nanoseconds in range |
| Times.EpochWithinHalfMilli | pkg/prometheus/utils.go:67-71 | the result is within half a millisecond of the input |
| Times.EpochMonotone | pkg/prometheus/utils.go:67-71 | the result is monotone in the input |
| Times.NowLeavesSign | pkg/prometheus/utils.go:131-136 | the first byte after "now" can be read: trimming and the bare "now" case leave something non-blank |
| Text.TrimmedTailNotBlank | pkg/prometheus/utils.go:135-136 | no non-empty tail of a right-trimmed string is blank, Unicode white space included |
| Times.DurationsMeanPastIff | pkg/prometheus/utils.go:101-153 | for every valid duration: `now-d` and `now+d` always lie that far from now, and `d` and `-d` are the same past instant if and only if the text is not also a timestamp of another instant |
| Text.TrimSpaceMeans | pkg/prometheus/utils.go:102 | trimming takes away white space at both ends, all of it, and nothing else |
| Utf8.SpacesAreEncoded | pkg/prometheus/utils.go:102 | white space is the UTF-8 encoding of the code points of `unicode.IsSpace` |
| Utf8.ValidUtf8Means | pkg/mcp/docs_updater.go:323 | the strings accepted in path names are the encodings of sequences of scalar values |
| Times.ParseTimeMeans | pkg/prometheus/utils.go:101-153 | for every input, the result is the instant that the trimmed input names ("now" in any case; "now" and a signed duration; a timestamp; else a duration, which lies in the past), and an error if and only if it names none |
| Times.RelativeFormsAgree | pkg/prometheus/utils.go:101-153 | as no duration but "0" is also a timestamp: `d`, `-d` and `now-d` are the same past instant and `now+d` its mirror image, for every valid duration but "0" |
| Times.BareZeroIsEpoch | pkg/prometheus/utils.go:110-120 | a bare "0", signed or not, is the epoch, and agrees with `now-0` if and only if now is the epoch |
| Times.FutureOnlyByTimestampOrPlus | pkg/prometheus/utils.go:101-153 | only an absolute timestamp or `now+` gives an instant after the clock reading |

## Left out

- HTTP, git, gzip and tar decoding: the references, the answer to the request and the sequence of archive items are arbitrary inputs of a call.
- Walking an in-memory file system some of whose paths cannot be opened, such as "a//b.md": what `fs.WalkDir` then does, and whether it ends, is not part of this model; the walk is an arbitrary function of the map, except where `MapWalk` determines it.
- Search ranking, the Markdown splitter, YAML decoding and the JSON or TOON encoding of results: functions given as parameters.
- The writer preference of `sync.RWMutex`: the lock grants any order of readers and writers, so that the theorems hold for more schedules than occur.
- Updater.ServerContainer.SwapDocsState: one goroutine's effect; taking the lock and closing after unlocking are steps of DocsProtocol, and DocsLive.SwapAlone and DocsLive.SwapsAmountToSequence connect the two.
- DocsUpdates.AlwaysInStep: checking the references and downloading, extracting and indexing the archive are one step each, as they touch nothing that other goroutines see.
- Updater.FetchedIsBoundedAndIndexed: the chunks are those of the walk's files, whatever the walk lists; Updater.EveryExtractedChunkIsIndexed assumes that it misses none, and Updater.WalkMissesNoneIff says when that is so.
- Failures of closing an index: they are only logged by the source; closing is one event.
- Uri.ParseAssembled: the parser refuses authorities with user information, brackets or percent-escapes, which the server never writes; RFC 3986 allows them.
- Uri.EscapeRoundTrip: stated for bytes; characters beyond one byte do not occur in Go strings.
- Frontmatter.SkillExpressionMeans: patterns match bytes where Go matches UTF-8 sequences; the two agree because every literal and class is ASCII and the group may hold any bytes.
- Text.TrimmedTailNotBlank: lower-casing is that of ASCII letters, which is all that ".md" and "now" can be made of.
- Times.EpochRoundsToMillis: exact reals instead of float64, and no 64-bit overflow of the seconds, which Go leaves to the platform.
- Times.RelativeFormsAgree: the timestamp and duration parsers are parameters of which only the stated grammar facts are assumed, for Times.DurationsMeanPastIff only the lexical ones; adding a duration to an instant does not overflow.
- `GetEffectiveTruncationLimit`, listing of skills and the discovery index: one-expression members that would add only easy claims.
- Tool selection, telemetry and authorisation middleware, prompts, instructions, API call handlers, command-line wiring, charts and dashboard.
