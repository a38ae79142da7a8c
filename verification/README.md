# Verification of mekugi's stateful engines

Mekugi edits files for a coding agent and routes the agent's model traffic. This
project models the parts of it whose correctness depends on state, order or
arithmetic, and proves what they promise, for every input, every failure pattern
and every run.

- **Long-piece tokenizer** (`plugins/tokens.ts`). `BinaryHeap`, `BytePairs`,
  `LongPiece`, `PieceCache`. A heap with stale entries over linked offsets does the
  same merges as the quadratic "lowest rank, leftmost pair" rule. The cache in front
  of it counts bytes; a piece with a lone surrogate makes that count drift, and the
  exact condition under which it then throws is proved.
- **Provider WebSocket pool** (`internal/router/client_websocket.go`). `LeasePool` is
  a transition system: every lock-protected region, read, delivery, cancellation and
  timer is one step, in any order. A request never runs over a connection that was
  dialed with other headers, and no lease sees the frames of another.
- **Editing**. `Rows`, `Edits`, `Projection`, `PendingText`, `Editor`, `Targets`,
  `SyntaxLocalization` model the immutable-baseline editor; `Workspace` its command state machine; `Changes` and
  `Transaction` the stage, back up, install, clean up protocol with rollback over a
  file tree in which every operation may fail, with the outcome read off what failed;
  `Pipeline` runs a whole program and commits it.
- **CTP/2 text codec** (`internal/router/ctp2.go`). `Texts`, `Json`, `Numerals`,
  `Ctp2`, `Ctp2Lines`, `Ctp2Strings`, `VisibleLines`: dictionary and visible-line
  encodings decode to the original text, whatever it contains, and are the cheapest of
  the forms they choose from.
- **Cache attribution** (`capturer/`). `CacheAttribution` and `CacheReplay`: totals in
  any completion order are those of a recomputation in arrival order.
- **Formatted offsets** (`format_offsets.go`). `OffsetMap`, `ExtentMap`, `ExtentEdges`: where
  offsets and extents land after gofmt, and exactly which maps project extents whole.
- **Reader** (`plugins/hcat.ts`). `LineSplitter`, `RowTail`, `TailRead`: any chunking
  yields the logical lines of the whole text, and dropping rows early is harmless.
- **Commentary broker** (`internal/router/commentary_publisher.go`). `Commentary`: every
  accepted event is delivered once, discarded once, or still waits.
- **Number normalization** (`capturer/content_tokens.go`). `Numbers`: one spelling for
  every decimal value.

Objects with methods are classes; values are datatypes. A method is proved against a
specification function or relation, and what the program promises is proved of that
specification by lemmas. A pointer shared between collections (a pending file, a
request state) is an index into a list. Texts are sequences of Unicode scalar values
with their UTF-8 size. Clocks, random tokens, token counts, syntax checks and the
outcome of every file operation are parameters or arbitrary choices.

Findings where the code does not do all that it says:

- `plugins/tokens.ts:130-141`: the cached key of a piece with a lone surrogate is its
  replacement text, so the piece is counted again on every encoding and the byte count
  drifts away from the retained bytes until eviction finds an empty cache
  (`PieceCache.LoneSurrogatesBreakTheCache`, exact condition in `PieceCache.ThrowsIff`).
- `validation.go:612-613` speaks of a one-minimal command set; the set need not be one
  (`SyntaxLocalization.LoopNeedNotBeOneMinimal`). The loop keeps a command because it is
  needed at that moment, and never looks at it again. A kept command stays needed at
  every step of every run exactly when the validity check has an exchange property
  (`AlwaysStaysNeededIff`), which monotone validity implies (`MonotoneExchanges`) and
  which makes the result one-minimal (`Eliminate`). A single run can end one-minimal
  without it (`OneMinimalWithoutExchange`): that depends on the answers for exactly the
  subsets that the run meets, so nothing that could be
  checked before the run decides it.
- `format_offsets.go:336-338` says that the whole extent is projected. Two unindented
  import rows, or two imports on one line, are enough to break that
  (`ExtentEdges.ImportRowsEscape`, `ExtentEdges.ImportLineEscapes`): gofmt adds a tab and
  a line feed that belong to no token of the import, and an import that changes places
  leaves them outside. A map that keeps order projects every extent whole
  (`OrderProjectsWhole`); the maps that the code builds do so exactly when no crossed edge
  of a nested map holds new text (`ProjectsWholeIff`).

## Model

| member | source | states |
|---|---|---|
| BinaryHeap.Push | plugins/tokens.ts:52-64 | the new key joins the heap: heap order holds and the keys are the old ones and the new one |
| BinaryHeap.Pop | plugins/tokens.ts:65-85 | the least of all keys comes out, heap order holds, and exactly that key is gone |
| BinaryHeap.RootBoundsAll | plugins/tokens.ts:65-66 | in heap order the root is the least key |
| BinaryHeap.Sink | plugins/tokens.ts:71-83 | the hole travels down until the last key fits; heap order is restored with the same keys |
| BytePairs.BestIsUnique | plugins/tokens.ts:30-33 | lowest rank with leftmost ties names one pair, so the merge order is determined |
| BytePairs.NaiveMergeSound | plugins/tokens.ts:30-33 | repeated merging keeps the text, and keeps every piece in the vocabulary |
| BytePairs.SinglesSpell | plugins/tokens.ts:97-103 | single bytes spell the input |
| LongPiece.RanksByBytes | plugins/tokens.ts:22-28 | the table from byte strings to ranks inverts the token list and is injective |
| LongPiece.FreshKeyIsBest | plugins/tokens.ts:104-110 | a least key that still matches its record names the pair that the reference merges next |
| LongPiece.StaleKey | plugins/tokens.ts:108-110 | dropping a stale key loses no recorded rank |
| LongPiece.EmptyHeapIsFinal | plugins/tokens.ts:104 | with an empty heap no adjacent pair is a token, so the reference stops too |
| LongPiece.JoinedIsMerge | plugins/tokens.ts:111-116 | unlinking the right piece is the merge step of the reference |
| LongPiece.Encoder.constructor | plugins/tokens.ts:39-100 | at first every byte is a piece and no rank is recorded |
| LongPiece.Encoder.Update | plugins/tokens.ts:86-96 | the rank of the pair at a piece is recorded and its key pushed, other records stay |
| LongPiece.Encoder.RecordAll | plugins/tokens.ts:101-103 | afterwards every adjacent pair is recorded and in the heap |
| LongPiece.Encoder.Step | plugins/tokens.ts:104-121 | one iteration either only drops a stale key or does one merge of the reference; the final pieces do not change |
| LongPiece.Encoder.Merge | plugins/tokens.ts:111-120 | piece and successor are joined and both affected records renewed |
| LongPiece.Encoder.Relink | plugins/tokens.ts:111-116 | links and records describe the partition without the joined boundary |
| LongPiece.Encoder.Collect | plugins/tokens.ts:122-129 | walking the links looks up the remaining pieces, or fails as the reference does |
| LongPiece.EncodeLongPiece | plugins/tokens.ts:34-129 | the result is that of the reference: the same tokens, or the same failure |
| LongPiece.EncodingSpellsInput | plugins/tokens.ts:30-33 | with every single byte in the vocabulary every text encodes and the token spellings concatenate to it |
| PieceCache.AdmissionStep | plugins/tokens.ts:130-141 | admission keeps the budget; only a piece with a lone surrogate moves the count away from the retained bytes |
| PieceCache.WellFormedRunsNeverThrow | plugins/tokens.ts:130-141 | over pieces without lone surrogates the count is exact and eviction never fails |
| PieceCache.Utf8Decodes | plugins/tokens.ts:133-140 | the bytes of a piece are its UTF-8 form: decoding gives every code point back, and U+FFFD for each lone surrogate |
| PieceCache.Utf8IsInjective | plugins/tokens.ts:139-140 | pieces with the same bytes have the same rebuilt key |
| PieceCache.ThrowsIff | plugins/tokens.ts:134-138 | eviction fails exactly when the drift leaves no room for the piece in an emptied cache |
| PieceCache.LoneSurrogatesBreakTheCache | plugins/tokens.ts:133-141 | one lone-surrogate piece encoded twice makes the cache refuse a piece that a fresh cache takes |
| PieceCache.CacheFailureExists | plugins/tokens.ts:133-141 | a concrete sequence of three pieces for which this happens |
| PieceCache.Cache.EncodePiece | plugins/tokens.ts:34-38 | the answer is what a fresh run returns, cached or not, except for the failing eviction |
| PieceCache.Cache.Store | plugins/tokens.ts:130-141 | the retained keys and the count after an admission |
| PieceCache.Cache.EvictFor | plugins/tokens.ts:134-138 | the oldest pieces go until there is room |
| LeasePool.ConnStepKeeps | internal/router/client_websocket.go:201-318 | every step of receiver, owner, cancellation, timer and discard keeps the invariant of its connection |
| LeasePool.InvKeeps | internal/router/client_websocket.go:82-318 | every step of the pool keeps its invariant |
| LeasePool.PoolIsBoundedAndExclusive | internal/router/client_websocket.go:111-199 | the pool never exceeds its limit, no connection has two unreleased leases, and no owner reads another lease than its own |
| LeasePool.Acquire | internal/router/client_websocket.go:114-162 | one pass over the entries in any order: refused exactly when closed, waits exactly when the pool is full of busy connections, reuses exactly when an idle connection with these headers is within its lifetime |
| LeasePool.OldestOf | internal/router/client_websocket.go:136-141 | the oldest idle connection, if one is idle |
| LeasePool.ReusesIffSuits | internal/router/client_websocket.go:120-133 | a connection can be reused exactly when it is pooled, idle, within its lifetime and dialed with the asked headers |
| LeasePool.OpensIffNoneSuits | internal/router/client_websocket.go:135-161 | a connection can be opened exactly when none can be reused and the pool is not full of busy ones |
| LeasePool.AcquireDropsOnlyIdle | internal/router/client_websocket.go:120-154 | an acquire drops only idle connections: those past their lifetime and, with the pool full, the oldest idle one; no other connection changes |
| LeasePool.ConnIsDialed | internal/router/client_websocket.go:160-170 | every connection was opened by one acquire, with the headers and the time it is filed under |
| LeasePool.RequestUsesItsOwnHeaders | internal/router/client_websocket.go:111-199 | in every run a request uses only a connection that was opened with its own headers; a reused one was idle and within its lifetime |
| LeasePool.FramesStayWithTheirLease | internal/router/client_websocket.go:201-268 | a frame captured under one lease is never queued to or observed by another |
| LeasePool.DeliveryIsInOrder | internal/router/client_websocket.go:270-293 | an owner receives a prefix of the frames admitted under its lease, in order, each once |
| LeasePool.ReuseFindsReceiverDetached | internal/router/client_websocket.go:295-318 | a successful reuse release implies that the receiver holds nothing for the lease |
| LeasePool.ReturnsIff | internal/router/client_websocket.go:295-318 | a connection returns to the pool exactly when asked for, pooled, within its lifetime, and its current lease has ended with a terminal frame and is delivered to the last frame |
| LeasePool.LeavesIff | internal/router/client_websocket.go:92-318 | what costs a connection its place: a failed dial, its idle timer, the cancellation or release without reuse of its current lease, and a failed, non-text or unsolicited read; nothing else |
| LeasePool.TerminalFrameIsLast | internal/router/client_websocket.go:236-266 | nothing is admitted to a lease behind a terminal frame |
| LeasePool.SettledIsFrozen | internal/router/client_websocket.go:295-318 | a settled lease is never touched again by receiver, timers or cancellations |
| LeasePool.NothingFollowsFinish | internal/router/client_websocket.go:670-705 | once an owner is free to finish, no frame is observed, queued or consumed under its lease |
| LeasePool.LateCancelIsHarmless | internal/router/client_websocket.go:425-434 | a late cancellation of a released lease does not change its successor |
| LeasePool.DiscardedReceiverStops | internal/router/client_websocket.go:92-109 | every step of a discarded receiver brings it closer to its end |
| LeasePool.DiscardedReceiverCanMove | internal/router/client_websocket.go:201-268 | a discarded receiver that has not stopped can take a step |
| LeasePool.OwnerWaitIsBounded | internal/router/client_websocket.go:670-705 | after a discard the receiver takes at most six more steps, whatever else runs |
| LeasePool.WaitingOwnerIsServed | internal/router/client_websocket.go:670-705 | an owner that waits for the receiver waits for one that has stopped or can move |
| Changes.AppliedAt | workspace.go:40-47 | the intended tree is decided path by path by the one change that touches a path |
| Transaction.MatchesIsRecoverable | transaction.go:56-107 | whenever the flags describe the tree, each original is at its path or its backup path |
| Transaction.InstalledPath | transaction.go:77-86 | with everything installed the tree is the intended one except for leftover backups |
| Transaction.CommitPoint | transaction.go:77-88 | the state between the last install and the cleanup |
| Transaction.FinalTree | transaction.go:88-106 | after a full cleanup the tree is exactly the intended one |
| Transaction.CleanupKeepsOriginals | transaction.go:192-207 | cleanup never removes a backup that still holds an original |
| Transaction.CleanedTree | transaction.go:192-207 | cleanup without failures gives back the initial tree |
| Transaction.FileTransaction.ReserveBackup | transaction.go:115-127 | the backup name is reserved and released; a failure leaves only temporaries |
| Transaction.FileTransaction.WriteOutput | transaction.go:129-138 | the output file is created with content and mode, or the failure is reported |
| Transaction.FileTransaction.WriteStaged | transaction.go:151-165 | content and mode are written, or the temporary remains to be cleaned up |
| Transaction.FileTransaction.Stage | transaction.go:109-141 | staging touches no path of any change; it fails only when an operation did, before any rename |
| Transaction.FileTransaction.BackUpAll | transaction.go:67-75 | each original moves to its backup path; after a failure, which is that of a rename, the flags say which ones did |
| Transaction.FileTransaction.InstallAll | transaction.go:77-86 | each output moves into place; after a failure, which is that of a rename, the flags say which ones did |
| Transaction.FileTransaction.Rollback | transaction.go:167-190 | installs are undone and originals restored from last to first; without errors no flag is left |
| Transaction.FileTransaction.CleanupStaging | transaction.go:192-207 | remaining temporaries go, never a backup in use |
| Transaction.FileTransaction.DropBackups | transaction.go:88-102 | backups of a committed transaction go; it fails only when a removal did |
| Transaction.FileTransaction.Undo | transaction.go:60-66 | rollback then cleanup; "rollback succeeded" is said exactly when nothing failed after the rename, and implies the initial tree; in any case no file is lost |
| Transaction.FileTransaction.AbandonStaging | transaction.go:143-149 | a staging failure leaves every original in place, and is clean exactly when nothing else failed |
| Transaction.FileTransaction.Commit | transaction.go:56-107 | the outcome is what the failed operations say: committed exactly when none failed, a staging or commit failure exactly when an operation of that phase failed first, clean exactly when nothing failed after it; success gives exactly the intended tree; a clean failure gives the initial tree; at every step before the commit point each original is at its path or its backup, and a failed staging or commit leaves each file whole at its path or under a new name |
| Transaction.CleanupLosesNothing | transaction.go:167-207 | after a failed rollback and a cleanup every file is still there, whole |
| Rows.ScanLines | internal/verifiedrow/row.go:48-57 | the scan yields the logical lines |
| Rows.LinesPartition | internal/verifiedrow/row.go:46-100 | logical lines are consecutive nonempty extents that cover the text |
| Rows.LinesAscend | internal/verifiedrow/row.go:48-57 | lines come in order and do not overlap |
| Rows.RowContentUnique | internal/verifiedrow/row.go:85-100 | the end of a row determines where its content ends |
| Rows.LineEnds | internal/verifiedrow/row.go:85-100 | a line ends with CRLF, LF, a CR that no LF follows, or the text; its content has no terminator |
| Rows.SameExtentSameContent | internal/verifiedrow/row.go:85-100 | equal extents that are lines of two texts have equal content |
| Editor.RecordKeeps | editor.go:341-374 | recording keeps the list conflict-free and numbered and appends exactly the changing edits of the batch |
| Editor.AcceptedIff | editor.go:341-374 | a batch is accepted exactly when its changing edits conflict neither with the recorded ones nor with each other |
| Edits.OrderIgnoresListing | editor.go:431-448 | the rendering order depends on the set of edits, not on the list |
| Edits.ConflictMeans | editor.go:377-406 | replacements conflict exactly when they share a unit of the baseline, a replacement and an insertion exactly when the insertion is between two of its units, insertions never |
| Edits.NeighboursDoNotOverlap | editor.go:377-406 | edits without a conflict that are in order do not overlap |
| Edits.OrderedIsChained | editor.go:431-448 | after sorting each edit ends at or before the next one starts |
| Edits.RenderIgnoresListing | editor_projection.go:42-52 | rendering depends only on the set of edits |
| Edits.RenderIsSplices | editor_projection.go:42-52 | one pass over the sorted edits equals splices from right to left |
| Projection.SpanHoldsReplacement | editor_projection.go:18-30 | each projected span holds exactly its replacement in the rendered text |
| Projection.SamePointInsertions | editor.go:431-448 | insertions at one point appear in recording order |
| Projection.UntouchedIsVerbatim | editor.go:175-207 | an untouched baseline line appears verbatim at the computed offsets |
| Projection.UntouchedLinesAreDisjoint | editor.go:175-190 | different untouched lines land on disjoint extents |
| Projection.RenderSize | editor.go:453-469 | baseline length and edits determine the rendered length |
| Editor.LandsOnce | editor.go:157-171 | at most one baseline line lands on a pending row |
| Editor.LandsVerbatim | editor.go:157-171 | the baseline line that lands on a pending row has its content |
| Editor.ResolveRowInBaseline | editor.go:210-264 | the named row when its hash matches, otherwise the only row with that hash, otherwise missing or stale |
| Editor.RowErrorMeans | editor.go:231-263 | missing means no row of that number and no row with the hash; stale, that the hash is elsewhere, ambiguous or absent |
| Editor.ResolvedRowIs | editor.go:210-230 | a reference names the row of its number when that has the hash, and otherwise exactly the one row with the hash |
| Editor.BaselineEditor.Initialize | editor.go:319-338 | a new file has the given content |
| Editor.BaselineEditor.RecordEdits | editor.go:341-374 | the batch is recorded whole or the list is unchanged; the cached projection is dropped |
| Editor.BaselineEditor.SetReplacement | language_indent.go:228-231 | one replacement changes and the cached projection is dropped |
| Editor.BaselineEditor.RenderedEdits | editor_projection.go:35-40 | the cached projection is always that of the current edits |
| Editor.BaselineEditor.Content | editor.go:472-477 | the content is the rendering of the recorded edits |
| Editor.BaselineEditor.ContentFits | editor.go:453-469 | true exactly when the rendered size is at most the limit |
| Editor.BaselineEditor.RenderedBaselineBoundary | editor.go:193-207 | the shifted offset of a baseline boundary |
| Editor.BaselineEditor.RenderedBaselineLine | editor.go:175-190 | present exactly for untouched lines, with the offsets of their image |
| Editor.BaselineEditor.ResolveRow | editor.go:139-172 | the baseline resolution, or else the only untouched line whose image is the pending row, or else the error of the baseline |
| Editor.BaselineEditor.FindLanding | editor.go:160-171 | the loop finds the line that lands on the row, if there is one |
| SyntaxLocalization.GroupByCommand | validation.go:637-648 | edits are grouped by command, each once |
| SyntaxLocalization.MarkDistances | validation.go:649-663 | each group has the distance of its nearest span, or the content length if that is less |
| SyntaxLocalization.MeasuredIsLeast | validation.go:649-663 | so its distance is the least of the content length and the distances of all its spans |
| SyntaxLocalization.SpanDistanceIsLeast | validation.go:652 | the distance of a span is that of its nearest position, zero exactly on the span |
| SyntaxLocalization.SyntaxEditGroups | validation.go:637-663 | every edit is in the group of its command, with the distance of its nearest span, at most the content length |
| SyntaxLocalization.SortGroupsSorts | validation.go:614-620 | elimination order: farthest from the failure first, earliest on ties |
| SyntaxLocalization.Eliminate | validation.go:614-626 | the loop ends with a nonempty set whose rendering is still invalid, one-minimal when exchange holds |
| SyntaxLocalization.StillNeeded | validation.go:614-626 | with monotone validity each kept command is needed |
| SyntaxLocalization.MonotoneExchanges | validation.go:612-613 | monotone validity has the exchange property |
| SyntaxLocalization.AlwaysStaysNeededIff | validation.go:612-626 | kept commands stay needed at every step of every run exactly when the exchange property holds |
| SyntaxLocalization.OneMinimalWithoutExchange | validation.go:612-626 | a single run can end one-minimal without it |
| SyntaxLocalization.Closest | validation.go:693-700 | nearest span, latest command on ties |
| SyntaxLocalization.Localize | validation.go:599-629 | the named command is the nearest of a set that alone breaks the source, one-minimal when exchange holds; without edits none is named |
| SyntaxLocalization.LoopNeedNotBeOneMinimal | validation.go:612-613 | three insertions with a failure at the end, grouped and measured as the code does, and a validity check for which the set is not one-minimal |
| Workspace.ChangesAreInstallable | workspace.go:387-415 | the change list has distinct originals and distinct destinations, and no destination is another original |
| Workspace.AppliedIsView | workspace.go:387-415 | applying the changes to the disk shows, at every path, what the workspace shows |
| Workspace.PendingWorkspace.ValidateFreeDestination | workspace.go:372-384 | refused exactly when a probe fails, the directory is missing, or something shown, given up or on disk is at the path |
| Workspace.PendingWorkspace.SelectFile | workspace.go:251-274 | finds exactly what is shown at the path, loads it unedited when it is new, and changes nothing that is shown |
| Workspace.PendingWorkspace.NewFile | workspace.go:277-287 | an empty file appears exactly when the path is free, is active and may be initialized; nothing else changes |
| Workspace.PendingWorkspace.MoveFile | workspace.go:290-305 | exactly with an active file and a free path the file appears there and nothing is left at the old path, which is given up |
| Workspace.PendingWorkspace.RemoveFile | workspace.go:308-341 | refused exactly without an active file or with an edited one from disk; otherwise nothing is left at its path, which is given up, and no file is active |
| Workspace.PendingWorkspace.InitializeFile | workspace.go:216-232 | succeeds exactly right after new, and the file has the value as its content |
| PendingText.NextEditShows | editor_projection.go:42-52 | one more edit replaces, in the pending text, exactly the image of what it replaces in the baseline |
| PendingText.ImagesAscend | editor.go:193-207 | spans that are apart have images that are apart, in the same order |
| PendingText.ImageMoves | editor.go:193-207 | edits to the left move an image by what they grow |
| PendingText.BatchReplacesImages | editor_projection.go:42-52 | a batch replaces the image of each of its spans and nothing else |
| Targets.IndexFrom | editor.go:490-496 | the first match from an offset on |
| Targets.FindLiteralOffsets | editor.go:485-505 | the loop finds the leftmost match, then the leftmost one after it, up to the limit |
| Targets.LeftmostIsMost | editor.go:485-505 | no choice of matches that do not overlap has more of them |
| Targets.CountIsMissingIff | editor.go:109-125 | occurrences are missing exactly when that many matches do not fit side by side |
| Targets.GlobalIffAll | editor.go:88-104 | without its row a text target is accepted exactly when its count is that of all matches |
| Targets.ResolveTarget | editor.go:61-134 | a row target takes in exactly that line, a range exactly the lines from its first row to its last, refused exactly when the last comes first; matches are the leftmost ones, as many as asked for; the end is the empty span at the end |
| Targets.ResolutionMeans | editor.go:61-134 | every resolution has that meaning, in terms of the lines of the baseline and the matches in it |
| Targets.MatchedOffsets | editor.go:485-505 | each offset found is the first match behind the one before, and fewer than asked for means no match behind them |
| Targets.TypedLinesKeepTerminator | editor.go:286-309 | typing over whole lines replaces exactly these and keeps the terminator of the last unless the value is empty or ends a line; adding inserts before the first |
| Targets.ResolvedSpans | editor.go:61-134 | resolved spans lie in the baseline, in order and apart |
| Targets.MutationAgrees | editor.go:265-316 | the edits of one mutation never conflict with each other |
| Targets.MutationShows | editor.go:265-316 | a recorded mutation replaces the image of each changed span in the pending text and nothing else |
| Targets.LiteralTypeShows | editor.go:265-316 | typing over counted matches of an unedited file shows it with the first matches replaced |
| Workspace.PendingWorkspace.MutateFile | workspace.go:233-248 | fails exactly without an active file, on a new one, when the target does not resolve or when an edit conflicts with a recorded one; otherwise the file shows the images of the changed spans replaced, and nothing else changes |
| Workspace.PendingWorkspace.Execute | workspace.go:203-248 | each command does what its operation states, from one state of the workspace to the next; a failed one changes nothing that is shown |
| Workspace.PendingWorkspace.FinalChanges | workspace.go:387-415 | the list that the loop builds is accepted by the transaction and yields what is shown |
| Pipeline.Evaluate | workspace.go:62-123 | every command is executed in order up to the first failure that is not one of a target; changes exactly when every command succeeded, and then what separates disk and workspace; otherwise the failures met, or only the one that ended the program |
| Pipeline.FailuresMeans | workspace.go:90-106 | the collected failures are those of the commands, and none exactly when all succeeded |
| Pipeline.UnnamedPathsStay | workspace.go:62-123 | a program shows the disk as it is at every path that none of its commands names |
| Pipeline.CommitWorkspace | run.go:363-375 | committing the changes of a workspace to its disk: the outcome says what failed first, if anything; nothing failing gives the tree it shows, a backup left over gives it with spare copies, and otherwise no file is lost; a staging failure moves none |
| Json.QuoteHasNoLineFeed | internal/router/ctp2.go:927-936 | a quoted string fits on one line |
| Json.UnquoteQuote | internal/router/ctp2.go:1221-1225 | unquoting inverts quoting |
| Numerals.ParseFormat | internal/router/ctp2.go:798-800 | reading inverts writing in every base |
| Numerals.ParseFormatInt | internal/router/ctp2.go:1134-1135 | strconv.Atoi inverts the decimal text |
| Ctp2.ParsedIsReferenceText | internal/router/ctp2.go:1276-1289 | a parsed reference is spelled `@{id}` with a valid id |
| Ctp2.Encode | internal/router/ctp2.go:826-869 | the loop yields the body and the reference counts of the specification |
| Ctp2.MatchIsLongest | internal/router/ctp2.go:816-822 | of the definitions that apply the longest is taken |
| Ctp2.LiteralAtIsNoReference | internal/router/ctp2.go:833-864 | after a literal `@` no output can be read as a reference |
| Ctp2.BodyRoundTrip | internal/router/ctp2.go:826-869 | the encoded body decodes to the text, whatever it contains |
| Ctp2.DictionaryRoundTrip | internal/router/ctp2.go:927-936 | dictionary and body of any definitions with distinct valid ids decode to the text |
| Ctp2.ChunkStep | internal/router/ctp2.go:1235-1272 | one iteration decodes one unit of the body |
| Ctp2.DecodeReferenceBody | internal/router/ctp2.go:1229-1274 | the loop decodes the body, and fails on unknown references or over the limit only |
| Ctp2.DecodeDictionaryLines | internal/router/ctp2.go:1197-1227 | the loop accepts exactly well-formed dictionaries and returns body and table |
| Ctp2Lines.DecodeReferenceOperation | internal/router/ctp2.go:1121-1147 | a reference operation decodes to the lines it names |
| Ctp2Lines.DecodeLiteralOperation | internal/router/ctp2.go:1148-1155 | a literal operation decodes to its lines |
| Ctp2Lines.DecodeAppended | internal/router/ctp2.go:1110-1160 | one more operation line extends what the earlier ones decode to |
| Ctp2Lines.DecodeVisibleLines | internal/router/ctp2.go:1102-1161 | the loop decodes visible lines, within the limit |
| Ctp2Lines.CountedOnce | internal/router/ctp2.go:1036-1044 | one match means that no other locator has the suffix |
| Ctp2Lines.LookupUnique | internal/router/ctp2.go:1126-1133 | the decoder finds the source that the encoder meant |
| Ctp2Lines.SplitLinesSpell | internal/router/ctp2.go:947 | the lines of a text spell it |
| Ctp2Strings.DecodeString | internal/router/ctp2.go:1171-1195 | each form is told apart by its tag and decoded, within the limit |
| Ctp2Strings.LiteralRoundTrip | internal/router/ctp2.go:871-877 | the literal form carries every text, also one that starts with a tag |
| Ctp2Strings.Base36IsValidAndDistinct | internal/router/ctp2.go:798-800 | base-36 numerals are valid ids, different for different numbers |
| Ctp2Strings.CompactRoundTrip | internal/router/ctp2.go:908-909 | dictionary text and body decode to the text |
| Ctp2Strings.Retain | internal/router/ctp2.go:889-900 | definitions referenced less than twice go, the others keep their order and are renumbered |
| Ctp2Strings.RetainedIff | internal/router/ctp2.go:889-894 | kept are exactly the values referenced twice or more |
| Ctp2Strings.EncodeContentLocal | internal/router/ctp2.go:879-925 | the answer decodes to the text and is the cheaper of the literal and the compact form; it fails exactly on a count that fails or a text over the limit; "changed text" never happens |
| VisibleLines.ShortestSuffix | internal/router/ctp2.go:1029-1047 | the shortest suffix that only one known locator has, or none |
| VisibleLines.VisibleLineEncoder.constructor | internal/router/ctp2.go:938-944 | an encoder without sources has exact indexes |
| VisibleLines.VisibleLineEncoder.AddSource | internal/router/ctp2.go:1077-1090 | the indexes point exactly at the lines that match |
| VisibleLines.VisibleLineEncoder.Candidates | internal/router/ctp2.go:1049-1056 | the candidates are exactly the earlier positions with two equal lines or one long one |
| VisibleLines.VisibleLineEncoder.LongestMatch | internal/router/ctp2.go:1049-1075 | the longest run among all candidates whose source can be named, with the shortest suffix that names it |
| VisibleLines.RunIsEqual | internal/router/ctp2.go:1064-1067 | a run holds equal lines and stops only where they differ or one text ends |
| VisibleLines.VisibleLineEncoder.Choose | internal/router/ctp2.go:988-1002 | the longest match is taken exactly when its reference has fewer tokens than its lines |
| VisibleLines.ReferenceYields | internal/router/ctp2.go:994 | a reference names its source uniquely and decodes to its lines, before and after this output becomes a source |
| VisibleLines.RenderDecodes | internal/router/ctp2.go:983-1011 | the rendered operations decode to the lines they stand for |
| VisibleLines.VisibleLineEncoder.EncodeLines | internal/router/ctp2.go:983-1011 | the references are the greedy cover: at each line not yet taken the longest nameable match is taken exactly when it saves tokens, everything else is literal; the operations decode to the lines |
| VisibleLines.VisibleLineEncoder.EncodeWith | internal/router/ctp2.go:955-977 | the choice between the local text and the greedy cover by tokens, and the only reasons for an error |
| VisibleLines.VisibleLineEncoder.EncodeString | internal/router/ctp2.go:946-977 | of the local text and the text of the greedy cover, if that has a reference, the answer is the one with fewer tokens; it decodes to the value against the sources before and after; its output becomes a source even on errors |
| CacheAttribution.InputsCommute | capturer/snapshot.go:400-416 | requests of different threads do not affect each other |
| CacheAttribution.SettleOneMore | capturer/snapshot.go:311-319 | settling a request after its thread's earlier ones equals attributing it last |
| CacheAttribution.TokensAreConserved | capturer/snapshot.go:400-416 | eligible = cached + miss, and cold + miss = uncached of the counted requests |
| CacheAttribution.AllCompleteIsRecomputed | benchmarks/analyze_capture.py:552-565 | when all requests have completed the totals are those of the recomputation in arrival order |
| CacheAttribution.ShareIsByPosition | capturer/snapshot.go:400-416 | what a request adds are the positions of its prompt that the previous request reached or not and that were cached or not |
| CacheAttribution.RecomputedCountsPositions | benchmarks/analyze_capture.py:552-565 | the recomputed totals are the sums of these positions over all requests, each measured against the last request of its thread |
| CacheAttribution.AllCompleteCountsPositions | capturer/snapshot.go:298-325 | when all requests have completed, in any order, the totals due are these sums |
| CacheAttribution.DrainedIsDue | capturer/snapshot.go:310-324 | drained queues leave exactly the longest completed prefix of each thread counted |
| CacheAttribution.Dequeue | capturer/snapshot.go:311-313 | the head of a queue is the next unsettled request of its thread |
| CacheAttribution.Recorder.Arrive | capturer/capturer.go:328-364 | an arrival is queued and changes no total |
| CacheAttribution.Recorder.AddCache | capturer/snapshot.go:400-416 | one request is attributed; no subtraction goes below zero |
| CacheAttribution.Recorder.Settle | capturer/snapshot.go:312-318 | one request leaves the queue and joins the account |
| CacheAttribution.Recorder.Drain | capturer/snapshot.go:310-324 | the loop settles as long as the head has completed |
| CacheAttribution.Recorder.CompleteAlone | capturer/snapshot.go:299-304 | a request without a thread is counted at once |
| CacheAttribution.Recorder.Complete | capturer/snapshot.go:298-325 | after any completion the account is the fold over each thread's longest completed prefix |
| CacheAttribution.Recorder.AccountIsDue | capturer/snapshot.go:298-325 | the same at every time |
| CacheReplay.SortSorts | capturer/merge.go:151-152 | sorting by sequence |
| CacheReplay.ArrivalIsUnique | capturer/merge.go:151-152 | records with distinct sequences have one arrival order |
| CacheReplay.Collect | capturer/merge.go:125-150 | unreadable records and repeated clients are refused; clients and attempts are collected in order |
| CacheReplay.TakeAttempts | capturer/merge.go:162-173 | every attempt must have a client with its sequence; a client has the usage of its last attempt |
| CacheReplay.MatchedIff | capturer/merge.go:162-173 | no mismatch and no leftover is exactly that every provider record has its client |
| CacheReplay.AttemptsAreRecords | capturer/merge.go:145-146 | the attempts of a capture are exactly its provider records |
| CacheReplay.ArriveAll | capturer/merge.go:153-161 | states are queued in order of sequence |
| CacheReplay.MetricsFromRecords | capturer/merge.go:118-176 | accepts exactly well-formed captures; whatever order the records are in, the totals are those of the recomputation in order of sequence |
| OffsetMap.OffsetInRange | format_offsets.go:376-414 | every offset lands inside the output |
| OffsetMap.MapOffsetLands | format_offsets.go:376-414 | ends of an anchor go to its ends, its inside by its own map or at the same distance; a gap is scaled in proportion, rounded down, or goes to the nearer side when the anchors have changed places |
| OffsetMap.OffsetsKeepOrder | format_offsets.go:376-414 | where after-spans keep order the offset map is monotone |
| OffsetMap.Proportion | format_offsets.go:413 | interpolation stays in its gap and keeps order |
| OffsetMap.SearchStart | format_offsets.go:378-380 | binary search finds the first anchor that starts at or after the offset |
| OffsetMap.MapTokenOffset | format_offsets.go:376-414 | the code sends every offset where its anchor or gap says, an offset outside the text like the nearer end |
| OffsetMap.SearchEnd | format_offsets.go:355 | binary search finds the first anchor that ends after the offset |
| ExtentMap.Project | format_offsets.go:339-373 | the loop yields the projected extent |
| ExtentMap.ProjectPart | format_offsets.go:357-368 | the part of an extent in one anchor |
| ExtentMap.ExtentInRange | format_offsets.go:339-373 | every extent lands inside the output |
| ExtentMap.ExtentIncludesPart | format_offsets.go:356-371 | the image covers the image in every anchor that the extent overlaps |
| ExtentMap.ExtentIsLeast | format_offsets.go:339-373 | the image is the least span that holds the images of both ends and of every anchor that the extent overlaps |
| ExtentMap.ExtentContains | format_offsets.go:336-373 | the image contains the image of every offset that is not at the edge of a nested map or next to one |
| ExtentMap.FlatExtentContains | format_offsets.go:336-373 | without nested maps it contains the image of every offset, also when anchors are reordered |
| ExtentEdges.OrderProjectsWhole | format_offsets.go:336-373 | a map that keeps order, nested to any depth, projects every extent whole |
| ExtentEdges.ProjectsWholeIff | format_offsets.go:336-373 | a map with flat nested maps projects every extent whole exactly when no crossed edge of a nested map holds new text |
| ExtentEdges.EndEscapes | format_offsets.go:336-373 | where text after a gap moved before an anchor that closes with new text, its end escapes |
| ExtentEdges.StartEscapesGap | format_offsets.go:336-373 | the same at the start of an anchor, after a gap |
| ExtentEdges.StartEscapesNeighbour | format_offsets.go:336-373 | the same between adjoining anchors |
| ExtentEdges.ImportRowsEscape | format_offsets.go:45-73 | two unindented import rows that gofmt sorts: the extent of both misses the start of the second |
| ExtentEdges.ImportLineEscapes | format_offsets.go:45-73 | two imports on one line that gofmt sorts: an extent misses the end of the first |
| LineSplitter.RowsAreLines | plugins/hcat.ts:220-241 | row i + 1 of a whole-file read is logical line i |
| LineSplitter.RowsShowLines | plugins/hcat.ts:186-241 | a read shows a line exactly when it is asked for: by its content, or as omitted when that is over the bound |
| LineSplitter.RowsAscend | plugins/hcat.ts:220-241 | rows are numbered upwards, within the lines of the text |
| LineSplitter.AfterCR | plugins/hcat.ts:245-252 | the character after a CR decides where the line ends, also across chunks |
| LineSplitter.AtEnd | plugins/hcat.ts:295-298 | at the end an open line is finished as it is |
| LineSplitter.Splitter.AppendContent | plugins/hcat.ts:189-219 | content of selected lines is collected up to the row bound, then given up |
| LineSplitter.Splitter.FinishLine | plugins/hcat.ts:220-241 | a selected line becomes a row with its number, or is omitted when it was too long; the next one starts |
| LineSplitter.Splitter.Consume | plugins/hcat.ts:242-274 | after a chunk the splitter stands where reading the text so far in one piece would |
| LineSplitter.ReadChunks | plugins/hcat.ts:165-304 | for every split into chunks the rows are the selected lines of the whole text, those over the bound omitted; missing lines are reported |
| RowTail.TrimIsLongest | plugins/hcat.ts:115-128 | what is kept is the longest suffix within both limits |
| RowTail.TrimAppend | plugins/hcat.ts:115-128 | trimming after every row equals trimming once |
| RowTail.EarlyDropIsHarmless | plugins/hcat.ts:107-152 | text and incomplete flag are those of keeping every row and choosing at the end |
| RowTail.SelectIsLongest | plugins/hcat.ts:137-151 | the answer is the text of the last rows, as many as both limits allow, and incomplete exactly when a row is missing |
| RowTail.VerifiedRowTail.Append | plugins/hcat.ts:115-128 | the buffer holds the trimmed rows since the last omitted one |
| RowTail.VerifiedRowTail.OmitRow | plugins/hcat.ts:130-135 | an omitted row empties the buffer and marks it incomplete |
| RowTail.VerifiedRowTail.Finish | plugins/hcat.ts:137-151 | the answer is that of the reference |
| TailRead.ReadTail | plugins/hcat.ts:165-304 | for every split into chunks the tail is chosen from all selected lines of the whole text since the last one over the bound; requested lines that do not exist are reported |
| Commentary.FitsIffRendered | internal/router/commentary_publisher.go:158-163 | the check before rendering is exactly that the rendered text is within the limit |
| Commentary.CodeIsOneSpan | internal/router/commentary.go:386-402 | a code span is its value between two fences; no run of the value is as long, and none of its backticks touches a fence |
| Commentary.AttributedOnce | internal/router/commentary.go:375-384 | an attributed text starts with its author once and ends with the text |
| Commentary.EventsHaveOneFate | internal/router/commentary_publisher.go:63-72 | an accepted event was delivered, was discarded or waits, and exactly one of these |
| Commentary.EventsAreConserved | internal/router/commentary_publisher.go:63-72 | accepted = delivered + discarded + `eventCount` |
| Commentary.AcceptKeeps | internal/router/commentary_publisher.go:174-188 | accepting keeps counts, bounds, provenance and identities |
| Commentary.RetireKeeps | internal/router/commentary_publisher.go:261-268 | a route goes away with what waits in it; counts stay exact |
| Commentary.DrainKeeps | internal/router/commentary_publisher.go:327-339 | a drain keeps counts, bounds and identities |
| Commentary.CommentaryBroker.Subscribe | internal/router/commentary_publisher.go:78-100 | a fresh token for a route exactly when open, the author fits, there is room and a random value |
| Commentary.CommentaryBroker.SubscribeThread | internal/router/commentary_publisher.go:104-141 | a token exactly when open, the author fits, the thread is known or has room, and it has a live route, which is reused, or a new one fits; author, identities and other routes never change |
| Commentary.CommentaryBroker.Publish | internal/router/commentary_publisher.go:143-208 | accepted exactly when live, not blank, fitting and within capacity; appended to its route and to the provenance of its thread |
| Commentary.CommentaryBroker.DrainLocked | internal/router/commentary_publisher.go:327-339 | what waits in the route is handed over once |
| Commentary.CommentaryBroker.Drain | internal/router/commentary_publisher.go:315-323 | the same for a token, after expired routes went |
| Commentary.CommentaryBroker.DrainSession | internal/router/commentary_publisher.go:210-222 | exactly what waits in the matching live routes, no event twice |
| Commentary.CommentaryBroker.DrainThreadSession | internal/router/commentary_publisher.go:224-235 | exactly what waits in the live routes of the thread and session |
| Commentary.CommentaryBroker.CleanupExpired | internal/router/commentary_publisher.go:261-268 | expired routes go and nothing else |
| Commentary.CommentaryBroker.Cancel | internal/router/commentary_publisher.go:341-351 | the route goes, what waits in it is discarded |
| Commentary.CommentaryBroker.Close | internal/router/commentary_publisher.go:270-278 | everything undelivered is discarded |
| Commentary.CommentaryBroker.HasThreadMessageID | internal/router/commentary_publisher.go:237-247 | true exactly for the identities accepted for the thread |
| Commentary.CommentaryBroker.BindActivity | internal/router/commentary_publisher.go:408-414 | the origin thread is set once |
| Numbers.NormalizedNumber | capturer/content_tokens.go:86-112 | the code computes the specified normal text |
| Numbers.NormalizedSpelling | capturer/content_tokens.go:87-101 | what the string operations do to the parts of a JSON number |
| Numbers.SameFormIffSameValue | capturer/content_tokens.go:102-111 | two numbers have the same significant digits, sign and power exactly when their values are equal |
| Numbers.NormalizedIffSameValue | capturer/content_tokens.go:86-112 | two spellings become the same text exactly when they denote the same value |
| Numbers.NormalizedKeepsValue | capturer/content_tokens.go:86-112 | the text is a JSON number of the same value and already normal |
| Numbers.ZeroIsPlain | capturer/content_tokens.go:102-105 | exactly the spellings of zero, negative or not, become "0" |

## Left out

- Tokenizer: the pre-split by regular expression, the library path for pieces of at most 4096 bytes, and double-precision and typed-array widths (`rank * stride + offset` is an exact integer here).
- `LeasePool` is a transition system over values: the heap, aliasing of entries, handshake headers beyond their equality, request writes and error texts are not part of it; dialing, reading and writing are arbitrary steps, and that enabled steps are eventually taken is not modelled.
- Transaction: `fsync`, permissions beyond the stored mode, crashes in the middle and other writers; temporary names are fresh and pairwise different.
- Workspace: path resolution, parent directories beyond their existence, and the report of a run; a program arrives parsed, so target literals are not empty and counts are positive.
- Targets: the indentation candidate of a typed row; a literal is searched in characters, where the code searches the bytes of valid UTF-8.
- Indentation correction and formatting after rendering (`renderFinal`, gofmt, language indenters).
- Editor.BaselineEditor.Content: before final formatting; the stored formatted content that replaces the rendering afterwards is not modelled.
- Pipeline.Evaluate: without path resolution, indentation failures and final formatting.
- The hash of a row is an arbitrary function of its content.
- SyntaxLocalization.Localize: one-minimality of the final set is proved from the exchange property, which is not needed for a single run; the replacement and value line reported with a command, and parsers, are not part of this model.
- Ctp2 and VisibleLines: choosing repeated substrings and estimating their savings, invalid UTF-8, the `int` range of `strconv.Atoi`, and the request and response JSON around the texts.
- Ctp2Strings.EncodeContentLocal: does not state that a retained definition is referenced twice after the final encoding, because removing one greedy match can shift another.
- CacheAttribution: `uint64` wrap-around of growing totals, usage totals other than cache attribution, diagnostics and rates. Control records and provider attempts of a merge are checked, and counted only through the usage of the final attempt.
- Offset maps: building anchors from tokens and imports (`newFormattedOffsetMap`), and the absent map, which is the identity.
- ExtentMap.ExtentContains: one offset at any nesting depth, away from nested edges; what happens at the edges is `ExtentEdges.ProjectsWholeIff`, for the nesting that import specs have, since a spec is never itself a file with imports.
- Reader: UTF-8 decoding and row formatting, which is an arbitrary function.
- LineSplitter.Splitter.AppendContent: without a tail, the line limit and the token limit of `VerifiedRowOutput` stop the collection early; that output is not part of this model, nor is the text of the limit reason.
- LineSplitter.Splitter.FinishLine: likewise without the head limits.
- LineSplitter.ReadChunks: likewise, and without decoding errors.
- TailRead.ReadTail: hands the rows to the tail after the last chunk; the code does so row by row.
- RowTail.VerifiedRowTail.Finish: takes as a premise that no token spans more than 128 bytes.
- Commentary: HTTP, SHA-256 (an identity is the pair it is hashed from), activity collection and debug traces; `threadMessageIDs`, which copies sets.
- Numbers: token counting of the decoded values around `normalizedNumber`.
- Hooks, credentials, dashboards, reports, language servers and process management.
