# cozy-tools: verified models of its stateful core

This project models the parts of cozy-tools whose correctness does not show in any
single function, and proves what they promise.

* **Command log.** Any number of processes share one log directory: a put appends a row
  under a lock, a cleanup holds the same lock while it reads all rows, drops commands and
  rewrites file after file, and a lookup reads without it. `LogProtocol` is the step
  relation, `LogInvariant` what every step keeps, `LogIndex` the refinement to one atomic
  index, `LogLookup` what lookups and aborts may answer. `IndexRows` holds the collapse and
  retention rules, `History` one process's methods over the log directory, `IndexFile` the
  line-by-line file format.
* **Guarded commit.** `GitModel` states the assumptions about git and `Blanks` what trimming
  its output does to names, `GuardedCommit` is the
  transaction and what it commits, `CommitProtocol` interleaves any number of transactions
  with outsiders who write the real index and the worktree.
* **Line editor and pager.** `TextLines`, `Hashline`, `LineEditor`, `UniqueReplacement`,
  `Pager` and `FittedPages`: the two ways of splitting lines, printed and parsed anchors, the
  bottom-up splice, newline conventions, paging under limits.
* **Globs and ignore rules.** `Regex` gives regular expressions their meaning, `Globs` the
  two compilers and a direct matcher, `IgnoreRules` and `IgnoreWalk` the cascade of ignore
  levels during a pruning walk, `ContextWindow` the merge of context lines.
* **Budgets.** `TreeWalk` (files and bytes of a directory walk), `TailOutput` with `Utf8`
  (bytes of captured output).
* **Small pieces.** `GroupTermination` (kill before reap), `Template` (variable
  substitution). `Wrappers` and `Sequences` hold what several modules share.

A method with loops or fields is proved against a specification function, and the lemmas
are about that function. Strings are byte strings: one `char` is one byte of the file,
unless a module says otherwise.

## Where the code falls short of its own words

Each of these is a lemma with the exact condition, and an input where one is needed.

* The record cap leaves out the line feed the encoder adds: a record can be read back if and
  only if it is strictly below the cap
  (`IndexFile.AcceptedRecordIsReadableStrictlyBelowCap`).
* The total cap of an index file is called a read budget but compared only after the whole
  file was read and parsed. A read stays within it if and only if the file does or a bad line
  is noticed within it (`IndexFile.ReadStaysWithinTotalCapExactly`, with
  `IndexFile.CleanFileIsReadWhole`).
* A row over the line cap is refused after its record file has been written. A refused put
  leaves the files as they were if and only if the id is blank, the record is over its own
  cap, or the file already held this record (`History.RefusedPutLeavesNoTraceExactly`, with
  `History.OversizedRowLeavesItsFile`).
* A refused row leaves an empty index file behind if and only if there was none
  (`History.RefusedPutLeavesRowsAlone`).
* An append torn before its line feed fails the read of the whole file if and only if the
  fragment does not decode (`IndexFile.TornTailFailsTheRead`).
* Git's output lines are trimmed before they are compared with the owned names, so a staged
  file named ` a` passes as `a` (`GuardedCommit.PaddedNameSlipsThrough`). A guarded commit
  touches only owned paths if and only if none of its changes is exposed in this way
  (`CommitProtocol.CommitsTouchOnlyOwnedPaths`).
* An owned change whose name git quotes is never committed
  (`GuardedCommit.QuotedChangeIsNeverCommitted`). If no changed path is printed blank or as
  another owned path, a commit is made if and only if staging is not refused, changes
  something, and every change belongs to an owned path printed as it is
  (`GuardedCommit.CommittedExactlyByName`, with `GuardedCommit.NewFileIsCommittedExactlyByName`).
  Staging is refused if and only if a tracked owned path is printed by a name that matches
  nothing tracked, or a new owned file that git ignores is not reported by its own name
  (`GuardedCommit.StagingRefusedExactlyByName`).
* The uniqueness guard counts occurrences that do not overlap, so `aa` counts as unique in
  `aaa`; it is exact if and only if the text has no border
  (`UniqueReplacement.GuardIsUniquenessExactlyWithoutBorder`).
* Taking a file apart for an edit and putting it together again gives it back if and only if
  its line ends are all of one kind; otherwise the edit rewrites line ends outside its ranges
  (`LineEditor.ReassemblyIsExactUnlessMixed`).
* Following the next offsets of pages delivers every line if and only if every line fits the
  byte limit (`Pager.PagesDeliverTheFile`).
* A page shrunk to no line names the offset it was asked for
  (`FittedPages.StuckPageNamesItself`). Where a page is no smaller than the page of any one of
  its lines, following the next offsets a model is given delivers every line if and only if the
  page of each line alone fits (`FittedPages.FittedPagesDeliverTheFile`).
* A shortened text page keeps the byte count of the page it was cut from, which is right if
  and only if that page had no content (`Pager.ByteCountGoesStaleExactly`).
* A walk that looked at everything reports truncation if and only if it used up its file
  budget and ends by opening an empty directory (`TreeWalk.WalkTree`, with
  `TreeWalk.CompleteWalkReportedTruncated`).
* `**` does not cross a line feed: the expression has the glob's plain meaning on every path
  if and only if the glob has no `**` (`Globs.PlainMeaningExactlyWithoutDeep`).
* Eviction keeps characters whole at the front, whatever the budget, if and only if every
  write but the oldest one held starts with a character
  (`TailOutput.EvictionKeepsCharactersExactly`, with `TailOutput.SplitCharacterIsCut`).

## Model

| member | source | states |
|---|---|---|
| `IndexRows.BestIsTheFirstUndominatedRow` | command/history.go:347-379 | The row shown for a command is the first of its rows that no other row supersedes: ties on creation time keep the earlier row; there is one exactly if the command has any row |
| `IndexRows.ShownRowIsTheNewestOfItsKind` | command/history.go:335-352 | The row shown is finished (neither blank nor running) if the command has a finished row, the newest of its kind, and of several equally new ones the first |
| `IndexRows.TerminalRowWins` | command/history.go:341-352 | A command with a terminal row shows a terminal row, whatever the timestamps |
| `IndexRows.CollapseHasOneRowPerCommand` | command/history.go:354-379 | The collapsed rows hold one row for each command mentioned, and it is the best one |
| `IndexRows.CollapsingEarlyIsInvisible` | command/history.go:467-494 | Replacing rows A by their collapsed rows in any order, followed by rows B, shows the same row for every command as A followed by B |
| `IndexRows.CollapseIsIdempotent` | command/history.go:360-379 | Collapsing twice is collapsing once |
| `IndexRows.LatestEntries` | command/history.go:360-379 | The map-and-order loop computes the collapse |
| `IndexRows.ResolveEntry` | command/history.go:309-333 | The loop for a single command agrees with the collapsed listing |
| `IndexRows.ApplyRetention` | command/history.go:472-491 | The two passes of a cleanup make a split the retention rules allow: rows before the cutoff go, and of the rest one goes only if the limit is used up by kept rows, all at least as new |
| `IndexRows.RetentionPartitionsCommands` | command/history.go:472-491 | Kept and dropped rows partition the commands, and every kept command is at least as new as every dropped one |
| `LogInvariant.EveryStepKeepsInvariant` | command/history.go:131-494 | Every step of any process (put, cleanup, rename, failure, crash, lookup, live update) keeps mutual exclusion, and with it that a lock holder's snapshot equals the index files it has not renamed yet |
| `LogInvariant.InvariantHoldsAlongRuns` | command/history_lock.go:27-49 | The invariant holds after every step of every run from an empty log root |
| `LogInvariant.KeptInKeepsOrder` | command/history.go:815-829 | Grouping kept rows by index file keeps exactly the rows that name the file, in their order |
| `LogIndex.ReadersAgree` | command/history.go:667-696 | A reader without the lock that looks for and reads file after file while appends and renames go on shows for each command what the index shows at one instant: when the command's own file is read, or when it was looked for if it did not exist yet |
| `LogIndex.StepRefinesAtomicIndex` | command/history.go:185-197 | Appends and file-by-file renames act on what readers see as one atomic index would: an append absorbs its row, a rename forgets exactly the dropped commands of its file, nothing else changes anything |
| `LogIndex.RunRefinesAtomicIndex` | command/history.go:447-494 | Along every run, every command shows what the atomic index shows |
| `LogIndex.OnlyRetentionForgets` | command/history.go:476-494 | A command disappears only at a rename, its shown row was dropped as expired or crowded out by at least as new commands, and all kept commands still show their rows |
| `LogIndex.AppendedRowsAreNeverLost` | command/history.go:185-197 | From its append on a command stays listed until some cleanup's own retention drops it |
| `LogIndex.TerminalRowsStayTerminal` | command/history.go:341-352 | Once a row that is neither blank nor running is appended the collapsed index never again shows the command as blank or running |
| `LogProtocol.OutcomePrecedence` | command/history.go:277-302 | What a lookup answers: a finished cached record, else a finished one from disk, else whatever the cache holds, else whatever the disk holds |
| `LogLookup.TerminalReportIsFinal` | command/history.go:265-302 | Once a process has reported a command terminal, no lookup it starts later reports it running, whatever updates, appends and cleanups interleave |
| `LogLookup.AbortOkSilences` | command/runner.go:775-784 | After an abort answers ok, neither the process's cache nor a row with its record file can make a lookup answer running |
| `LogLookup.AbortOkIsFinal` | command/runner.go:746-788 | An abort that answers ok is never followed by a running report of that process |
| `History.History.Put` | command/history.go:131-199 | Blank ids, records over 16 MiB and rows that do not fit 1 MiB with their line feed are refused, exactly those and in this order; an accepted put appends its row to its index file, writes its record file, caches the record and changes no other file; a refused one changes no row |
| `History.AcceptedPutShowsOneMoreRow` | command/history.go:185-197 | After an accepted put its command shows the better of its old row and the new one, every other command the row it showed before, however the index files are listed |
| `History.RefusedPutLeavesNoTraceExactly` | command/history.go:149-196 | A refused put leaves the record files as they were if and only if the id is blank, the record is over its cap, or the file already held the record |
| `History.RefusedPutLeavesRowsAlone` | command/history.go:792-808 | A refused put leaves every file's rows alone, and creates an index file if and only if the row is refused and there was none |
| `History.OversizedRowLeavesItsFile` | command/history.go:168-196 | A record within its cap whose row is over the line cap: refused, with its file written |
| `History.History.UpdateRunningOutput` | command/history.go:242-263 | Only the output of a command cached as running changes |
| `History.History.GetRecord` | command/history.go:277-302 | A cached record neither blank nor running is answered as it is; otherwise such a record from the file that the best index row names, which is then cached; otherwise the cached one, or what the disk holds |
| `History.History.Cleanup` | command/history.go:447-494 | The index afterwards holds the kept rows and no others; exactly the dropped rows' files and cache entries are gone |
| `History.History.RemoveEntries` | command/history.go:642-645 | Removing entries deletes exactly their record files and cache entries |
| `History.History.RewriteIndexes` | command/history.go:815-829 | Every index file that had rows is replaced by its kept rows, in order; the others stay |
| `History.CleanupShowsKeptRows` | command/history.go:467-494 | Across a cleanup a kept command shows the row it showed before and a dropped one is gone, however the files are listed |
| `History.CleanupSparesKeptFiles` | command/history.go:484-493 | With record files named by command id no dropped row shares a file or an id with a kept one, and a positive limit bounds the kept commands |
| `IndexFile.ReadSlice` | command/history.go:717-721 | What one call of the buffered reader returns: a line with its line feed, a full buffer, or the end |
| `IndexFile.ReadEntriesBounded` | command/history.go:706-758 | For every buffer size the chunked loop yields exactly the file's newline-separated rows or their first error, the total cap applied last; the bytes taken are the whole file, or those up to where the first bad line is noticed |
| `IndexFile.FirstBadIsWithinFile` | command/history.go:720-753 | A bad line is noticed exactly if the rows fail, and within the file |
| `IndexFile.ReadStaysWithinTotalCapExactly` | command/history.go:36-39 | A read takes no more than the total cap if and only if the file is within it or a bad line is noticed within it; a clean file is always read whole |
| `IndexFile.CleanFileIsReadWhole` | command/history.go:754-756 | A clean file over the cap that is read to its end |
| `IndexFile.RowsOfConcat` | command/history.go:720-753 | Reading a terminated file followed by more is reading the one and then the other |
| `IndexFile.SingleLine` | command/history.go:720-753 | What one line gives, ended or not: too long by its bytes and its line feed, nothing if empty, undecodable, or its row |
| `IndexFile.AppendedRowIsReadBack` | command/history.go:792-813 | An append accepts exactly the rows that fit the line cap with their line feed, and such a row is read back after the rows before it |
| `IndexFile.WriteThenRead` | command/history.go:831-867 | Writing rows within the cap and reading them returns the same rows in order |
| `IndexFile.TornTailFailsTheRead` | command/history.go:726-742 | A fragment without its line feed fails the whole read exactly if it does not decode |
| `IndexFile.AcceptedRecordIsReadableStrictlyBelowCap` | command/history.go:149-159 | An accepted record can be read back if and only if its encoding is strictly below the cap |
| `GitModel.SplitLines` | gitops/git_common.go:65-77 | The names are the trimmed non-blank lines |
| `Blanks.TrimSpaceDropsPadding` | gitops/git_common.go:65-77 | A text padded on both sides with any of the six ASCII blanks trims to its core, and padding alone to nothing |
| `Blanks.TrimSpaceKeepsCore` | gitops/git_common.go:65-77 | A text whose first and last characters are above the space is left as it is |
| `GitModel.PrintedNameIsListed` | gitops/git_common.go:65-77 | A name printed with blanks around it is listed as that name, and a path printed as it is keeps its name |
| `GitModel.CoversWhatItIsAbove` | gitops/git_commit.go:105-112 | A pathspec matches a path exactly if it is the path or a directory above it, name by name |
| `GuardedCommit.CheckIsExactUnlessExposed` | gitops/git_commit.go:99-103 | The ownership check accepts only owned changes, for every staged set over given paths, if and only if no path is exposed by trimming |
| `GuardedCommit.PaddedNameSlipsThrough` | gitops/git_common.go:65-77 | A concrete foreign file that the check lets through |
| `GuardedCommit.StagedOwnedPathsFollowWorktree` | gitops/git_commit.go:105-154 | Whatever git prints, a path has its worktree state after staging if and only if it is swept up or had that state before |
| `GuardedCommit.StagingSweeps` | gitops/git_commit.go:105-154 | The three staging commands together bring exactly the swept paths to their worktree state and leave every other path as it was |
| `GuardedCommit.CommittedExactlyByName` | gitops/git_commit.go:92-175 | When no changed path is printed blank or as another owned path, a commit is made if and only if staging is not refused, changes something, and every pre-staged and staged change belongs to an owned path printed as it is |
| `GuardedCommit.QuotedChangeIsNeverCommitted` | gitops/git_commit.go:155-166 | A staged change whose printed name is no owned path ends in a conflict or an error |
| `GuardedCommit.NewFileIsCommittedExactlyByName` | gitops/git_commit.go:119-166 | A new file in an empty repository is committed if and only if git prints its name as it is |
| `GuardedCommit.StagingRefusedExactlyByName` | gitops/git_common.go:118-141 | Staging is refused if and only if a tracked owned path is printed by a name that matches nothing tracked, or a new owned file that git ignores is not reported by its own name; the transaction fails if and only if that happens and every name staged before is owned |
| `GuardedCommit.CommitIsOverlay` | gitops/git_commit.go:88-175 | A committed tree is HEAD with the owned paths replaced by their worktree state if and only if none of its changes is exposed and every owned path is swept or was staged as it is |
| `GuardedCommit.TransactionOutcome` | gitops/git_commit.go:92-175 | For owned files and directories whose names git prints as they are, blanks around them aside, whatever the names of other files: a conflict exactly if something foreign was staged or would be swept up, skipped exactly if the overlay is HEAD, else the overlay is committed |
| `GuardedCommit.Repository.CommitOwned` | gitops/git_commit.go:27-86 | The method reports what the transaction decides, as ok, skipped, conflict or error: with the names of the committed changes, or of the refused ones, of which one is foreign; on success HEAD and the real index are the committed tree, otherwise both stay |
| `GuardedCommit.CommitOwnedLocked` | gitops/git_commit.go:92-175 | The sequence of checks and index mutations computes the transaction |
| `GuardedCommit.CheckStaged` | gitops/git_common.go:110-117 | The names of one ownership check, and a verdict that is negative exactly if one of them is not owned |
| `GuardedCommit.StageOwned` | gitops/git_commit.go:105-154 | The loops over tracked, existing and ignored files stage what the specification stages, or are refused where one of the staging commands is |
| `GuardedCommit.SplitIgnored` | gitops/git_common.go:127-141 | Which files are forced goes by the trimmed names git prints for its arguments |
| `CommitProtocol.EveryStepKeepsInvariant` | gitops/git_commitlock.go:44-78 | Every step of guarded commits and outsiders keeps mutual exclusion, a linear log of sound commits, and that a sync follows its own commit |
| `CommitProtocol.CommitsTouchOnlyOwnedPaths` | gitops/git_commit.go:155-169 | In every interleaving each commit's diff against its parent names only owned paths, and touches only owned paths if and only if none of its changes is exposed |
| `CommitProtocol.HolderAloneMovesHead` | gitops/git_commitlock.go:44-78 | While a guarded commit is under way only its own commit moves HEAD, and only its own sync or an outsider writes the real index |
| `CommitProtocol.RejectionLeavesNoTrace` | gitops/git_commit.go:74-79 | A transaction that ends without a commit, by conflict, skip, error or crash, leaves HEAD where it was and never wrote the real index |
| `CommitProtocol.InterleavedTransactionIsAtomic` | gitops/git_commitlock.go:83-144 | Whatever outsiders stage after the snapshot, a transaction ends exactly as the atomic one on its snapshot, if nobody edits the worktree until it has added its files |
| `TextLines.JoinSplit` | filesystem/edit.go:134 | Splitting at line feeds and joining is the identity |
| `TextLines.CrlfRoundTrip` | filesystem/edit.go:91-94 | Converting a text without carriage returns to CRLF and normalising gives it back |
| `TextLines.NormalizeAtCrlf` | filesystem/read.go:165 | Each carriage return and line feed becomes a line feed, and what is around it is normalised as before |
| `TextLines.LinesAreTheText` | filesystem/read.go:167-176 | A non-empty text has a line, and its lines joined are the text without its final line feed |
| `Hashline.AnchorsAgreeByResidue` | filesystem/read.go:182-191 | Two lines share an anchor exactly if their hashes agree modulo 26 to the third |
| `Hashline.AnchorSpellsResidue` | filesystem/read.go:182-191 | The three letters are the digits of the hash modulo 26 to the third, the most significant first |
| `Hashline.ParsePrint` | filesystem/edit.go:186-196 | Every printed number and anchor parses back to itself |
| `Hashline.PrintParse` | filesystem/edit.go:186-196 | Whatever parses is exactly what its address prints |
| `LineEditor.EditsIgnoreOrder` | filesystem/edit.go:169-174 | Neither acceptance nor the arranged ranges depend on the order of the edits |
| `LineEditor.Splice` | filesystem/edit.go:175-182 | The bottom-up loop equals the simultaneous substitution of all ranges |
| `LineEditor.ApplyHashlineEdits` | filesystem/edit.go:133-184 | Accepted exactly if every edit parses, is in range, matches its anchors and all ranges are pairwise disjoint; the result is the substitution |
| `LineEditor.EditHashlines` | filesystem/edit.go:64-94 | The edit of a whole file: acceptance and bytes, including newline convention and final newline |
| `LineEditor.EditsKeepFinalNewline` | filesystem/edit.go:86-94 | Every edit keeps the presence or absence of the final newline |
| `LineEditor.ReassemblyIsExactUnlessMixed` | filesystem/edit.go:64-94 | Taking a file apart and putting it together again gives it back if and only if its line ends are all of one kind |
| `LineEditor.ReadAndEditSeeTheSameLines` | filesystem/read.go:104-122 | The lines the reader numbers are the lines the editor resolves, for every non-empty text |
| `LineEditor.PrintedAddressesResolve` | filesystem/edit.go:137-157 | Any two printed addresses, in order, resolve to the range between them |
| `LineEditor.ResolvesExactly` | filesystem/edit.go:137-157 | An edit resolves to a range exactly if it carries the printed addresses of its first and last line, the second left out only for a single line |
| `LineEditor.ContentLinesAreTheText` | filesystem/edit.go:158-166 | Replacement text without carriage returns is at least one line, its lines joined are the text but for a final line feed, and its CRLF form gives the same lines |
| `LineEditor.OneEditReplacesItsLines` | filesystem/edit.go:133-184 | One edit that carries the printed addresses of some lines is accepted and gives the lines before, the replacement text but for its final line feed, and the lines after |
| `LineEditor.OneEditOfAFile` | filesystem/edit.go:64-94 | The same through a whole file, with line feeds or CRLFs throughout and its last line ended: the new file byte for byte |
| `LineEditor.ReassemblyInPlainTerms` | filesystem/edit.go:86-94 | A file with CRLFs, at least as many as bare line feeds, gets CRLFs throughout, any other none; the text gets the final line feed the file had, or loses its final ones |
| `LineEditor.OwnLinesEditIsIdentity` | filesystem/edit.go:158-183 | Replacing ranges of a uniformly terminated file by their own lines, each ended with a line feed, leaves it byte-identical |
| `UniqueReplacement.UniqueIsReplaced` | filesystem/edit.go:120-123 | A unique occurrence is accepted and replaced in place |
| `UniqueReplacement.GuardIsUniquenessExactlyWithoutBorder` | filesystem/edit.go:120-130 | The count guard means uniqueness on all texts if and only if the searched text has no border |
| `UniqueReplacement.ReplacementOutcome` | filesystem/edit.go:111-131 | The outcome on every input: replaced, already applied, not found, ambiguous, and for an empty search text the new text or a refusal |
| `Pager.PageIsLongest` | filesystem/read.go:108-122 | No page of more lines from the same offset respects both limits |
| `Pager.ReadPage` | filesystem/read.go:104-142 | The loop gives the longest page that fits, numbered from the offset, with exact byte count and the first line left out as next offset |
| `Pager.PagesDeliverTheFile` | filesystem/read.go:108-141 | Asking for the next offset each page names delivers, from the start, exactly the lines in front of the first that does not fit the byte limit: all lines if and only if every line fits |
| `Pager.FitRead` | fstools/mcp_file.go:189-235 | Over the budget less 128 bytes, a page loses lines from its end, or bytes if binary, until it fits or nothing is left; the next offset is the number of the first line or the offset of the first byte it lost, content and notice follow what is left; any other page is returned as it is |
| `Pager.ShrinkOnce` | fstools/mcp_file.go:198-219 | One round of shrinking is the cut the shrinking rule asks for |
| `Pager.Fewer` | fstools/mcp_file.go:199-205 | A round takes one line of a text page; of a binary page it takes the least number of bytes above three quarters of what it is over the limit, or all that are left |
| `Pager.ShrunkTo` | fstools/mcp_file.go:197-222 | Shrinking stops only where the page fits or nothing is left |
| `Pager.TextShrinksNoFurtherThanNeeded` | fstools/mcp_file.go:209-219 | Every longer cut of a shortened text page is over the budget |
| `Pager.BudgetIsKept` | fstools/mcp_file.go:190-195 | With a notice of at most 128 bytes and pages of more, every answer fits its budget, or not even the empty page did |
| `Pager.ByteCountGoesStaleExactly` | fstools/mcp_file.go:224-232 | The byte count of a shortened text page is right if and only if the page had no content |
| `FittedPages.FittedPagesDeliverTheFile` | fstools/mcp_file.go:189-222 | If a page is no smaller than the page of any of its lines, asking for the next offset each answer to a model names delivers exactly the lines in front of the first whose own page does not fit: every line if and only if the page of each line alone fits |
| `FittedPages.BinaryPagesDeliverTheFile` | filesystem/read.go:86-102 | Asking for the next offsets of shrunk binary pages delivers the bytes in order and once, and stops short only in front of a page over its budget that lost all of its bytes |
| `FittedPages.StuckPageNamesItself` | fstools/mcp_file.go:209-219 | A text page shrunk to no line names the offset it was asked for |
| `Regex.StarThen` | fileops/search.go:184-201 | A starred character class stops here or takes one more character |
| `Globs.TextParsesBack` | fileops/search.go:188-232 | The expression text reads back as the pieces it was written from, so adjacent pieces never fuse |
| `Globs.TranslateGlob` | fileops/search.go:188-232 | The first compiler writes the pieces of the glob |
| `Globs.GlobBody` | filesystem/ignore.go:116-166 | The second compiler writes the same pieces, or fails exactly on an unescaped opening bracket |
| `Globs.OpensWithoutEscapes` | filesystem/ignore.go:130-166 | In a glob that escapes nothing every opening bracket counts as unescaped |
| `Globs.RegexAccepts` | fileops/search.go:184-232 | For every glob and path the regular expression accepts exactly what the recursive matcher accepts when `**` stops at line feeds |
| `Globs.GlobRegexMeansGlob` | fileops/search.go:184-232 | On paths without a line feed, or globs without `**`, that is the plain meaning of the glob |
| `Globs.PlainMeaningExactlyWithoutDeep` | fileops/search.go:184-232 | The expression has the glob's plain meaning on every path if and only if the glob has no `**` |
| `Globs.FewPairsAccepted` | fileops/search.go:188-232 | An accepted path has no more line feeds followed by a slash than the glob has characters |
| `Globs.DeepStopsAtLineFeed` | fileops/search.go:196-199 | A path with a line feed that the plain meaning accepts and the expression does not |
| `Paths.PrefixMeansAbove` | fileops/gitignore.go:133-141 | The string test that keeps a level holds exactly for the directory itself and its ancestors |
| `IgnoreRules.LastMatchDecides` | fileops/gitignore.go:94-126 | A path is ignored exactly if its last matching rule is not negated |
| `IgnoreRules.ScanForward` | filesystem/ignore.go:91-103 | Overwriting a flag rule by rule ignores a name exactly if the last rule that matches it is not negated, where a rule for directories matches no file as itself |
| `IgnoreRules.ScanBackward` | fileops/gitignore.go:101-128 | The nested reverse scan gives the last match's verdict in the root-first concatenation of all levels |
| `IgnoreWalk.ChainDecidesByAncestors` | fileops/gitignore.go:92-128 | Along an ancestor chain a rule without a slash reads the entry's own name and any other the path below its own directory, and the last match of all of them, root first, decides |
| `IgnoreWalk.UnwindingLeavesTheChain` | fileops/gitignore.go:130-141 | Whatever earlier entries left on the stack, unwinding leaves exactly the levels of the entry's ancestors |
| `IgnoreWalk.AncestorLevels` | fileops/gitignore.go:144-164 | A walk that starts below the root starts with the levels of all directories above it |
| `IgnoreWalk.Search.PopLeftDirs` | fileops/gitignore.go:130-141 | The loop unwinds the stack as specified |
| `IgnoreWalk.Search.Enter` | fileops/search.go:337-375 | One callback: a directory is entered exactly if it is neither skipped nor ignored by its ancestors' chain, a file is kept exactly if its chain does not ignore it or it is the start |
| `IgnoreWalk.Search.Visit` | fileops/search.go:337-375 | Visiting a subtree adds exactly the files that each entry's own ancestor chain lets through, and leaves only that subtree's levels above the ancestors |
| `IgnoreWalk.SearchFiles` | fileops/search.go:333-375 | The stateful walk finds, path by path, exactly the files that are the start or not ignored by the rules of their ancestors, and below directories that are the start or not hidden, not named node_modules, __pycache__ or vendor, not in the registry, and not ignored themselves; it equals the stackless definition |
| `ContextWindow.Selection` | command/runner.go:1103-1107 | The selection is the increasing sequence of exactly those line indexes that lie from `before` lines above some hit to `after` lines below it |
| `ContextWindow.MergeWindows` | fileops/search.go:463-500 | The streaming merge shows exactly the selection of the processed hits, once and in order, marks a line exactly if it is a hit, and stops at the cap; for all context sizes, negative ones too |
| `ContextWindow.ApplyFilter` | command/runner.go:1088-1122 | Collecting in a set, sorting and cutting picks the same selection, truncated exactly if it exceeds a positive limit |
| `TreeWalk.Sorted` | filesystem/walk.go:101 | Sorting by name yields an ordered permutation |
| `TreeWalk.LeIsLexicographic` | filesystem/walk.go:101 | Names ascend as their characters do where they first differ, a prefix first |
| `TreeWalk.ListsExactly` | filesystem/walk.go:106-152 | The unbounded walk lists an entry exactly if its depth is allowed, it is not ignored, and neither it nor a directory on the way is hidden or one of the fifteen skipped names, unless asked for; ignored directories are entered |
| `TreeWalk.Walk.Take` | filesystem/walk.go:107-144 | One entry: charged before it is filtered, listed unless filtered or ignored, entered unless filtered, truncated exactly if the budgets do not cover it |
| `TreeWalk.Walk.VisitEntry` | filesystem/walk.go:106-152 | One entry with its subtree: untruncated exactly if the budgets left can pay for it, and then all of it is listed and charged |
| `TreeWalk.Walk.Visit` | filesystem/walk.go:76-158 | The same for a directory, although only one entry more than the remaining budget is read |
| `TreeWalk.DirDemand` | filesystem/walk.go:84-90 | The file budget an untruncated walk needs is the number of files it looks at, and one more if and only if it ends by opening an empty directory |
| `TreeWalk.WalkTree` | filesystem/walk.go:44-158 | Scanned files and bytes stay within budget; truncated exactly if the unbounded walk needs more, blaming the file limit only when that many were looked at; untruncated walks list exactly the unbounded sorted preorder; truncated ones list nothing else |
| `TreeWalk.CompleteWalkReportedTruncated` | filesystem/walk.go:84-90 | A family of complete walks that report truncation |
| `Utf8.StartIsNear` | command/tail_output.go:119-127 | In valid UTF-8 the next character start is at most three bytes away |
| `Utf8.CutAtStart` | command/tail_output.go:119-127 | Cutting valid UTF-8 at a character start leaves valid UTF-8 |
| `Utf8.CharactersAreEncodings` | command/tail_output.go:119-127 | What counts as one character is the encoding of a scalar value by the table of section 3 of RFC 3629 |
| `Utf8.EncodingIsOneCharacter` | command/tail_output.go:119-127 | The encoding of every scalar value counts as one character, whatever follows |
| `TailOutput.HeadRuneCut` | command/tail_output.go:119-127 | The cut is the first character start at or after the limit, at most three bytes on in valid text |
| `TailOutput.OutputTail.Evict` | command/tail_output.go:102-117 | Eviction leaves a suffix within budget, drops exactly the bytes the rule names, and of valid text at most three bytes more than needed |
| `TailOutput.OutputTail.Write` | command/tail_output.go:83-98 | After every write the kept bytes are the sum of the chunks and within budget, the tail is a suffix of everything written, what is missing beyond the budget is the rest of a character, truncated exactly if more than the budget was written, and digests have consumed everything |
| `TailOutput.WriteWholeAndSplit` | command/tail_output.go:83-98 | Of two tails with equal histories, one given an output in one write and the other in two, all views, the truncation flag and the digest agree while nothing is evicted |
| `TailOutput.StartsAtStart` | command/tail_output.go:119-127 | The tail of whole-character writes starts at a character start |
| `TailOutput.EvictionKeepsCharactersExactly` | command/tail_output.go:100-117 | Whatever is over budget, what is left starts with a character if and only if every write but the oldest one held does |
| `TailOutput.SplitCharacterIsCut` | command/tail_output.go:100-117 | Two writes that split a character, of which the second half is left |
| `TailOutput.OutputTail.Snapshot` | command/tail_output.go:138-148 | Each stream's view is the redacted bytes of that stream in the tail, of everything written while nothing was evicted |
| `TailOutput.OutputTail.CombinedText` | command/tail_output.go:150-173 | The interleaved view redacts each longest same-stream run as one and depends only on the bytes, not on how writes were split |
| `TailOutput.RunThenOther` | command/tail_output.go:150-173 | A run that ends where the other stream begins is redacted on its own |
| `TailOutput.OutputTail.SumCoversEverything` | command/tail_output.go:183-208 | The composed digest is a function of everything written to each stream |
| `GroupTermination.EveryKillReachesTheGroup` | command/termination_unix.go:14-68 | In every interleaving of run, exits, cancellations and recycling, each kill is sent while the leader is alive or an unreaped zombie, and the leader is reaped only after the group was killed |
| `GroupTermination.CancelAnswers` | command/termination_unix.go:41-48 | With any steps of others between check and kill: a cancellation that found the flag set never sends a kill and reports the process done; otherwise the flag is still clear at its one kill, which goes to the leader's own id |
| `Template.NamesAreSpelled` | vars/substitute.go:35-42 | A name has 1 to 64 letters, digits, underscores and dashes, and starts with no digit or dash |
| `Template.Substitute` | vars/substitute.go:45-72 | The scanning loop computes the specification, including which problem is reported first |
| `Template.EscapedTextSurvives` | vars/substitute.go:37-52 | Escaping any text and substituting gives the text back |
| `Template.PrintedTemplateEvaluates` | vars/substitute.go:37-72 | A printed template evaluates to its literals and values in order, values never rescanned, or to its first bad reference |
| `Template.EvalSucceedsWhenDefined` | vars/substitute.go:58-67 | Evaluation succeeds exactly if every reference is a valid name with a value |
| `Template.PrintingIsFaithfulExactlyWhenPaired` | vars/substitute.go:45-72 | With all references defined, substitution of a printed template is its evaluation if and only if no literal before a reference ends in an unpaired brace |
| `Template.SubstitutionIsEvaluation` | vars/substitute.go:45-72 | A text evaluates to v if and only if it prints some template with all references defined whose value is v |

## Left out

- Real file I/O, gzip, fsync, permissions, symlinks and root containment: a rename is one
  atomic step and an encoding is any function with an inverse.
- Write failures that leave a torn index row: `LogProtocol` appends a row whole or not at
  all; what a torn row does to readers is `IndexFile.TornTailFailsTheRead`.
- Directory reads that fail or files that change during a walk or search: the tree is fixed.
- Process spawning, timers and contexts: the protocols keep the step order and the lock.
  Nothing is claimed about deadlock freedom of the group termination, because the leader is
  waited for while the mutex is held.
- The retries of the two lock acquisitions: a lock is taken when it is free.
- Loading the cache in `NewHistory`: steps of `LogProtocol` that list rows and later read files,
  not a method of `History`.
- History.History.Cleanup: states one cleanup with nobody else at work; interleavings are
  the subject of `LogProtocol`. `rewriteIndexes` replaces all files in one assignment here
  and one file per step there.
- IndexFile.ReadEntriesBounded: counts the bytes handed to the parser; the buffered reader may
  have fetched up to one buffer more from the file.
- Index file names, project names and the validation of record paths: each command has one
  home file, and `LogProtocol` names record files by command id.
- Git itself: `add`, `add -u`, `diff --cached`, `ls-files`, `commit` and `reset --mixed`
  mean what `GitModel` and `CommitProtocol` say. A path that turns from file to directory
  between index and worktree, submodules, modes, and hooks that change a commit are not part
  of the model; `normalizeOwnedFiles` is assumed to have been applied.
- CommitProtocol.CommitsTouchOnlyOwnedPaths: states less than the documentation, which promises
  owned paths unconditionally; the condition it states is exact.
- GuardedCommit.TransactionOutcome: assumes that git prints the covered names as they are, up to
  blanks around them, and foreign names that were staged before neither blank nor as an owned
  path; what other names do is `CommittedExactlyByName`, `StagingRefusedExactlyByName` and `CommitIsOverlay`.
- What outsiders staged during a guarded commit is discarded by the final reset; no claim is
  made that it survives.
- SHA-256 and FNV: uninterpreted functions; of the anchor only its digits are modelled. Hash
  preconditions, size limits and binary detection around an edit or a read are left out.
- Pager.FitRead: the encoded size is any function of the page, so a shortened binary page is
  shown to fit, not to be the longest that does.
- Pager.ReadPage: text pages; the byte slice of a binary file is the function
  `FittedPages.BytesAt`, and the reason text of a page's truncation is left out.
- Trimming of blanks outside ASCII: names and ids that begin or end with one.
- Globs.TranslateGlob, Globs.GlobBody: character classes and bytes outside ASCII are
  excluded, because the two compilers differ there. Only globs without a closed bracket are
  modelled.
- The text of ignore files: rules are any pattern with its flags; parsing lines into rules,
  and the anchors put around a glob's expression, are left out.
- IgnoreWalk.Search.Visit: children come in any order with distinct names; the search options
  that disable ignore files, the extension and content filters and symbolic links are left
  out.
- ContextWindow: which lines hit is given; regular expressions, replacement text and file
  name prefixes are left out, as are the modes that list files, counts or spans only.
- TreeWalk: paths are lists of names.
- TailOutput: redaction and digests are any functions, the mutex is not modelled because
  every method runs under it, and the update callback after a write is left out.
- Template: error texts are reduced to the problem and the name or rest they report.
- Failure markers, filter packs, redaction patterns, listing, status tools, output parsers,
  worktree preparation, tool catalogs and schemas are not modelled.
