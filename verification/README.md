# Orca protocols, scanners and indexes in Dafny

These modules model the parts of Orca's command line, mock server, build tooling and desktop
helpers that have an exact specification, and prove what that code is for.  Each file is one
component; `dafny verify dfyconfig.toml` checks all of them.

- `KeyElection.dfy`, `KeyOutcomes.dfy`: any number of mock-server processes race to mint one server
  key.  One step is one file-system call of one process, which may succeed, fail with any error, or
  be the last thing the process does.  Keys are numbers; a file holds nothing, unusable text, or a
  key.  All properties are about every interleaving of every set of processes: what they keep
  together, and how each ends, told from its own calls.
- `Clipboard.dfy`, `ClipboardFates.dfy`: the Wayland clipboard owner's serve loop over its array of
  eight transfers.  The answers of `poll`, `write`, dispatch, flush and the clock are a script of
  arbitrary turns, and a ghost history records the bytes every descriptor received and how often it
  was closed; what becomes of each descriptor is told from the clock, poll's reports and the writes
  that a run shows of it.
- `ShellWords.dfy`, `ShellGrammar.dfy`, `ShellTokens.dfy`: the POSIX renderer, the full command-line
  parser and the leading-word tokenizer, and for each of the two readers a grammar of every text.
- `OptionKeys.dfy`, `OptionTokens.dfy`, `OptionNames.dfy`, `OptionTexts.dfy`: the two scanners that
  read the option keys of a call, a token grammar (characters, strings with escapes, comments,
  bracketed groups) for what they read, which keys they accept, and what they do on every text.
- `Snapshot.dfy`, `SnapshotNodes.dfy`, `SnapshotLookup.dfy`, `SnapshotLimits.dfy`,
  `SnapshotMarks.dfy`, `TabCompaction.dfy`, `TabShapes.dfy`, `CompactedWalk.dfy`, `TwoTabLists.dfy`,
  `SnapshotBuilder.dfy`: the bounded, eliding walk over an accessibility tree, which nodes it shows,
  the path lookup that leads back from a record to its node, the limits and their marks, the tab
  compaction alone and within the walk, a tree on which it takes away too much, and the walk and
  compaction as they edit the two lists in place.
- `Args.dfy`: the argv parser with its three flag spellings, repeatable flags, and the most specific
  command specification.
- `EntryGuard.dfy`: the worklist that collects what a build entry reaches, and the guard that scans
  it with a cache shared between entries.
- `EditDistance.dfy`, `Suggest.dfy`: the two-row edit distance, the families of destructive verbs,
  and the ranking of command suggestions.
- `Paging.dfy`: the paged reader that halves its page size when a reply is too large.  The server is
  any function of the request and the number of calls before it.
- `Accounts.dfy`, `AccountAnswers.dfy`: account selection and the idempotent redemption of reset
  credits.
- `Streams.dfy`, `StreamLives.dfy`: the superseding terminal streams of the mock server, and what a
  run of events does for each subscription.
- `DueDate.dfy`: the due-date check, on the date arithmetic of section 21.4.1 of ECMA-262.
- `Wrappers.dfy`, `Numbers.dfy`, `Text.dfy`, `CommandSpecs.dfy`: options, results, small arithmetic,
  the string operations of the source languages, and the command registry's entries.

Where the source changes state in place the model is a class or a loop, proved equal to a function
of its old state or of its inputs; the lemmas are about those functions.

Seven results say that the code does not do what one would expect.  Each has a lemma at an input
where it shows, and a condition for all inputs:

- Two processes can return different keys: a read under the lock that fails on a valid key file
  counts as an invalid file, so the process mints and replaces the key
  (`OneMisreadBreaksAgreement`).  In every run two returned keys differ exactly when a step renames
  another key over one that has been returned before, and some process has returned another key than
  that (`DisagreesIff`; `Agreement` when no step does so).  A replacement that comes before anybody
  has returned the key does no harm (`HarmlessOverwrite`); after one that comes later a second key
  can always still be returned (`OverwriteBreaksAgreement`).  The file itself never changes once
  valid exactly when nothing is renamed over a valid key (`KeyIsStableIff`).
- The option-key reader's own description says that whatever it cannot read is reported.
  `UnreportedIff` says for every text, in terms of its tokens, when it is not.  One case is an
  argument list that starts and ends like a literal and is none, since the first brace closes before
  the last: keys of several objects are mixed (`TwoArgumentsAreMixed`).  The other is a single
  literal in which some entry has its key in strings, or no key at all: a quoted key is dropped
  (`QuotedKeyIsLost`).  Regular expressions are no tokens of their own, so their quotes count as
  those of strings and can hide whole entries (`RegularExpressionHidesKey`); on printed literals,
  which have none, a key is lost exactly when some key is quoted (`KeyLostIff`).
- After one row of browser tabs has been compacted, later nodes are numbered from the shortened list
  and repeat indexes.  A second compaction can then take away the record of the first row's active
  tab, whose line stays (`KeptTabLosesRecord`); a line loses its record exactly when an omitted line
  shows the same index (`LineLosesRecordIff`), which the first compaction of a walk never lets
  happen to a line that stays (`FirstCompaction`).
- A snapshot without tab compaction that shows everything can still be marked truncated: by a
  wrapper that shows nothing below depth 64 (`DeepWrapperIsMarked`) or behind the 1200th node
  (`LateWrapperIsMarked`), and by nothing else (`TruncatedIff`, with `ShowsAllIff` for when
  everything is shown).  With compaction or without, a snapshot that is not marked has shown
  everything (`UnmarkedHasShownAll`).
- Real dates in the years 0 to 99 are refused as not being calendar dates (`FirstCenturyIsRefused`;
  `DueDateIff` says exactly what is accepted).
- A flag printed as a bare `--name` takes a following word as its value, unless it is known to take
  none (`BareFlagTakesWord`; `RoundTripIffUnambiguous` for all command lines).
- A repeatable flag loses the values given before it last stood alone (`TextBeforeBareIsLost`;
  `AllTextsAreRecoveredIff` says when none is lost).

## Model

| member | source | states |
|---|---|---|
| KeyElection.StepKeepsInvariant | mobile/scripts/mock-server-key-pair.ts:53-167 | No call of any process, whatever its answer and even if the process dies there, breaks the invariant that ties the lock and the key file to the position of every process |
| KeyElection.RunKeepsInvariant | mobile/scripts/mock-server-key-pair.ts:135-167 | The invariant holds after every interleaving of any number of processes |
| KeyElection.MutualExclusion | mobile/scripts/mock-server-key-pair.ts:53-89 | At most one process is between taking and releasing the lock; the lock on disk is exactly the holder's or one left by a process that died or failed to unlink; every other exit has removed its lock |
| KeyElection.Agreement | mobile/scripts/mock-server-key-pair.ts:135-167 | In every run in which no step overwrites a key that some process has already returned, every returned key is the one in the file, and all returned keys are equal; misreads, failures, deaths and other overwrites are allowed |
| KeyElection.DisagreesIff | mobile/scripts/mock-server-key-pair.ts:91-167 | In every run two returned keys differ if and only if some step overwrites a key returned before it and some process has returned another key |
| KeyElection.HarmlessOverwrite | mobile/scripts/mock-server-key-pair.ts:48-166 | A run with one process that replaces the valid key 7 by 8 before anybody has returned 7, so that only 8 is handed out |
| KeyElection.AccurateReadsAgree | mobile/scripts/mock-server-key-pair.ts:135-167 | If no locked read failed on a valid file, nothing is overwritten, all returned keys agree and the file was replaced at most once |
| KeyElection.KeyIsStableIff | mobile/scripts/mock-server-key-pair.ts:91-106 | In every run the file, once valid, never changes again if and only if no step is the successful rename, with another key, of a process whose locked read had failed on a valid file |
| KeyElection.OverwriteBreaksAgreement | mobile/scripts/mock-server-key-pair.ts:91-166 | Whenever such a step overwrites a key that some process has returned, the run can go on to hand out a second, different key |
| KeyElection.ValidKeyReplacedIff | mobile/scripts/mock-server-key-pair.ts:91-106 | A step changes a valid key file if and only if it is the successful rename, with another key, of a process whose locked read had failed on it |
| KeyElection.KeyNeverChanges | mobile/scripts/mock-server-key-pair.ts:142-162 | Without such a failed read, a file that holds a key at some point of a run is never replaced afterwards |
| KeyElection.HistoryIsExact | mobile/scripts/mock-server-key-pair.ts:126-153 | The processes counted as having abandoned the lock, or misread the file, are exactly those with such a step in the run |
| KeyElection.AbandonedLockIsFinal | mobile/scripts/mock-server-key-pair.ts:76-88 | Once a lock is abandoned it stays, and no process ever holds the lock again |
| KeyElection.EveryProcessExits | mobile/scripts/mock-server-key-pair.ts:53-106 | The retry loops are bounded: after 114 calls of its own every process has returned, thrown or died, whatever the others do |
| KeyElection.MintUnderLock | mobile/scripts/mock-server-key-pair.ts:108-166 | From any reachable state, a process whose locked read gives no key can publish the key it mints, return it and leave no lock |
| KeyElection.OneMisreadBreaksAgreement | mobile/scripts/mock-server-key-pair.ts:48-50 | A run in which one transient read error makes two processes return different keys |
| KeyOutcomes.OutcomeIff | mobile/scripts/mock-server-key-pair.ts:53-167 | In every run a process that has exited without dying has thrown exactly when the run holds a create refused for another reason than EEXIST, a last read without a key, a failed write or chmod, or a failed rename that is not retryable or is the fifth; and has returned a key exactly when one of its reads found that key or it renamed it into place |
| KeyOutcomes.CallsDecide | mobile/scripts/mock-server-key-pair.ts:135-167 | The same at every moment of every run: what a live process is bound to return or throw is in the calls it has made |
| KeyOutcomes.AttemptsAreCounted | mobile/scripts/mock-server-key-pair.ts:53-106 | A process gives up waiting after exactly 50 creates that found the lock, makes exactly one more, and renames at most five times |
| KeyOutcomes.FewCallsLeft | mobile/scripts/mock-server-key-pair.ts:119-133 | Once a process has failed or found a key it exits after at most three more calls |
| KeyOutcomes.ReadReturns | mobile/scripts/mock-server-key-pair.ts:62-85 | Each of the four reads without the lock that finds a key makes the process return it at once |
| KeyOutcomes.FindUnderLock | mobile/scripts/mock-server-key-pair.ts:152-166 | A process that reads a key under the lock closes and removes the lock and returns that key, leaving the file as it is |
| KeyOutcomes.LateFindIsReturned | mobile/scripts/mock-server-key-pair.ts:142-166 | A run whose first read fails on the valid key 7 and whose later calls succeed returns 7 |
| KeyOutcomes.TempIsLeftIff | mobile/scripts/mock-server-key-pair.ts:108-124 | A process that has returned or thrown has left its temporary file exactly when removing it failed |
| KeyOutcomes.WholeOrder | mobile/scripts/mock-server-key-pair.ts:53-167 | The calls of a process that has returned or thrown, in order: refused creates each with a read, a last look, and under the lock a read, write, chmod, one to five renames and a removal as far as it got, and always the close and the unlink |
| Clipboard.RemainingIsClampedDifference | native/wayland-clipboard/wayland-clipboard.c:232-233 | The 32-bit conversion gives the time left, or 0 when it is past, for every deadline less than 2^31 ms from now |
| Clipboard.HandOverKeeps | native/wayland-clipboard/wayland-clipboard.c:132-144 | A paste request arriving at any moment keeps the invariant, rewrites no history and moves no descriptor that poll has looked at |
| Clipboard.CloseSlotKeeps | native/wayland-clipboard/wayland-clipboard.c:210-213 | Closing an occupied slot for any of its reasons, a just completed or failed write included, leaves its descriptor closed once and the invariant holding |
| Clipboard.WrittenKeeps | native/wayland-clipboard/wayland-clipboard.c:254-259 | A write to a slot that poll reported writable goes to the descriptor poll saw there and appends the next bytes of the text; all but the close of a slot that is complete holds again |
| Clipboard.WriteSlotKeeps | native/wayland-clipboard/wayland-clipboard.c:252-261 | The write and the close it may cause keep the invariant: the slot is closed when the text is complete or the write failed |
| Clipboard.ScanSlot | native/wayland-clipboard/wayland-clipboard.c:245-262 | One slot of the scan, whatever dispatch did to the slots after poll, keeps the invariant and extends the history |
| Clipboard.ScanFrom | native/wayland-clipboard/wayland-clipboard.c:245-262 | The scan of the remaining slots keeps the invariant and extends the history |
| Clipboard.AfterUnread | native/wayland-clipboard/wayland-clipboard.c:217-219 | Dispatching queued events, for any number of rounds, keeps the invariant and extends the history |
| Clipboard.AfterPoll | native/wayland-clipboard/wayland-clipboard.c:244-262 | Dispatch after poll and the scan keep the invariant and extend the history |
| Clipboard.Turned | native/wayland-clipboard/wayland-clipboard.c:216-263 | One iteration of the loop, with any answers from outside, keeps the invariant and extends the history |
| Clipboard.Served | native/wayland-clipboard/wayland-clipboard.c:215-265 | Every run of the loop keeps the invariant and extends the history |
| Clipboard.EveryRunDeliversPrefixes | native/wayland-clipboard/wayland-clipboard.c:132-265 | In every run each descriptor received a prefix of the text, is in exactly one slot, whose offset is the length of that prefix, or closed exactly once, and received the whole of a text that is not empty exactly when it was closed as complete |
| Clipboard.EveryWriteWasPolled | native/wayland-clipboard/wayland-clipboard.c:216-262 | In every run each write went to the descriptor this iteration's poll had seen in that slot and reported writable, and asked for at most 65536 bytes |
| Clipboard.HistoryIsNeverRewritten | native/wayland-clipboard/wayland-clipboard.c:215-265 | What a longer run shows of a descriptor continues what a shorter one showed; a closed descriptor is never touched again |
| ClipboardFates.FateIff | native/wayland-clipboard/wayland-clipboard.c:245-262 | In every run a descriptor is closed as expired exactly when some turn scanned it 2000 ms or more after its hand-over and its last write of a byte, as gone exactly when poll reported it gone before that, as complete exactly when its writes in time moved the whole text, as failed exactly when a write in time was refused; and it has received exactly the bytes those writes moved, at most 65536 each |
| ClipboardFates.RunTells | native/wayland-clipboard/wayland-clipboard.c:215-265 | The same from any state of which it is known |
| ClipboardFates.ServedPasteIsComplete | native/wayland-clipboard/wayland-clipboard.c:132-262 | If every turn after the hand-over finds the slot writable within 2000 ms of the time before and its write moves a byte, the descriptor is closed as complete with the whole text after as many turns as the text has bytes |
| ClipboardFates.HandOverIff | native/wayland-clipboard/wayland-clipboard.c:132-144 | A descriptor goes to the lowest free of the eight slots, with a deadline in 2000 ms, and is closed exactly when all are taken or it cannot be made non-blocking |
| ClipboardFates.LoopEnds | native/wayland-clipboard/wayland-clipboard.c:215-265 | The loop ends in the first turn that stops it or loses the connection, with code 0 for a stop and for a display that fails before poll, and -1 otherwise |
| Clipboard.Server.SourceSend | native/wayland-clipboard/wayland-clipboard.c:132-144 | The descriptor goes to the first free slot, at offset 0 with a new deadline, or is closed when there is none or it would block |
| Clipboard.Server.DispatchPending | native/wayland-clipboard/wayland-clipboard.c:216-244 | All events are handled in order, the loop is asked to stop if one says so, and the result is the library's |
| Clipboard.Server.CloseTransfer | native/wayland-clipboard/wayland-clipboard.c:210-213 | At both of its calls, the slot's descriptor is closed and the slot is free |
| Clipboard.Server.PollTimeout | native/wayland-clipboard/wayland-clipboard.c:227-235 | -1 exactly when no transfer is active, otherwise the least remaining time of an active transfer, never below 0 |
| Clipboard.Server.ScanTransfer | native/wayland-clipboard/wayland-clipboard.c:245-262 | One turn of the scan loop does to the array what the specified slot step does |
| Clipboard.Server.ScanTransfers | native/wayland-clipboard/wayland-clipboard.c:245-262 | The scan loop does to the array what the specified scan does |
| Clipboard.Server.DispatchUnread | native/wayland-clipboard/wayland-clipboard.c:217-219 | The rounds before the read end the loop with code 0 exactly when the display failed or a stop was asked for |
| Clipboard.Server.DispatchAndScan | native/wayland-clipboard/wayland-clipboard.c:244-262 | Dispatch then scan, in that order, with the descriptors poll was given |
| Clipboard.Server.ServeTurn | native/wayland-clipboard/wayland-clipboard.c:216-263 | One iteration of the loop is the specified turn, with its exit code |
| Clipboard.Server.Serve | native/wayland-clipboard/wayland-clipboard.c:215-265 | The loop is the specified run |
| ShellWords.ParseCommandLine | src/cli/orchestration-mutation-recovery.ts:107-158 | The index loop computes the recursive word grammar, with no result for an open quote or a line without words |
| ShellWords.ParseInvertsRender | src/cli/orchestration-mutation-recovery.ts:160-212 | Parsing the POSIX rendering of any non-empty list of strings gives the list back |
| ShellWords.RenderIsInjective | src/cli/orchestration-mutation-recovery.ts:160-212 | Different commands never render alike |
| ShellWords.RenderResolvedOrchestrationCommand | src/cli/orchestration-mutation-recovery.ts:170-181 | Re-rendering a parsed `orca` line changes only its first word; any other line is returned as it is |
| ShellWords.TokenizeLeadingShellWords | src/cli/codex-command-classification.ts:87-123 | The loop with its early exit computes the recursive tokenizer, for every limit |
| ShellWords.TokenizerAgreesWithParser | src/cli/codex-command-classification.ts:87-123 | On a line without escapes that the full parser accepts, the tokenizer returns exactly the first non-empty words of the full parser, up to the limit |
| ShellGrammar.PrintedLineIsParsed | src/cli/orchestration-mutation-recovery.ts:107-158 | Any line printed of words of bare characters, escapes, single-quoted and double-quoted texts, with white space between them, is parsed to the words they stand for |
| ShellGrammar.LineOf | src/cli/orchestration-mutation-recovery.ts:107-158 | Every text is such a line up to a quote that is never closed |
| ShellGrammar.WordsIff | src/cli/orchestration-mutation-recovery.ts:107-158 | For every text: it is parsed to given words if and only if it is a printed line standing for them, and refused if and only if it is blank or leaves a quote open |
| ShellGrammar.EscapedSpaceIsKept | src/cli/orchestration-mutation-recovery.ts:143-145 | The line `a\ b` is the one word `a b` |
| ShellGrammar.RenderedIs | src/cli/orchestration-mutation-recovery.ts:160-212 | Words are rendered with one space between them, bare exactly when they are not empty and of the safe characters, and otherwise in single quotes with each single quote replaced |
| ShellTokens.LineIsTokenized | src/cli/codex-command-classification.ts:87-123 | Of any line printed of words of ordinary characters and quoted texts, the last of which may stay open, the tokenizer returns the first non-empty words up to the limit |
| ShellTokens.EveryTextIsTokenized | src/cli/codex-command-classification.ts:87-123 | Every text is such a line |
| OptionKeys.BalancedArguments | config/scripts/call-site-option-keys.ts:49-102 | The loop over index, depth and state returns the text up to the bracket that brings the depth to zero, or nothing |
| OptionKeys.ObjectLiteralKeys | config/scripts/call-site-option-keys.ts:105-179 | The second loop pushes exactly the keys of the recursive reading |
| OptionKeys.CheckKeys | config/scripts/call-site-option-keys.ts:199-203 | Keys are returned exactly when all are of ASCII letters, digits, `_` and `$` with no digit first; otherwise the error names the first that is not |
| OptionKeys.ReadCallOptionKeys | config/scripts/call-site-option-keys.ts:186-204 | The slice, the braces and the key check in turn, with the error of the first that fails |
| OptionTokens.ClosingRun | config/scripts/call-site-option-keys.ts:49-102 | Inside a bracket the first scanner passes over any well-formed tokens and is back in code at the same depth behind them |
| OptionTokens.SliceIffTokens | config/scripts/call-site-option-keys.ts:49-102 | On any text at an open bracket, the first scanner returns a slice if and only if well-formed, balanced tokens and a closing bracket follow, and the slice is those tokens |
| OptionTokens.ChainOf | config/scripts/call-site-option-keys.ts:49-102 | Whatever the first scanner accepts is made of tokens, with every bracket matched where it stops |
| OptionTokens.KeysRun | config/scripts/call-site-option-keys.ts:105-179 | The second scanner passes over nested values, strings and comments, collecting only the code of a key |
| OptionTokens.CallKeys | config/scripts/call-site-option-keys.ts:186-204 | For any printed object literal as the argument, empty or with a trailing comma too, both scanners together read the trimmed code of each key, in order |
| OptionTokens.ReadInvertsPrint | config/scripts/call-site-option-keys.ts:186-204 | A printed literal with bare or shorthand keys and arbitrary nested values, strings, comments and an optional trailing comma is read back as exactly its keys in order |
| OptionTokens.KeyLostIff | config/scripts/call-site-option-keys.ts:105-204 | A printed literal is read exactly when each key is an identifier or quoted, and then fewer keys than entries are returned exactly when some key is quoted |
| OptionTokens.QuotedKeyIsLost | config/scripts/call-site-option-keys.ts:121-140 | The key of `({'a':1})` is dropped and an empty key list returned |
| OptionNames.NamesAreRead | config/scripts/call-site-option-keys.ts:186-204 | A printed literal is read exactly when every entry is quoted or its key is of ASCII letters, digits, `_` and `$` with no digit first; otherwise the error names the first key that is not |
| OptionNames.OneKeyIsRead | config/scripts/call-site-option-keys.ts:199-203 | For any one key and value the key is returned if it is such a name, and refused with its text otherwise |
| OptionNames.DigitsInKeys | config/scripts/call-site-option-keys.ts:199 | `({max_2:1})` is read as `max_2`, and `({2max:1})` is refused |
| OptionNames.ErrorsIff | config/scripts/call-site-option-keys.ts:187-198 | For every text, when each of the other three errors is given |
| OptionTexts.SlotsAre | config/scripts/call-site-option-keys.ts:105-179 | Any well-formed tokens, from whatever text, are the body of an object literal: entries between the top-level commas, each cut at its first colon |
| OptionTexts.GuardAcceptsIff | config/scripts/call-site-option-keys.ts:186-197 | Of the argument lists that are sliced, the brace test accepts exactly those that are one literal and those that start and end with a brace while the first closes before the last |
| OptionTexts.ReadIff | config/scripts/call-site-option-keys.ts:186-204 | For every argument list that is sliced, keys are returned exactly for one literal whose entries show identifiers or nothing, and for a longer list in which whatever is read is an identifier |
| OptionTexts.UnreportedIff | config/scripts/call-site-option-keys.ts:4-8 | For every such text, keys are returned for something not fully read if and only if it is such a longer list, or one literal with an entry that shows no key while all others show identifiers |
| OptionTexts.TwoArgumentsAreMixed | config/scripts/call-site-option-keys.ts:194-197 | The two objects of `({a:1},{b:2,c:3})` are read as one with the keys `a` and `c` |
| OptionTexts.RegularExpressionHidesKey | config/scripts/call-site-option-keys.ts:121-140 | The quotes of two regular expressions hide the second key of `({a:/'/,b:/'/})` |
| SnapshotLookup.WalkedRecordsOk | native/computer-use-linux/runtime.py:402-442 | Through elision, truncation and compaction at every level, every record keeps a path that leads from the application to the node it was made of |
| SnapshotLookup.EveryRecordIsFound | native/computer-use-linux/runtime.py:731-771 | On the unchanged tree, `find_element` returns for every record of a snapshot the very node it describes |
| SnapshotLookup.FoundIff | native/computer-use-linux/runtime.py:754-771 | On any tree a record gives a node exactly when its path leads there and the node has its role, name, automation id and actions |
| SnapshotLookup.LookupIs | native/computer-use-linux/runtime.py:731-737 | A child is looked up by its index; were one to repeat, the last |
| SnapshotLimits.BoundedWalk | native/computer-use-linux/runtime.py:402-445 | Without compaction the snapshot is exactly the first 1200 entries of the depth-limited pre-order rendering, record k and line k made of entry k with index k; `truncated` is set exactly when a visit is too deep or comes after 1200 records |
| SnapshotLimits.DepthMark | native/computer-use-linux/runtime.py:403-407 | Without tab compaction, `maxDepthReached` implies `truncated` and a node beyond depth 64; below the node limit it is set exactly when there is one |
| SnapshotLimits.NotTruncatedIsComplete | native/computer-use-linux/runtime.py:403-407 | A snapshot without tab compaction that is not marked truncated is the whole unbounded rendering |
| SnapshotMarks.VisitsAreShallow | native/computer-use-linux/runtime.py:402-442 | The walk's entries are exactly the entries of the unbounded rendering that are not deeper than 64, in order |
| SnapshotMarks.ShowsAllIff | native/computer-use-linux/runtime.py:402-445 | Without tab compaction, a snapshot shows the whole rendering if and only if that has at most 1200 entries, none deeper than 64 |
| SnapshotMarks.TruncatedIff | native/computer-use-linux/runtime.py:402-421 | For every tree, without tab compaction, the mark is set if and only if something is not shown, or a node below depth 64 is looked at, or 1200 nodes are shown and the last node looked at is a wrapper |
| SnapshotMarks.DeepWrapperIsMarked | native/computer-use-linux/runtime.py:402-421 | Without tab compaction 65 nested frames are all shown, and the empty panel below them marks the snapshot |
| SnapshotMarks.LateWrapperIsMarked | native/computer-use-linux/runtime.py:402-421 | Without tab compaction a frame with 1199 labels is all shown, and the empty panel behind them marks the snapshot |
| SnapshotNodes.NodeIsVisited | native/computer-use-linux/runtime.py:397-442 | Within the limits a node gets no record and line exactly when its role is one of the four wrapper roles, it has no name, automation id, value or summary, only generic actions, and at most one child; its children are visited exactly when it has no summary line and is no control with a text |
| SnapshotNodes.NothingIsVisited | native/computer-use-linux/runtime.py:403-407 | Beyond the limits nothing is shown, and the marks are set |
| SnapshotNodes.RecordsAreListed | native/computer-use-linux/runtime.py:402-445 | Without tab compaction, the records and lines are those of the nodes so described, no deeper than 64, up to the 1200th |
| SnapshotNodes.WrapperOfOneIsLeftOut | native/computer-use-linux/runtime.py:397-421 | A nameless panel around one node has no record |
| SnapshotNodes.WrapperOfTwoIsShown | native/computer-use-linux/runtime.py:397-421 | A nameless panel around two nodes has one |
| TabCompaction.CompactionKeepsLines | native/computer-use-linux/runtime.py:448-479 | Compaction changes nothing, or puts one marker with the right count at the first tab's place and keeps, in order, exactly the lines that are not inactive tabs |
| TabCompaction.CompactionRemovesRecords | native/computer-use-linux/runtime.py:465-478 | Exactly the records go whose index an omitted line shows |
| TabShapes.TabLineIff | native/computer-use-linux/runtime.py:482-489 | A line is a tab of a depth exactly when it is that many tabs, a number, a blank, one of the roles `page tab`, `tab item` and `tab` in any case, and the end of that word |
| TabShapes.ActiveLineIff | native/computer-use-linux/runtime.py:492-499 | A tab is active exactly when its line says it is selected, or the last record with its number is selected or has the value 1 |
| TabShapes.CompactsIff | native/computer-use-linux/runtime.py:449-477 | A row is compacted exactly when it has at least ten tabs, an active one and an inactive one |
| TabShapes.ShownIndexIs | native/computer-use-linux/runtime.py:521-524 | The number read back is that of the digits behind the indentation |
| TabShapes.MarkerIsNoTab | native/computer-use-linux/runtime.py:479 | The marker is no tab line and shows no number |
| TabCompaction.AlignedCompaction | native/computer-use-linux/runtime.py:448-479 | With a line per record and distinct indexes, record k goes exactly when line k is an inactive tab |
| TabCompaction.WalkedIsNumbered | native/computer-use-linux/runtime.py:402-442 | Until something is compacted the walk keeps lines and records in step, each record with its position as index and its line showing it |
| CompactedWalk.FirstCompaction | native/computer-use-linux/runtime.py:402-479 | In the rendering of any tree, the first compaction that changes something finds a line for each record and removes exactly the records of the lines it omits; if there is none, the rendering is that without compaction |
| CompactedWalk.LineLosesRecordIff | native/computer-use-linux/runtime.py:465-478 | At any compaction, first or not, a line that showed a record loses it exactly when an omitted line shows the same index |
| CompactedWalk.UnmarkedHasShownAll | native/computer-use-linux/runtime.py:402-445 | With compaction or without, a snapshot not marked truncated has visited and shown every entry of the whole unbounded rendering, whatever was compacted afterwards, and is not marked for depth either |
| TwoTabLists.RowCompacts | native/computer-use-linux/runtime.py:448-479 | Any row of ten tabs or more with the last one active is compacted, to a marker, the active tab's line and its record |
| TwoTabLists.KeptTabLosesRecord | native/computer-use-linux/runtime.py:408-478 | In a window with two such rows of equal length, the first row's active tab keeps its line and loses its record to the second compaction |
| TabCompaction.LineShowsIndex | native/computer-use-linux/runtime.py:424-439 | The index read back from a rendered line is the record's, at any depth |
| SnapshotBuilder.Builder.FindTabs | native/computer-use-linux/runtime.py:449-453 | The positions of all tab lines from the start line on, in order |
| SnapshotBuilder.Builder.DeleteInactiveTabs | native/computer-use-linux/runtime.py:465-475 | Deleting in reverse order leaves the other lines in order, and counts and indexes exactly the deleted ones |
| SnapshotBuilder.Builder.CompactRenderedBrowserTabs | native/computer-use-linux/runtime.py:448-479 | The in-place edit of both lists is the specified compaction |
| SnapshotBuilder.Builder.Walk | native/computer-use-linux/runtime.py:402-442 | The recursive walk on the shared lists is the specified walk, and shows the entries it is said to show |
| SnapshotBuilder.Builder.WalkChildren | native/computer-use-linux/runtime.py:418-442 | The loop over the children visits them in order on the shared lists, and shows their entries |
| SnapshotBuilder.RenderAccessibilityTree | native/computer-use-linux/runtime.py:349-445 | The snapshot is the specified rendering from empty lists; if it is not marked truncated, the entries shown on the way are all those of the unbounded rendering |
| SnapshotLookup.FindByPathLoop | native/computer-use-linux/runtime.py:731-737 | The loop follows the path child by child, or finds nothing |
| Args.PrintInvertsItems | src/cli/args.ts:70-105 | Every token of any command line is read exactly once: the items print back as the argv |
| Args.ItemsInvertPrint | src/cli/args.ts:70-105 | Words and flags in any order and spelling are read back from any position if they are unambiguous |
| Args.RoundTripIffUnambiguous | src/cli/args.ts:70-105 | Exactly the unambiguous item lists survive printing and parsing |
| Args.BareFlagTakesWord | src/cli/args.ts:93-104 | A bare flag in front of a word is read as a flag with that word as its value |
| Args.FoldIsPerFlag | src/cli/args.ts:27-39 | Every flag ends with the fold of its own values alone: all texts since it last stood alone if repeatable, otherwise the last value |
| Args.RepeatedFlagIsRecovered | src/cli/flags.ts:26-77 | For NUL-free texts a repeatable flag gives back the non-empty texts since it last stood alone, in order, and is refused when it stands alone last |
| Args.AllTextsAreRecoveredIff | src/cli/flags.ts:26-77 | It gives back all non-empty texts it was given if and only if it does not stand alone last and no such text comes before a place where it stands alone |
| Args.TextBeforeBareIsLost | src/cli/args.ts:27-39 | A text, a bare flag and a second text give back only the second |
| Args.LongestMatchIsLongest | src/cli/args.ts:42-59 | The length found for a specification is that of its longest path the command starts with |
| Args.BestSpecIsMostSpecific | src/cli/args.ts:42-59 | No specification has a longer matching path than the chosen one, and no earlier one has one as long |
| Args.RepeatableIff | src/cli/args.ts:107-110 | Repeatable are `label`, `skill` and what the first specification with the longest path the command starts with declares |
| Args.SpecForPathPrefix | src/cli/args.ts:42-59 | The two nested loops find that specification |
| Args.ReadTokens | src/cli/args.ts:70-105 | The token loop collects exactly the words and flag entries, in order |
| Args.ParseArgs | src/cli/args.ts:61-120 | The result is the words and the fold of the entries, with the repeatability of the most specific specification |
| Args.ParseInvertsPrint | src/cli/args.ts:61-120 | Parsing a printed unambiguous command gives the same words and the fold of its entries under their specification |
| Args.CommandIsReadBack | src/cli/args.ts:61-120 | Any words without `--`, followed by any flags as `--name=value` or `--name`, are read back as those words and the fold of those flags, whatever the boolean flags and the start of the command |
| EntryGuard.CollectedIsReachable | config/build-plugins/plain-node-entry-guard.ts:102-125 | The worklist finds each chunk the entry reaches over static and dynamic imports, through cycles too, exactly once and nothing else |
| EntryGuard.CollectReachableChunks | config/build-plugins/plain-node-entry-guard.ts:102-125 | The loop with its stack and seen set terminates and returns that list |
| EntryGuard.Guard.AssertNoElectronRequire | config/build-plugins/plain-node-entry-guard.ts:127-149 | With any cache of clean code from earlier entries, even if chunks have changed since, the scan reports exactly the violation the uncached scan reports, or none |
| EntryGuard.Guard.CheckEntries | config/build-plugins/plain-node-entry-guard.ts:325-349 | Over the guarded entries the shared cache changes neither whether the guard throws nor the first entry and file it names |
| EntryGuard.EntryByNameIs | config/build-plugins/plain-node-entry-guard.ts:317-322 | The index of entries holds for a name the last entry chunk of that name, if the name is not empty |
| EntryGuard.ByFileNameIs | config/build-plugins/plain-node-entry-guard.ts:316 | The index of files holds for a file name the last chunk with it |
| EntryGuard.WriteBundle | config/build-plugins/plain-node-entry-guard.ts:307-349 | Both indexes and both loops together report what the uncached scan of the build reports first |
| EntryGuard.FirstBadIff | config/build-plugins/plain-node-entry-guard.ts:134-146 | The scan of one entry reports a file exactly when one of the chunks requires electron, and the file it reports does |
| EntryGuard.EntryPassesIff | config/build-plugins/plain-node-entry-guard.ts:127-149 | An entry passes exactly when no chunk it reaches requires electron |
| EntryGuard.PassesIffNoneReached | config/build-plugins/plain-node-entry-guard.ts:325-349 | The loops pass exactly when no guarded entry in the index reaches a chunk that requires electron |
| EntryGuard.BuildPassesIff | config/build-plugins/plain-node-entry-guard.ts:307-349 | A build passes exactly when no chunk that is the entry of a guarded name reaches a chunk that requires electron |
| EntryGuard.ViolationIs | config/build-plugins/plain-node-entry-guard.ts:127-149 | The violation is that of the first guarded entry that reaches an offender, names a chunk it reaches, and tells its runtime |
| EntryGuard.BuildViolationIs | config/build-plugins/plain-node-entry-guard.ts:325-349 | In a build it is of the first name that is not clean, the names of plain Node entries before those of worker threads |
| EditDistance.Levenshtein | src/shared/edit-distance.ts:1-23 | The two rows of the table give the recursive edit distance |
| EditDistance.FillRow | src/shared/edit-distance.ts:12-18 | Each pass fills the row for one more character from the row before |
| EditDistance.LengthBounds | src/shared/edit-distance.ts:1-23 | The distance is at least the difference of the lengths and at most the longer length |
| EditDistance.DistanceIsLeastEdits | src/shared/edit-distance.ts:1-23 | `n` insertions, deletions and replacements of one character lead from one string to the other exactly when the distance is at most `n` |
| Suggest.ComponentsGrow | src/cli/command-suggestion.ts:19-32 | One more destructive command joins the components of its verbs and changes no other |
| Suggest.JoinedComponents | src/cli/command-suggestion.ts:25-29 | Setting the joined family for each of its verbs keeps the map right for one more command |
| Suggest.JoinFamilies | src/cli/command-suggestion.ts:26-27 | The joined family is the union of the families of the command's verbs |
| Suggest.AssignFamily | src/cli/command-suggestion.ts:28-29 | Every verb of the family is mapped to it and no other entry changes |
| Suggest.DestructiveVerbFamilies | src/cli/command-suggestion.ts:19-32 | The families are exactly the connected components of the graph linking the final verbs of each destructive command |
| Suggest.CheckIntent | src/cli/command-suggestion.ts:34-44 | The length test before the distance changes nothing: intent means a verb of the family within distance 1 |
| Suggest.SortSorts | src/cli/command-suggestion.ts:52-58 | The ranking is sorted by distance, then by label, and is a permutation |
| Suggest.ScoreLabels | src/cli/command-suggestion.ts:79-91 | The inner loop scores each label not seen before, once |
| Suggest.SuggestCommands | src/cli/command-suggestion.ts:61-94 | The loops compute the specified suggestions, with families that are the components |
| Suggest.LengthFilterLosesNothing | src/cli/command-suggestion.ts:88-90 | Leaving out labels by their length changes no suggestion |
| Suggest.OffersIff | src/cli/command-suggestion.ts:74-86 | A command offers the first words of its paths to a single typed word, and otherwise its paths of as many words as were typed |
| Suggest.VerbsIff | src/cli/command-suggestion.ts:14-25 | The verbs of a command are the last words of its path and aliases |
| Suggest.SuggestionsAreBest | src/cli/command-suggestion.ts:52-94 | Each suggestion is offered by a visible command, from a destructive one only if the typed verb is within distance 1 of its component; at most three are given, and a candidate left out comes after all three |
| Suggest.SuggestionsAscend | src/cli/command-suggestion.ts:52-94 | The suggestions are all different and in order of distance, then of name |
| Paging.ReadShrinkingPage | src/cli/automation-runs-paging.ts:30-45 | The page read with the first halved limit the server does not refuse as too large, or the server's other error |
| Paging.ReadAllAutomationRuns | src/cli/automation-runs-paging.ts:59-80 | The loop over cursor, limit and seen cursors is the specified reader after the same number of pages |
| Paging.LimitOnlyShrinks | src/cli/automation-runs-paging.ts:30-71 | From any state the limit never grows, and every halving uses up one of those it has left |
| Paging.AtMostFourHalvings | src/cli/automation-runs-paging.ts:30-71 | In the whole read the page size stays at most 25 and is halved at most four times |
| Paging.PageIs | src/cli/automation-runs-paging.ts:30-45 | The calls of one page: refusals as too large, each with half the limit while it is more than 1, and then the page or the error thrown |
| Paging.ReadIsChain | src/cli/automation-runs-paging.ts:59-80 | Against any server, honest or not, the read follows every cursor from 25 runs a page up to the first page that fails, has no cursor or repeats one, and throws its error or returns the runs of all pages |
| Paging.ReadsHistoryExactly | src/cli/automation-runs-paging.ts:59-80 | Against a server that pages a fixed history, may send empty pages and may refuse pages as too large, the read throws or returns the history exactly, in order and without duplicates |
| Paging.ReadSucceeds | src/cli/automation-runs-paging.ts:59-80 | If the server also never fails otherwise, a read that stops has returned the whole history, and it stops after at most one page more than there are runs if only the last page may be empty |
| Paging.StopsOnFiniteCursors | src/cli/automation-runs-paging.ts:64-78 | Against any server with finitely many cursors the read stops after at most one page more than it has cursors |
| Paging.ReadReturnsHistory | src/cli/automation-runs-paging.ts:59-80 | Such a server that pages a fixed history and never fails gets its whole history returned |
| Accounts.RunIsValid | mobile/scripts/mock-server-account-state.ts:53-193 | In every run of selections and redemptions, credits left plus resets recorded is 1 for each account, and operations and offer owners are inverse to each other, for any scope builder |
| Accounts.RedeemKeepsCredits | mobile/scripts/mock-server-account-state.ts:184-191 | A redemption moves a credit into exactly one recorded reset, or moves none |
| Accounts.RedeemKeepsBijection | mobile/scripts/mock-server-account-state.ts:177-186 | A redemption keeps operations and offer owners inverse to each other |
| Accounts.RedeemsIff | mobile/scripts/mock-server-account-state.ts:139-193 | The state changes exactly when a UUID not used before names the current offer and nobody owns that offer |
| Accounts.ReplayChangesNothing | mobile/scripts/mock-server-account-state.ts:157-166 | A recorded key with its scope returns the recorded outcome, with another scope an error, and changes nothing |
| Accounts.RetryIsIdempotent | mobile/scripts/mock-server-account-state.ts:139-193 | Retrying a redemption at any later time of a run gives the answer it got and changes nothing |
| AccountAnswers.AnswerIff | mobile/scripts/mock-server-account-state.ts:139-193 | In every reachable state, exactly when each of the errors, the changed offer and a redemption with each outcome is answered |
| AccountAnswers.RedemptionEffect | mobile/scripts/mock-server-account-state.ts:177-192 | A redemption records its key and offer, takes the credit and the session usage of the offer's account if there is a credit, and changes nothing else |
| AccountAnswers.SelectionIff | mobile/scripts/mock-server-account-state.ts:67-90 | Which accounts can be selected, and that selecting changes nothing else |
| AccountAnswers.ScopeIs | mobile/scripts/mock-server-account-state.ts:92-137 | The offer is built of the selected account and its usage, or of no account and no usage |
| AccountAnswers.FreshIs | mobile/scripts/mock-server-account-state.ts:33-63 | The accounts, credits, percentages and times after a reset |
| AccountAnswers.UuidIff | mobile/scripts/mock-server-account-state.ts:13 | A key is accepted exactly when it is five groups of hexadecimal digits of the right lengths, version and variant |
| Accounts.AccountState.ConsumeMockCodexResetCredit | mobile/scripts/mock-server-account-state.ts:139-193 | The method's new state and answer are the specified ones on every branch, and the invariant is kept |
| Accounts.AccountState.SelectMockClaudeAccount | mobile/scripts/mock-server-account-state.ts:67-76 | Selects a known account or none, and refuses any other argument without a change |
| Accounts.AccountState.SelectMockCodexAccount | mobile/scripts/mock-server-account-state.ts:78-90 | Selects a known account or none, and refuses any other argument without a change |
| Accounts.AccountState.GetMockCodexResetScope | mobile/scripts/mock-server-account-state.ts:130-137 | The scope built of the selected account and its limits; nothing is changed |
| Accounts.AccountState.ResetMockAccountState | mobile/scripts/mock-server-account-state.ts:53-63 | Every variable and map is as at the start |
| Accounts.AccountState.constructor | mobile/scripts/mock-server-account-state.ts:53-63 | The state after loading the module is the reset state |
| Streams.TickKeeps | mobile/scripts/mock-server-terminal-stream.ts:96-112 | A tick of any interval, current or superseded, keeps what the invariant says of every stream |
| Streams.SubscribeKeeps | mobile/scripts/mock-server-terminal-stream.ts:70-113 | A subscription stops the stream it supersedes and keeps the facts of all others |
| Streams.RunIsValid | mobile/scripts/mock-server-terminal-stream.ts:14-113 | The invariant holds in every run of subscribing, unsubscribing, ticks, delayed replies and closing |
| Streams.AtMostOneArmed | mobile/scripts/mock-server-terminal-stream.ts:14-44 | In every run at most one interval is armed per socket and terminal, and it is that of the stream they hold |
| Streams.ChunksArriveInOrder | mobile/scripts/mock-server-terminal-stream.ts:74-111 | In every run a request's client has received a prefix of the scrollback and then the chunks in order, none skipped or repeated; a current request with nothing queued has received all that was sent |
| Streams.SupersededIsSilent | mobile/scripts/mock-server-rpc-handlers.ts:112-124 | After a request is superseded, unsubscribed or its socket closed, nothing more is delivered for it, whatever was queued and whatever follows |
| Streams.SilentStep | mobile/scripts/mock-server-terminal-stream.ts:35-37 | A stream that is not current never becomes current again and receives nothing |
| StreamLives.StreamIsItsLife | mobile/scripts/mock-server-terminal-stream.ts:14-113 | From the events alone: a subscription is current until it is superseded, unsubscribed or its socket closed, has sent one chunk for each tick until then as long as there are chunks, stays armed until the tick after the last, and without delay its client has received exactly that |
| StreamLives.DeliverSends | mobile/scripts/mock-server-rpc-handlers.ts:113-120 | A delivery takes the oldest reply from the queue and appends it to what its client has received exactly if its stream is current |
| StreamLives.AllIsDelivered | mobile/scripts/mock-server-rpc-handlers.ts:112-124 | After as many deliveries as there are queued replies the queue is empty and every current stream's client has all of its own, in order |
| StreamLives.DelayedArrives | mobile/scripts/mock-server-terminal-stream.ts:74-111 | So with delay too a current stream's client ends up with all that its ticks have sent |
| Streams.TerminalStreams.ClearTerminalStream | mobile/scripts/mock-server-terminal-stream.ts:14-21 | The held stream is stopped and its terminal freed; otherwise nothing changes |
| Streams.TerminalStreams.BeginTerminalStream | mobile/scripts/mock-server-terminal-stream.ts:23-33 | The old stream is stopped and a new one takes its place |
| Streams.TerminalStreams.StopTerminalStreamInterval | mobile/scripts/mock-server-terminal-stream.ts:39-44 | Only this stream's interval is disarmed |
| Streams.TerminalStreams.SendIfCurrent | mobile/scripts/mock-server-rpc-handlers.ts:113-117 | The message is sent exactly when its stream is current at that moment |
| Streams.TerminalStreams.RespondWith | mobile/scripts/mock-server-rpc-handlers.ts:112-124 | Queued when replies are delayed, otherwise delivered at once |
| Streams.TerminalStreams.SubscribeTerminal | mobile/scripts/mock-server-terminal-stream.ts:70-113 | The new state is that of the specified subscription |
| Streams.TerminalStreams.TickInterval | mobile/scripts/mock-server-terminal-stream.ts:96-112 | The new state is that of the specified tick, on all three branches |
| Streams.TerminalStreams.DeliverNext | mobile/scripts/mock-server-rpc-handlers.ts:113-120 | The oldest queued reply is taken and sent if its stream is still current |
| DueDate.DueDateIff | src/cli/linear-request-builders.ts:85-100 | The flag is accepted, unchanged, exactly when it is the four, two and two digits of a day of the Gregorian calendar from the year 100 on |
| DueDate.DueDateErrors | src/cli/linear-request-builders.ts:85-100 | Exactly when each of the four refusals, for a bare flag, a missing one, a wrong shape and a day that does not exist, is given |
| DueDate.ReadsBackIff | src/cli/linear-request-builders.ts:90-98 | The parts read back from `Date.UTC` are those given exactly when the day exists and the year is not taken for one of the 1900s |
| DueDate.MakeDayStartsMonth | src/cli/linear-request-builders.ts:91 | The first day of any month, carried over into other years if need be, has that year and month and date 1 |
| DueDate.FirstCenturyIsRefused | src/cli/linear-request-builders.ts:91-98 | The last day of the year 99 exists and is refused |

## Left out

- KeyElection: a server started without a key file mints a key of its own and shares nothing; the base64 text of a key, file permissions, the temporary file's name and the length of the waits are not modelled.  Nobody outside the processes touches the files, and a read that succeeds returns the file's current content.
- Clipboard: `read_text`, the Wayland set-up and its offers are not modelled.  The kernel gives out no descriptor number that is open already, `poll` reports nothing for a descriptor of -1, and a write moves at most the bytes it was given.
- ShellWords: quoting for Windows `cmd` and PowerShell; the encoders are not part of this model.  What the classifier does with the words is left out.
- OptionKeys: regular expressions, and `${` in templates, have no tokens of their own: they are read as the code scans them, as characters, strings and brackets, and what a real parser would make of them is not modelled.  Finding the call sites is left out.
- SnapshotLimits.BoundedWalk: states nothing about walks with tab compaction, because compaction shortens the list of records that numbers them, so that later records repeat an index; for those `UnmarkedHasShownAll`, `FirstCompaction` and `LineLosesRecordIff` hold.
- Snapshot: names, values and the summaries of text subtrees are given as fields of a node; a tree is finite, so that elision on a cyclic graph, which need not end, is left out; the lower-casing of roles and the line's digits are those of ASCII, and white space around values and actions is that of ECMA-262, which differs from Python's in U+001C to U+001F, U+0085 and U+FEFF.
- Snapshot: a record's frame, class name and window handle, which no lookup reads, and the listing of all nodes are left out.
- TabCompaction.AlignedCompaction: says nothing about a compaction after another one, when a marker line without a record stands between the lines and indexes may repeat; `FirstCompaction` shows that it covers the first of every walk, and `LineLosesRecordIff` covers any.
- Args: `findCliCommandIndex` is not part of this model and is a parameter; so is the set of flags that take no value.  Command lookup, help and vocabulary checks would add only easy members.
- EntryGuard: the build's chunks and the two lists of guarded names are given; the pattern for a require of electron is any predicate on a chunk's code.  The check of mirrored packages and the smoke load are left out.
- Suggest: `localeCompare` is any total order on labels.  The wording of the answer is left out.
- EditDistance: strings are sequences of code units on both sides; nothing depends on what they are.
- Paging: the loop is watched for a given number of pages, since it need not end for a server that invents new cursors; the server's replies depend on the request and the number of calls before it.
- Accounts: the scope builder is any function of the selected account and its limits; a scope is compared by its JSON text, as in the source.  The snapshot sent to clients would add only easy members.
- Streams: streams are numbered in the order of their subscriptions instead of being objects on the heap; all replies have the same delay and fire in the order they were queued.  The text of the messages and the other terminal methods are left out.
- DueDate: the other flag getters and the wording of the errors would add only easy members.
- React Native screens, formatters, route tables, build configuration and benchmark drivers: no deep invariant.
