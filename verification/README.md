# A verified model of Substrat's review and build core

Substrat's control plane reads uploaded source archives and has a model review the change; its builder
queues builds, records turns and moves files between a container and an agent; its dashboard counts
business moves, settles consents and bounds what a tool may answer. This project models the algorithms
and protocols underneath in Dafny and proves what they promise, for every input and every run.

`dafny verify dfyconfig.toml` checks everything. Nothing here executes the original program.

| files | component |
|---|---|
| `EditGraph`, `EditScript`, `LineDiff` | the line diff: furthest-reaching search, trace, walk back |
| `ArchivePaths`, `Ustar`, `ArchiveSpec`, `ArchiveWalk`, `ArchiveCuts` | the archive walker: path rules, header parsing, the walk as a function of bytes, the streaming walk, when the cuts matter |
| `ArchiveFields`, `ArchiveFormat`, `ArchiveSound` | the format said without the parser, that exactly its archives are accepted, and what acceptance means |
| `UstarImage`, `ArchiveRoundTrip`, `CliArchive` | header blocks as written, the round trip, the CLI's upload |
| `BuildQueue` | the per-vertical build queue as interleaved run-to-completion steps, with time |
| `Lifecycle`, `LifecycleOrder`, `BusinessVolumes`, `BusinessCounts` | which operations count exactly; when declaration order matters; the grid and the day counts; the day counts as moves |
| `ReviewJob`, `ReviewDiff`, `ReviewReader`, `ReviewPipeline` | the alarm-driven job cut at its awaits, the three-pass diff, the assembler, and the review end to end |
| `Json`, `ToolOutput` | serialised size, halving, previews |
| `TurnRecord` | the turn's event stream and its batches |
| `Consent` | racing callbacks over one single-use link |
| `SandboxFile`, `Release` | chunked transfers |
| `ProjectPath`, `Lanes` | path resolution, write guards, report routing |
| `Text`, `Utf8Text`, `Sorting`, `Wrappers` | splitting and joining, UTF-8, sorting under a comparison, an optional value |

Conventions. Integers are unbounded; instants are milliseconds. Archive paths and release text are their
UTF-8 bytes (a fatal decoder accepts exactly the valid sequences, and is injective on them). Unicode folding, hashing,
text decoding of file contents, `trim`, redaction and `localeCompare` are arbitrary functions passed in; where a fact about
one is needed it is a named hypothesis (`KeepsApp`, `Injective`, `Decodes`, `Collates`). `blocked()`, the model, the object
store, timers and the network are whatever an event says they answered. State machines are given twice: as a transition
function, about which the run theorems are proved, and as a class whose methods are shown to take exactly those transitions.

Results that differ from what the documentation says or a reader would assume, each with its exact condition:

- `underProject` judges every relative path rightly for a directory that ends in a name, and for no other: with the
  repository root as project it refuses everything below it, and with a directory that only climbs it answers paths
  that climb further (`ProjectPath.JudgesExactly`).
- A release comes back exactly unless a text field begins with a byte order mark, which the decoder drops, or a file's
  filename is not its part's name, which it comes back under (`Release.RoundTripExactly`).
- `writeSandboxFile` ends for every content with a chunk of two or more, and with a chunk of one exactly when no high
  surrogate stands before the last unit (`SandboxFile.EndsExactly`); `WriteSandboxFile` asks for no more than that.
- A lifecycle row holds one state's operations unless a terminal state's name spells another state's row key, that is
  contains U+001F (`Lifecycle.RowsRightExactly`, with `Lifecycle.ClashHappens`); and the rows are the same however the
  states and edges are reordered under exactly the same condition (`LifecycleOrder.OrderFreeExactly`, with
  `LifecycleOrder.OrderShows`).
- Kept review findings name the files their lines are in exactly when no sent path with a quotable line holds a control
  character; archives allow C1 ones and the record strips them, so a finding can come back naming another file
  (`ReviewReader.NamesFileExactly`, `ReviewReader.WrongFileNamed`).
- The API lane refuses a path whose normal form begins with a backslash though a build without lanes may write it, since
  it judges the normal form again (`Lanes.MayWriteExactly`).
- An alarm forgets an open review with no record exactly when it finds the bucket unbound (`ReviewJob.ForgetsExactly`).
- A review pruned while its alarm is in flight can be left a record that nothing will sweep, exactly when the alarm
  goes on without reading the receipt again, and can cost one more model call, exactly when it is between that read and the call
  (`ReviewJob.SweepExactly`, `ReviewJob.RecordLeftBehind`). So the bound of three calls plus the lost alarms is passed, by
  one, only where the sweep took a stored result from between an alarm's two reads (`ReviewJob.JobRuns`,
  `ReviewJob.FourthCall`).
- A start that dies between storing the job and setting its alarm leaves a job that no alarm and no later start will
  ever run; in every other case an idle job has its alarm (`ReviewJob.JobRuns`, `ReviewJob.StrandedForGood`).
- The CLI uploads a tree in which a file folds onto another's directory, which intake refuses; it accepts every other
  upload, and visits exactly its files (`CliArchive.UploadAccepted`, `CliArchive.CaseClashUploads`).
- Some run of the build queue comes to an instant that need never end, a blocked build looking again and again, exactly
  when the poll takes no time and the wait does (`BuildQueue.SpinsExactly`).
- What an archive's walk visits depends on its bytes alone exactly when they are within the expanded limit or the bytes
  up to it show no file (`ArchiveCuts.VisitsExactly`); the refusal does too exactly when, besides, those bytes are refused
  for nothing but their end (`ArchiveCuts.AnswersExactly`). `ArchiveCuts.PaddedPastLimit` is the failing family.

## Model

| member | source | states |
|---|---|---|
| `LineDiff.Changes` | apps/control-plane/src/review-lines.ts:18-59 | null exactly when every insert/delete script between the two texts' lines costs more than `maxEdits`; otherwise the changed lines are those a least-cost script inserts and `removedAfter` is, ascending and without repeats, where that script deletes |
| `LineDiff.UnmarkedIsLongest` | apps/control-plane/src/review-lines.ts:10-14 | the unmarked new lines are a common subsequence of old and new, no common subsequence is longer, and the changed lines number the new lines less its length |
| `EditGraph.FurthestExact` | apps/control-plane/src/review-lines.ts:29-38 | Myers' invariant on all points, inside the grid or not: on a diagonal, the points within `d` edits are exactly those up to the round's furthest point |
| `EditGraph.Overshoot` | apps/control-plane/src/review-lines.ts:34-36 | a point at or past both ends costs the corner's distance plus the overshoot, so the first hit of `x >= n && y >= m` is the corner itself |
| `LineDiff.Round` | apps/control-plane/src/review-lines.ts:31-37 | one round over the shared array finds the corner exactly when it is `d` edits away, and otherwise leaves the round's furthest points in place |
| `LineDiff.Search` | apps/control-plane/src/review-lines.ts:24-39 | the search finds the corner's distance, or nothing exactly when it exceeds the limit, and every snapshot holds the round before's points |
| `LineDiff.ChoiceAgrees` | apps/control-plane/src/review-lines.ts:32-48 | the choice of insertion or deletion read off the array or a snapshot is the recurrence's own, so both passes agree |
| `LineDiff.EditBefore` | apps/control-plane/src/review-lines.ts:44-52 | from a round's point, the snapshot yields the edit that led there, the previous round's furthest point, and the run of matching lines between |
| `LineDiff.WalkBack` | apps/control-plane/src/review-lines.ts:40-58 | walking the trace back spells a script from start to corner of cost `found` whose insertions and deletions are the two sets |
| `EditScript.CostAtLeast` | apps/control-plane/src/review-lines.ts:5-8 | no edit script costs less than the graph distance |
| `EditScript.LeastCostKeepsLongest` | apps/control-plane/src/review-lines.ts:10-14 | a least-cost script leaves a longest common subsequence unmarked |
| `ArchiveWalk.WalkReviewArchive` | apps/control-plane/src/review-archive.ts:83-204 | refusal and visits are the byte-level walk's over the bytes in reach; within the limit that is a function of the concatenated bytes, independent of chunking, a file's bytes handed over exactly where the visitor reads them; over it the walk always refuses |
| `ArchiveFormat.AcceptedExactly` | apps/control-plane/src/review-archive.ts:119-196 | the walk accepts exactly the archives of some list of items, said byte by byte: headers that state their own sum, have a type the reader knows and no link or owner, payloads with zero padding, a PAX record before its one entry, tame and non-colliding paths, then two zero blocks and zeros |
| `ArchiveFormat.ArchiveAccepted` | apps/control-plane/src/review-archive.ts:119-196 | exactly the files of those items are visited, each with its own bytes |
| `ArchiveFormat.VisitedTame` | apps/control-plane/src/review-archive.ts:29-37 | every visited path, followed segment by segment, leads down by each and never climbs; no empty, `.` or `..` segment, no control byte, backslash or drive letter |
| `ArchiveFormat.ReachedFrom` | apps/control-plane/src/review-archive.ts:163-183 | the first bytes of an archive hand over exactly the files whose headers are among them, and short of the end blocks are truncated |
| `ArchiveFormat.HeaderRefusedBecause` | apps/control-plane/src/review-archive.ts:133-151 | the reason a header is refused for is true of the block |
| `ArchiveFormat.EntryRefusedBecause` | apps/control-plane/src/review-archive.ts:163-171 | so is the reason an entry is refused for |
| `ArchiveFields.HeaderExactly` | apps/control-plane/src/review-archive.ts:133-151 | a block passes the header checks exactly when its bytes are such a header |
| `ArchiveFields.StatesExactly` | apps/control-plane/src/review-archive.ts:19-27 | a number is read exactly from spaces, octal digits by place, and NULs |
| `ArchiveFields.SpellsExactly` | apps/control-plane/src/review-archive.ts:10-17 | a text is read exactly from its UTF-8 bytes and NULs |
| `ArchiveFields.RecordExactly` | apps/control-plane/src/review-archive.ts:53-62 | a payload is read as a path exactly when it is the one record of it that counts itself |
| `ArchiveFields.PortableExactly` | apps/control-plane/src/review-archive.ts:29-37 | a path is portable exactly when its bytes and its slash-free stretches are tame |
| `Utf8Text.ValidExactly` | apps/control-plane/src/review-archive.ts:8-17 | the fatal decoder accepts exactly the encodings of strings of scalar values |
| `ArchiveWalk.AllInReach` | apps/control-plane/src/review-archive.ts:91-101 | within the limit every byte is in reach, however the stream is cut |
| `ArchiveCuts.VisitsExactly` | apps/control-plane/src/review-archive.ts:91-101 | every cut of the bytes has the visitor see the same files exactly when they are within the limit or the bytes up to it show no file |
| `ArchiveCuts.AnswersExactly` | apps/control-plane/src/review-archive.ts:91-101 | every cut gives the same visits and refusal exactly when, besides, the bytes up to the limit are refused for nothing but their end |
| `ArchiveCuts.PaddedPastLimit` | apps/control-plane/src/review-archive.ts:91-101 | any acceptable archive padded with zeros past the limit is visited under one cut and not under another |
| `ArchiveCuts.CutsCanDiffer` | apps/control-plane/src/review-archive.ts:91-101 | one empty file, two end blocks and 128 MiB of zeros are such bytes |
| `ArchiveCuts.FewerBytes` | apps/control-plane/src/review-archive.ts:102-109 | fewer bytes call the visitor with the first files only, and a refusal for what was read stands |
| `ArchiveWalk.Walker.Run` | apps/control-plane/src/review-archive.ts:119-196 | the entry loop over the buffer refines the byte-level walk of the bytes in reach, running out of them read as truncation or as the size limit |
| `ArchiveWalk.Walker.Read` | apps/control-plane/src/review-archive.ts:102-109 | hands out the next bytes in reach, or is refused exactly when they fall short: as too large if the stream is, else as truncated |
| `ArchiveWalk.Walker.Discard` | apps/control-plane/src/review-archive.ts:110-118 | drops the next bytes in reach piecewise, or is refused exactly when they fall short |
| `ArchiveWalk.Walker.Pull` | apps/control-plane/src/review-archive.ts:91-101 | moves one chunk into the buffer without changing what is in reach, and fails only when the stream is over the limit and nothing more is in reach |
| `ArchiveWalk.Walker.NextEntry` | apps/control-plane/src/review-archive.ts:125-184 | one turn of the loop agrees with the byte-level turn in result, visit, state and bytes left |
| `ArchiveWalk.Walker.ReadEntry` | apps/control-plane/src/review-archive.ts:163-183 | a file or directory entry: checks, visit, content and padding as the byte-level step has them |
| `ArchiveWalk.Walker.ReadPax` | apps/control-plane/src/review-archive.ts:152-162 | a PAX header: its record becomes the next entry's path, or the refusal the byte-level step gives |
| `ArchiveWalk.Walker.ArchivePath` | apps/control-plane/src/review-archive.ts:39-51 | the loop over parents admits and records exactly what the set-based rule does |
| `ArchiveWalk.Walker.Drain` | apps/control-plane/src/review-archive.ts:185-195 | refuses exactly a nonzero byte in reach after the end blocks, else an oversized stream |
| `ArchiveSound.AcceptedIsSound` | apps/control-plane/src/review-archive.ts:125-196 | whatever bytes are accepted, every file visited is whole, within the limit, portably named in valid UTF-8, apart from every other once folded, and their number is within limits |
| `ArchivePaths.CollisionCheckExact` | apps/control-plane/src/review-archive.ts:39-51 | the one-pass check accepts a list exactly when its folded paths are distinct and no file is a proper ancestor of another entry |
| `ArchivePaths.OrderFree` | apps/control-plane/src/review-archive.ts:39-51 | acceptance is the same for every ordering of the entries |
| `ArchivePaths.ParentsAreAbove` | apps/control-plane/src/review-archive.ts:43-48 | the joined prefixes are exactly the paths whose segments properly begin this one's |
| `ArchiveRoundTrip.RoundTrip` | apps/control-plane/src/review-archive.ts:125-196 | the canonical image of in-limit, portable entries, named in the header, split over name and prefix or by PAX record in any mix, is accepted exactly when they do not collide, and then visits exactly its files, in order |
| `ArchiveRoundTrip.EntryWalks` | apps/control-plane/src/review-archive.ts:152-183 | one written entry, however it is named, takes the walk past it with its own visit, its PAX path applying to it and to nothing after it |
| `ArchiveRoundTrip.ImageRefused` | apps/control-plane/src/review-archive.ts:39-51 | entries that collide are refused with the error the one-pass check gives |
| `ArchiveRoundTrip.PaxRoundTrip` | apps/control-plane/src/review-archive.ts:53-62 | the self-counting record of a path reads back as that path |
| `UstarImage.HeaderRoundTrip` | apps/control-plane/src/review-archive.ts:133-151 | a written header passes every check, checksum included, and yields its kind, size and the path its name and prefix spell, for every permission mode |
| `CliArchive.PathFields` | packages/cli/src/review-archive.ts:37-46 | name and prefix that spell the path, at the last slash that leaves both short enough; none exactly when no header can hold it |
| `CliArchive.PaxPathRecord` | packages/cli/src/review-archive.ts:69-80 | growing the stated length ends, in the one exact record, or is refused exactly when that is over 1024 bytes |
| `CliArchive.ReviewArchive` | packages/cli/src/review-archive.ts:83-147 | which trees are uploaded, and that what is compressed is the canonical image of their files in path order, counted exactly |
| `CliArchive.UploadAccepted` | packages/cli/src/review-archive.ts:105-111 | intake accepts an upload, in whatever chunks, exactly when no committed path folds onto a directory of another, and visits exactly the committed files |
| `CliArchive.CaseClashUploads` | packages/cli/src/review-archive.ts:106-111 | a file beside a directory of the same folded name is uploaded all the same |
| `BuildQueue.QueueSafety` | apps/builder/src/build-queue.ts:43-78 | over every interleaving: while a build runs, everything of its key behind it waits or has given up; `building` names exactly the keys with a running build; a key's builds start in arrival order; its tail is forgotten only when all of them are over |
| `BuildQueue.StepKeeps` | apps/builder/src/build-queue.ts:51-78 | every step keeps the chain, the tails, the running set and the start order consistent |
| `BuildQueue.OneRuns` | apps/builder/src/build-queue.ts:69-74 | two running builds of one key are the same build |
| `BuildQueue.SettledMeansOver` | apps/builder/src/build-queue.ts:55-57 | a settled tail speaks for every build of its key up to it, whoever gave up in between |
| `BuildQueue.BoundedWait` | apps/builder/src/build-queue.ts:62-68 | with exact timers a build has started or given up by `waitMs + pollMs` after arriving |
| `BuildQueue.GivesUpOnlySpent` | apps/builder/src/build-queue.ts:62-68 | over every run a build keeps its key and instant of arrival, and gives up only once the whole wait has passed since |
| `BuildQueue.WaitsExactly` | apps/builder/src/build-queue.ts:52-64 | a build waits exactly while an earlier one of its key is not over |
| `BuildQueue.RunsInTurn` | apps/builder/src/build-queue.ts:64-71 | a build whose predecessors are over and whose look finds the way free runs |
| `BuildQueue.LooksAgain` | apps/builder/src/build-queue.ts:65-71 | a blocked look short of the deadline costs one poll, and the build runs if the way is free then |
| `BuildQueue.ForgottenExactly` | apps/builder/src/build-queue.ts:59-61 | a tail can be forgotten exactly when all builds of its key are over, and is |
| `BuildQueue.TimeMoves` | apps/builder/src/build-queue.ts:82-92 | whenever the clock may not advance, some build has a step to take |
| `BuildQueue.InstantEnds` | apps/builder/src/build-queue.ts:62-68 | where a look that finds the project blocked ends the instant for its build, by sleeping past it or giving up, the steps builds take at one instant are bounded by a rank every one of them lowers |
| `BuildQueue.ClockReached` | apps/builder/src/build-queue.ts:62-68 | from any state the clock can advance after at most that many steps |
| `BuildQueue.ZeroPollSpins` | apps/builder/src/build-queue.ts:65-68 | a due, blocked build short of its deadline, with a poll of zero, can look any number of times without anything changing |
| `BuildQueue.SpinsExactly` | apps/builder/src/build-queue.ts:62-68 | a run reaches an instant that need never end exactly when the poll is zero and the wait is not |
| `BuildQueue.StartsUnblocked` | apps/builder/src/build-queue.ts:65-71 | a build starts only in a step whose own look found `blocked()` false, first in line, with nothing of its key running |
| `BuildQueue.BuildQueue.Enter` | apps/builder/src/build-queue.ts:52-62 | chaining on the key's tail and becoming it is the arrival transition, and keeps the invariant |
| `BuildQueue.BuildQueue.Resolve` | apps/builder/src/build-queue.ts:64-64 | the race resolving, by the chain or by the timer, is the matching transition, and keeps the invariant |
| `BuildQueue.BuildQueue.TakeLook` | apps/builder/src/build-queue.ts:65-69 | one look starts, sleeps or gives up as the transition says, and keeps the invariant |
| `BuildQueue.BuildQueue.Finish` | apps/builder/src/build-queue.ts:70-77 | ending frees the key and releases the build's own place |
| `BuildQueue.BuildQueue.ForgetTail` | apps/builder/src/build-queue.ts:59-61 | the tail's callback removes only its own entry |
| `BuildQueue.BuildQueue.Building` | apps/builder/src/build-queue.ts:42-45 | true exactly while a build of the key runs |
| `Lifecycle.CountsExact` | apps/dashboard/src/business-volumes.ts:37-45 | over every run, a row's calls number the moves they make into its state from another state if no names clash; in any case an opening row's calls all leave the initial state and no operation is in two rows |
| `Lifecycle.QualifiesExactly` | apps/dashboard/src/business-volumes.ts:52-64 | an operation qualifies exactly when it is accepted somewhere and every accepted call of it is a move into the one state from a different one |
| `Lifecycle.QualifiesByCalls` | apps/dashboard/src/business-volumes.ts:37-45 | the same on the declaration itself: exactly when some state allows the operation, and every state that does moves with it into the one state from another |
| `Lifecycle.TallyExact` | apps/dashboard/src/business-volumes.ts:49-64 | the one-pass maps say of every operation what all its mentions say, in whatever order they came |
| `Lifecycle.Pass` | apps/dashboard/src/business-volumes.ts:52-64 | the nested loops compute that tally |
| `Lifecycle.LifecycleMoves` | apps/dashboard/src/business-volumes.ts:52-75 | the rows, filed in the order operations are first mentioned: every qualifying operation is filed and every row holds exactly those filed under its key, with its terminal mark and opening mark |
| `Lifecycle.RowsAnswer` | apps/dashboard/src/business-volumes.ts:65-75 | the filed rows answer the lifecycle, each with the state of its operation first mentioned |
| `Lifecycle.LifecycleMovesOf` | apps/dashboard/src/business-volumes.ts:46-81 | the entities in declared order, each with its rows once, stably sorted by state and the opening row first, its operations in UTF-16 order |
| `Lifecycle.ListInOrder` | apps/dashboard/src/business-volumes.ts:76-78 | every row is listed once, states never decrease in the locale's order, and of two rows for one state the opening one comes first |
| `Lifecycle.RowsRightExactly` | apps/dashboard/src/business-volumes.ts:65-75 | each row's operations all move into its state exactly when no terminal state's name spells another's key |
| `Lifecycle.ClashHappens` | apps/dashboard/src/business-volumes.ts:70-70 | a declaration whose rows come out merged |
| `Lifecycle.SeparatorFreeNoClash` | apps/dashboard/src/business-volumes.ts:70-70 | state names without U+001F cannot clash |
| `LifecycleOrder.OrderFreeExactly` | apps/dashboard/src/business-volumes.ts:65-75 | the rows are the same for every reordering of states, lists and edges exactly when no names clash |
| `LifecycleOrder.OrderShows` | apps/dashboard/src/business-volumes.ts:65-70 | one declaration in two orders whose merged row stands for different states |
| `LifecycleOrder.CanLead` | apps/dashboard/src/business-volumes.ts:66-74 | any operation that counts can be declared so that its row takes its state |
| `Lifecycle.ListOrderFree` | apps/dashboard/src/business-volumes.ts:76-78 | an entity's emitted list does not depend on declaration order, in any locale that tells its states apart |
| `BusinessVolumes.GridCovers` | apps/dashboard/src/business-volumes.ts:88-97 | the grid ends at the next whole second and reaches back past the window and both days by less than a bucket |
| `BusinessVolumes.DaysOnEdges` | apps/dashboard/src/business-volumes.ts:8-14 | with a bucket that divides a day, no bucket is split between today and yesterday |
| `BusinessVolumes.RowCounts` | apps/dashboard/src/business-volumes.ts:139-157 | today and yesterday are the sums of the matching samples of those days, and the series holds each bucket of the grid not over before the window, zero where nothing was counted |
| `BusinessVolumes.CountsItsOwn` | apps/dashboard/src/business-volumes.ts:140-146 | a series of another entity type or operation changes nothing for a row, and one of its own adds exactly its buckets |
| `BusinessVolumes.ShownExactly` | apps/dashboard/src/business-volumes.ts:153-157 | the series holds exactly the grid's buckets that begin before its end and end after the window's start, each with its count |
| `BusinessVolumes.DayIsItsBuckets` | apps/dashboard/src/business-volumes.ts:147-152 | for samples on the grid, the day counts are the sums of the days' own whole buckets |
| `BusinessCounts.DaysAreMoves` | apps/dashboard/src/business-volumes.ts:129-152 | where the read buckets every accepted call, a row's day counts are the moves its operations made into its state on those days |
| `ReviewJob.JobRuns` | apps/control-plane/src/review-job.ts:245-275 | over every run with the bucket bound, sweeps and deaths wherever they fall: model calls number at most three plus the alarms that left no record, plus one if a sweep took the result between an alarm's two reads; the job is gone only if never begun, a result stands or the receipt is gone; an idle job has an alarm exactly unless its start died between its writes; a review still open has lost every alarm beyond two and the one in flight |
| `ReviewJob.NeverReplaced` | apps/control-plane/src/review-store.ts:178-184 | a stored result is the same at every later point of the run short of pruning, and no model call follows it |
| `ReviewJob.AttemptsAreRefusals` | apps/control-plane/src/review-job.ts:180-186 | over every run a held job's attempt is the number of refusals that may pass, up to the last attempt |
| `ReviewJob.RetriesExactly` | apps/control-plane/src/review-job.ts:182-184 | a refusal is retried exactly when it may pass and an attempt is left, after one minute and then five |
| `ReviewJob.RefusalRecorded` | apps/control-plane/src/review-job.ts:182-187 | after any other refusal no model call comes before a record is tried, and the record is that refusal's own |
| `ReviewJob.RecordIsItsOwn` | apps/control-plane/src/review-job.ts:118-128 | what a course hands over is what is written |
| `ReviewJob.PrunedExactly` | apps/control-plane/src/review-job.ts:113-186 | without its receipt a review keeps what it holds, whatever comes, exactly when it holds a result or no alarm goes on without reading the receipt; the model is called no more exactly when no alarm waits between receipt and call |
| `ReviewJob.SweepExactly` | apps/control-plane/src/review-store.ts:203-223 | a sweep leaves nothing behind exactly when it finds no alarm that goes on without reading the receipt, and costs no call exactly when none is between that read and the call |
| `ReviewJob.OneRecordAtMost` | apps/control-plane/src/review-store.ts:203-223 | only the alarm in flight at the sweep goes on: at most one more model call, and what it leaves is final |
| `ReviewJob.RecordLeftBehind` | apps/control-plane/src/review-store.ts:203-223 | a run in which a review pruned during its model call is left a record |
| `ReviewJob.FourthCall` | apps/control-plane/src/review-job.ts:116-117 | a run of four model calls in which no alarm was lost |
| `ReviewJob.StrandedForGood` | apps/control-plane/src/review-job.ts:295-299 | a job whose start died between its two writes is never run, and no later start or alarm changes that |
| `ReviewJob.StrandedHappens` | apps/control-plane/src/review-job.ts:295-299 | that death is all it takes |
| `ReviewJob.ForgetsExactly` | apps/control-plane/src/review-job.ts:245-255 | a step forgets the job of a review left open exactly when it is an alarm that finds the bucket unbound |
| `ReviewJob.ReviewJobDO.OnAlarm` | apps/control-plane/src/review-job.ts:250-255 | the alarm up to its first await takes the modelled transition and keeps the invariant |
| `ReviewJob.ReviewJobDO.OnJob` | apps/control-plane/src/review-job.ts:113-186 | the run from one await to the next, up to a result to write or a retry stored, takes the modelled transition and keeps the invariant |
| `ReviewJob.ReviewJobDO.SetAlarm` | apps/control-plane/src/review-job.ts:273-299 | setting the alarm, of a retry or a start, is its own transition |
| `ReviewJob.ReviewJobDO.OnWrite` | apps/control-plane/src/review-job.ts:256-288 | the result's write, the fallback record and re-arming take the modelled transition and keep the invariant |
| `ReviewJob.ReviewJobDO.Begin` | apps/control-plane/src/review-job.ts:295-299 | starting is idempotent while a job is held, and stores the job before its alarm is set |
| `ReviewDiff.DiffReview` | apps/control-plane/src/review-diff.ts:90-141 | which of changed, too large, archive changed or a refused walk is answered, and then the files, the held-back, the deleted (base less source, each once, sorted) and the byte total, within the limit |
| `ReviewDiff.ChangedExactly` | apps/control-plane/src/review-diff.ts:90-141 | a diff is answered exactly when every archive it reads is whole and as recorded and what there is to send is within the limit; the base is read again only where a sent file has a base file |
| `ReviewDiff.GatherAccounts` | apps/control-plane/src/review-diff.ts:103-131 | the files sent are the source's own whose fate it is, in order, each with its own text, marked whole exactly when the base holds no file of its path; the held back likewise with their rules; and the bytes are those sent |
| `ReviewDiff.SendsExactly` | apps/control-plane/src/review-diff.ts:112-128 | a file is sent exactly when it is not in the base as it is, its name does not hold it back, and it is text of a size to send |
| `ReviewDiff.HeldBackBecause` | apps/control-plane/src/review-diff.ts:114-127 | name first, then size, then not being text |
| `ReviewDiff.EarlierExactly` | apps/control-plane/src/review-diff.ts:148-163 | the earlier text is that of the base's file of the path, where it is one of a size to compare |
| `ReviewDiff.ExactlyOneFate` | apps/control-plane/src/review-diff.ts:109-131 | every source path is exactly one of unchanged, sent or recorded as not sent |
| `ReviewDiff.OnlySource` | apps/control-plane/src/review-diff.ts:109-131 | nothing is sent or recorded that the source does not hold |
| `ReviewDiff.UnchangedExactly` | apps/control-plane/src/review-diff.ts:112-113 | with an injective hash, a file is passed over exactly when the base holds the same bytes under its path |
| `ReviewDiff.WalkSource` | apps/control-plane/src/review-diff.ts:103-135 | the walk stops over budget exactly when all the sendable bytes exceed the limit, reporting a lower bound |
| `ReviewDiff.JudgeFile` | apps/control-plane/src/review-diff.ts:148-163 | a file with a comparable earlier text gets a least-cost script's lines, every other one all its lines |
| `ReviewReader.Assemble` | apps/control-plane/src/review-reader.ts:200-251 | kept plus dropped is every entry; no two kept share item, file and line; each kept is backed by an entry on a changed line holding its quote, unclaimed; every admissible entry's spot is kept; shown blocking first, then advisory, then outside; the claimed items are the known ones, sorted |
| `ReviewReader.AdmissibleExactly` | apps/control-plane/src/review-reader.ts:202-230 | an entry is admissible exactly when a line the change marks in the sent file of its path holds its trimmed quote and its item is judged and unclaimed |
| `ReviewReader.RecordSays` | apps/control-plane/src/review-reader.ts:231-246 | what a kept record stores of its entry |
| `ReviewReader.GravestFirst` | apps/control-plane/src/review-reader.ts:248-249 | blocking before advisory before outside, then by item, file and line |
| `ReviewReader.ParseReply` | apps/control-plane/src/review-reader.ts:127-152 | nothing for a reply that is not one; else the entries that meet their schema, in order, and a count of those that do not |
| `ReviewReader.KeptIsMarked` | apps/control-plane/src/review-reader.ts:193-208 | a kept finding's line exists in the file sent under its entry's path, is marked, and holds the quote; its severity is the checklist's, its item unclaimed, and a secret's quote is never stored |
| `ReviewReader.MarkedIsInserted` | apps/control-plane/src/review-reader.ts:206-206 | a marked line is one a least-cost edit script inserts into the text of the base's file of that path, or the base holds no such file, or one too large, not text, or too different |
| `ReviewReader.KeptIsInserted` | apps/control-plane/src/review-reader.ts:200-208 | so is every kept finding's line, in the file its entry names |
| `ReviewPipeline.KeptFindingsHold` | apps/control-plane/src/review-diff.ts:90-163 | from stored bytes to kept findings: every one lies on a line inserted into the stored base's text of a source file, or in one the base has nothing to compare with, though the base is opened twice and cut differently |
| `ReviewPipeline.EveryPathAccounted` | apps/control-plane/src/review-diff.ts:109-131 | for accepted archives every source path is exactly one of unchanged (the same bytes in the base), sent or recorded as not sent |
| `ReviewPipeline.AcceptedDistinct` | apps/control-plane/src/review-diff.ts:97-99 | the files an accepted archive hands over have distinct decoded paths |
| `ReviewReader.NamesFileExactly` | apps/control-plane/src/review-reader.ts:232-243 | every record any reply can get kept names the file its entry quotes exactly when no sent path with a quotable line holds a control character |
| `ReviewReader.StripExactly` | apps/control-plane/src/review-reader.ts:37-38 | stripping leaves a string alone exactly when it has no control character |
| `ReviewReader.WrongFileNamed` | apps/control-plane/src/review-reader.ts:232-243 | two sent files and a reply whose kept record names the file that does not hold the quote |
| `ToolOutput.FitToolOutput` | apps/dashboard/src/ask.ts:270-285 | an output within the bound is returned; otherwise it is the value after exactly some number, up to 24, of halvings of a largest array, short of 24 only when it fits or none is left; marked if it fits, else the longest preview within half the bound; never more than the bound plus 68 bytes |
| `ToolOutput.MeasureExact` | apps/dashboard/src/ask.ts:306-329 | the one-pass size is the serialised size of every value, and the array found is a largest halvable one, none exactly when there is none |
| `ToolOutput.HalvingExact` | apps/dashboard/src/ask.ts:272-277 | the loop is that many halvings of a largest array of a value still over the bound, and only shortens arrays to non-empty prefixes |
| `ToolOutput.HalveExactly` | apps/dashboard/src/ask.ts:276-276 | a halving leaves the first half of one array, the middle item included, and every other place as it was |
| `ToolOutput.PreviewOf` | apps/dashboard/src/ask.ts:288-299 | the binary search answers the longest prefix whose quoted bytes fit |
| `ToolOutput.MarkedPage` | apps/dashboard/src/ask.ts:279-283 | a cut page says `truncated`, has its cursors null, and keeps every other field |
| `ToolOutput.MarkedSize` | apps/dashboard/src/ask.ts:279-284 | the marks add at most 68 bytes |
| `TurnRecord.TurnReadsBack` | apps/builder/src/record.ts:333-374 | every turn's stream reads back: parts bracketed under fresh ids with nothing inside but their deltas, each part the prose of one run, the terminal event once and last |
| `TurnRecord.TurnTold` | apps/builder/src/record.ts:333-374 | the stream tells exactly what was reported, in order and in its own words, and last the outcome given |
| `TurnRecord.StreamFaithful` | apps/builder/src/record.ts:362-373 | at every point the stream so far reads as the prose so far, with the writer's open part the reader's |
| `TurnRecord.TurnRecord.Event` | apps/builder/src/record.ts:333-374 | one report extends the stream by exactly its events |
| `TurnRecord.TurnRecord.Push` | apps/builder/src/record.ts:492-495 | pushing keeps batches offered, queued and buffered in stream order |
| `TurnRecord.TurnRecord.Flush` | apps/builder/src/record.ts:396-415 | flushing queues the buffer as one batch of at most 50 |
| `TurnRecord.TurnRecord.RunChain` | apps/builder/src/record.ts:399-413 | the next batch has its turn: taken whole or not at all, a failed append noted even where it was taken unheard |
| `TurnRecord.TurnRecord.Finish` | apps/builder/src/record.ts:418-428 | ending closes the open part, pushes the terminal event once and leaves nothing buffered |
| `TurnRecord.TurnRecord.Recorded` | apps/builder/src/record.ts:395-415 | drained, the thread holds the batches it took, whole, in order and each of at most 50, out of batches that make up the stream: exactly the stream where no append failed |
| `Consent.SingleUse` | apps/dashboard/src/connect-round.ts:206-246 | over every interleaving of racing callbacks at most one is connected, the store runs only after a won consume and once, and only a winner whose store failed restores the row |
| `Consent.ConnectedIsFinal` | apps/dashboard/src/connect-round.ts:206-246 | once one is connected no later callback reaches the store or restores the row |
| `Consent.WinsExactly` | apps/dashboard/src/connect-round.ts:221-229 | a heard consume wins exactly on a row that is outstanding and not expired, and otherwise says why |
| `Consent.RetryConnects` | apps/dashboard/src/connect-round.ts:230-246 | a failed store gives the row back, and the next callback connects |
| `Consent.StandsExactly` | apps/dashboard/src/connect-round.ts:206-246 | while nothing is lost, revoked or expired the link stands exactly while no callback has spent it for good |
| `Consent.RestoresExactly` | apps/dashboard/src/connect-round.ts:235-243 | a restore gives back exactly a used row that has not expired |
| `SandboxFile.WriteSandboxFile` | apps/builder/src/repositories.ts:77-93 | the parts are non-empty, within the chunk and a whole one but for a unit before a high surrogate, concatenate to the content, and the bytes they are written as join to the content's own, lone surrogates included |
| `SandboxFile.TextUtf8` | apps/builder/src/repositories.ts:77-93 | text is written as its UTF-8 bytes |
| `SandboxFile.CutKeepsBytes` | apps/builder/src/repositories.ts:85-86 | a cut that splits no surrogate pair splits the UTF-8 bytes |
| `SandboxFile.ProgressExactly` | apps/builder/src/repositories.ts:83-91 | a step makes progress unless the chunk is one unit on a high surrogate that is not last |
| `SandboxFile.EndsExactly` | apps/builder/src/repositories.ts:83-91 | the loop reaches the end exactly with a chunk of two or more, or of one where no high surrogate stands before the last unit |
| `Release.CollectRelease` | apps/builder/src/release-files.ts:37-54 | what was written under distinct names comes back under its names, types and part names as filenames, with what was lost, or is refused over the limit |
| `Release.WriteRelease` | apps/builder/src/release-write.ts:5-17 | the index, with what was lost, and every chunk file are the form's parts, slice by slice |
| `Release.RoundTripExactly` | apps/builder/src/release-files.ts:50-51 | what comes back is the form itself exactly when no text field begins with a byte order mark and every file is named as its part |
| `Release.ChunkFiles` | apps/builder/src/release-files.ts:15-16 | every chunk file is within 8 Mi characters and only a part's last can carry padding |
| `Release.Base64RoundTrip` | apps/builder/src/release-files.ts:45-46 | decoding undoes base64 (section 4 of RFC 4648) |
| `Release.Base64Exactly` | apps/builder/src/release-write.ts:12-12 | group by group the text spells the bytes as section 4 of RFC 4648 has it |
| `Release.CollectPart` | apps/builder/src/release-files.ts:42-49 | filling the byte array chunk by chunk restores the part |
| `ProjectPath.Normalise` | apps/builder/src/project-path.ts:29-42 | the stack loop computes the resolved segments |
| `ProjectPath.NormalPlace` | apps/builder/src/project-path.ts:17-28 | the normalised path is the place a directory walk of the path reaches, spelled climbs first, and resolves to the same place |
| `ProjectPath.NormalIdempotent` | apps/builder/src/project-path.ts:29-42 | normalising twice changes nothing |
| `ProjectPath.UnderProjectExactly` | apps/builder/src/project-path.ts:44-62 | for a directory that ends in a name, a relative path is answered exactly when it resolves inside, and the answer is the way down |
| `ProjectPath.WithinProjectExactly` | apps/builder/src/project-path.ts:71-74 | the write rule answers exactly the paths that resolve below it, with the same way down |
| `ProjectPath.JudgesExactly` | apps/builder/src/project-path.ts:53-62 | all relative paths are judged rightly exactly for directories that end in a name |
| `ProjectPath.UnderBySpelling` | apps/builder/src/project-path.ts:55-61 | for any directory, what is answered is what its spelling begins |
| `Lanes.LanesDisjoint` | apps/builder/src/phase.ts:271-304 | no file is writable by both lanes, however each spells it and whatever case the filesystem folds |
| `Lanes.BuildNeverWritesFrozen` | apps/builder/src/phase.ts:172-223 | no build turn, in either lane or unlaned, writes the model or scenario files in any folded spelling |
| `Lanes.MayWriteExactly` | apps/builder/src/phase.ts:172-304 | which paths each phase and lane may write, by where they lead |
| `Lanes.WritesStayInside` | apps/builder/src/phase.ts:95-101 | every write any turn allows is relative and climbs nowhere |
| `Lanes.ClimbsExactly` | apps/builder/src/phase.ts:95-97 | the textual test for climbing is exact |
| `Lanes.ReportForLane` | apps/builder/src/phase.ts:559-585 | from the report's text, the section and line loops keep what ownership says, joined again |
| `Lanes.EveryLineRouted` | apps/builder/src/phase.ts:545-552 | every line of a gate report reaches at least one lane, under its section's header |
| `Lanes.OwnersExactly` | apps/builder/src/phase.ts:543-549 | a line belongs to the lanes of the last line up to it that names paths, and to both where none does |
| `Lanes.KeptExactly` | apps/builder/src/phase.ts:565-577 | a lane is given exactly the lines it owns, in order |
| `Lanes.GivenExactly` | apps/builder/src/phase.ts:578-582 | a section reaches a lane exactly when a line of it is the lane's, or none is anyone's and the lane is the API's |
| `Lanes.ApiReportUnchanged` | apps/builder/src/phase.ts:550-552 | where no line is the UI lane's, the API lane is sent the report to the character and the UI lane nothing |

## Left out

- LineDiff.Search: the array holds unbounded integers; `EditGraph.Furthest` bounds every stored point by the old line count plus the round, which fits 32 bits for any two strings the runtime can hold.
- Lifecycle.LifecycleMoves: states and edges enter in the order the runtime lists them, in which names that are array indices come first whatever order they were written in.
- ReviewReader.ParseReply: JSON parsing and the tolerated code fence enter as whether the reply is one object with a list of findings.
- CliArchive.ReviewArchive: git's listing and the modes it refuses are not modelled, and a header is its laid-out form rather than its writes.
- Sorting.NotAfter: a Dafny string holds no lone surrogate, so the order of strings that do is not modelled.
- TurnRecord.TurnRecord.Finish: the lease, the summary row and the turn's counters are not modelled.
- ToolOutput.FitToolOutput: values are trees; an array reachable by two paths of one object graph is not modelled.
- ToolOutput.MeasureExact: of several largest arrays it does not say which is taken.
- Consent.SingleUse: a round with no link row, which has nothing to spend, is not modelled.
- SHA-256 and gzip: digests of archives enter as whether they matched.
- The checklist, prompt and redaction text of the review: string content without structure.
- `receiveReview`, `listReviews`, `pruneReviews`: only the sweep's one delete of a review is modelled.
- `fitMessage`, `historyForLane` and the other guards' refusal messages: they would only add easy members.
- Routes, Durable Object plumbing, git commands, the dashboard and console UI.
