# A verified model of the web server's log, parser, timers, task queue and response writer

This project models the parts of a small C++ web server that carry algorithms, and proves what each
of them is for.

* **The ring log** (`RingModel`, `RingProofs`, `RingThreads`, `RingLog`, `LogFiles`, `LogSystem`,
  `Recovery`). `RingModel` is the log as a state machine: any number of producers and one consumer,
  interleaved at will. A critical section is one step, but for the producer's, which is cut in two at its
  second look at the failure time, because that variable is written outside the lock. `cells` lists the
  ring from the consumer's cell on, so the consumer's pointer is index 0 and stepping on rotates the
  list. `RingProofs` has the invariant and what follows for every run, `RingThreads` a given number of
  producers with their own places in the program, and which runs they can have. `RingLog` has the
  objects: buffer cells with `pre`/`next` pointers and their shared-memory ids, and a log object whose
  methods are the steps of the machine. `LogFiles` is the consumer's file handling with rotation,
  `LogSystem` the two together from producers to disk over the days of a month, `Recovery` the crash
  tool's walk over the ring.
* **The request parser** (`HttpModel`, `HttpRequest`, `HttpGrammar`, `HttpScan`, `HttpTokens`, `HttpExact`,
  `HttpRoundTrip`, `HttpResume`, `HttpLength`, `HttpVerdict`). `HttpModel` is the automaton as a function, with token pointers into
  the read buffer; `HttpRequest` is the object whose loop computes it. `HttpGrammar` describes the
  accepted language independently, as documents and a printer. `HttpScan` runs the automaton with
  spelled-out pieces instead of positions, `HttpTokens` and `HttpExact` show that the two agree,
  `HttpRoundTrip` has exactness in both directions, and `HttpResume` says when a request may arrive in
  parts. `HttpVerdict` says from the grammar alone what the parser answers to every text, errors
  included, and `HttpLength` what it makes of Content-Length.
* **The timer heap** (`TimerHeap`): an array heap of timer objects that know their index, refining a
  map from timers to deadlines, over runs of operations.
* **The thread pool** (`ThreadPool`): queue, mutex and condition variable with any number of workers
  and appenders.
* **The connection** (`HttpWrite`): its reply to what has been read of a request, and sending a response,
  the bookkeeping over two iovecs after partial writes. A byte
  is represented by where it is read from, so losing and repeating bytes shows even in texts where
  they happen to be equal.
* **The cached time stamp** (`UtcTime`).

Conventions. Real fields carry the program's names without prefixes; ghost fields tie an object to its
machine. A step that runs in a critical section is one method; the thread interleaving is in the state
machine, whose runs are arbitrary sequences of enabled steps. What the environment decides is a
parameter: clock readings, whether `fopen` succeeds, how much a socket takes, ids of new segments, which
waiting worker a signal wakes.

Where the code and its documents or intentions part, the model follows the code:

* The constructor of the log passes the same key for the second and the third cell (log/log.cpp:101), so
  both are one segment: the ring has two cells, is counted as three, and its second cell points back to
  itself. The model takes three requests of which the last two may name the same segment, as they do in
  the code, or different ones, as the loop intends; every result about the ring holds for both. The ring
  can be walked backwards if and only if the last two differ (`RingLog.RingLog.constructor`); nothing
  in the log or the tool walks it backwards.
* The failure time is cleared before the producer's lock (log/log.cpp:224), so another producer can clear it
  at any time, also between the two lines of a critical section that set it and look at it
  (log/log.cpp:250, 271). Two things follow. A producer that has just failed may then copy its record
  into the consumer's FULL cell: the record comes out of order, or is lost when that cell is written
  already. `RingProofs.NothingLostOrReordered`, `RingProofs.NothingLostIff` and
  `RingProofs.ClaimedCellFrozenIff` say exactly when everything stays in its place, and
  `RingThreads.LossPossibleIff` that some run loses a record exactly if there are two producers or more.
  And producers that passed line 224 before a failure find the failure time set again:
  `RingThreads.DropBesideRoomPossibleIff` says exactly how many it takes for a record to be dropped
  beside a free cell (2562 for the smallest cells, so in this server it does not happen).
* log/README.md says of a producer whose next cell is FULL that `m_pPrstBuf == m_pCurBuf` and that a
  cell is then added. In the code the next cell is then the consumer's (`RingProofs.RingShape`), which
  is the current one only if the ring has one cell; and no cell is added beyond the memory limit.
* A request that is complete with the last character read is answered only if it is a GET that asks for a
  body, by having no Content-Length or one above 0 (http/http.cpp:581-594). One whose Content-Length is 0,
  or whose body is a single character, is taken for unfinished until something more arrives:
  `HttpVerdict.RepliesIff`.
* When the day changes, `DecisFile` updates the day and not the month or year (log/log.cpp:167-175), so
  the file of the same day of the old month is truncated: `LogFiles.NextMonthTruncates`, and
  `LogFiles.NewDayKeepsFilesIff` says exactly when nothing is lost. Within a month nothing is
  (`LogFiles.MonthHoldsEverything`).
* `Write` subtracts all bytes sent so far from what is left of the header (http/http.cpp:567-570). One
  result inside the header is handled, a second one is not: `HttpWrite.ResponseIntactIff` and
  `HttpWrite.TwoStopsLoseBytes`.
* The parser's token pointers do not survive a call, so a request that arrives in parts is read
  correctly whatever comes next if and only if each part ends between tokens: `HttpResume.ResumesIff`
  and `HttpResume.ResumesOverCutsIff`.
* `Adjust` only sifts down (http/timer.cpp:63-65), so a new deadline leaves the timer heap in order if and
  only if it is not before the parent's: `TimerHeap.TimerHeap.Reschedule`, and `TimerHeap.EarlierDeadline`
  for two timers and a clock that was set back.
* A pool asked for more than 16 threads starts none (threadpool/threadpool.h:35-38) and still accepts
  tasks, which then never run: `ThreadPool.SeventeenThreads`, and `ThreadPool.AtRestAllDoneIff` for all
  numbers of threads.
* In the parser the branch for a missing Content-Length that completes at once (http/http.cpp:329-331)
  is dead: the position read is always below the size. `HttpRequest.SHttpRequest.Consume` asserts it.

## Model

| member | source | states |
|---|---|---|
| RingProofs.FootprintExact | log/log.cpp:247 | for every cell size from 10 to 50 MiB and every ring within the limit the unsigned 32-bit product in the growth check does not wrap |
| RingProofs.DepositKeepsInv | log/log.cpp:230-232 | a record that fits goes behind everything accepted before it, and the ring invariant stays |
| RingProofs.GrowKeepsInv | log/log.cpp:253-264 | a cell spliced in between the current cell and the consumer's keeps order, ids and the memory limit; it is FREE, empty and current |
| RingProofs.AdvanceKeepsInv | log/log.cpp:239-269 | marking the current cell FULL and moving on keeps the invariant in all three branches; it ends with every cell FULL and the failure time set if the next cell is FULL and one more would exceed the limit, else on a FREE empty cell |
| RingProofs.ProduceKeepsInv | log/log.cpp:229-279 | the producer's critical section up to its second look at the failure time keeps the invariant |
| RingProofs.FinishKeepsInv | log/log.cpp:270-273 | the rest of it does so whatever the failure time is by then, the books counting a record that goes astray |
| RingProofs.MisplacedText | log/log.cpp:250-272 | what a record gone astray does to the text: it stands ahead of all the other cells, or nowhere if the consumer has written its cell |
| RingProofs.ConsumerAssertHolds | log/log.cpp:307-310 | the consumer's assert always holds: a FREE cell with bytes at the consumer is the producers' current cell |
| RingProofs.ClaimKeepsInv | log/log.cpp:290-319 | the consumer's first critical section keeps the invariant and claims the cell exactly when it has bytes |
| RingProofs.PersistKeepsInv | log/log.cpp:321-327 | the unlocked write keeps the invariant, also when no file could be opened |
| RingProofs.ReleaseKeepsInv | log/log.cpp:329-333 | clearing the cell and stepping on keeps the invariant |
| RingProofs.StepKeepsInv | log/log.cpp:203-335 | every step of every thread, a reset of the failure time in the middle of a critical section included, keeps the ring invariant |
| RingProofs.InitInv | log/log.cpp:82-126 | the ring the constructor builds satisfies the invariant, with two segments as with three |
| RingProofs.RunKeepsInv | log/log.cpp:203-335 | the invariant holds after every interleaving of steps |
| RingProofs.AstrayIff | log/log.cpp:224-272 | over any run, records go astray exactly at the steps where a failure time was cleared behind a failing producer and the consumer's cell has room, and bytes are lost exactly at those where that cell was written already |
| RingProofs.NothingLostOrReordered | log/log.cpp:203-335 | over every interleaving without such a step, the file followed by one lap of cell contents from the consumer's cell on, that cell left out between its write and its clearing, is exactly the accepted records in order |
| RingProofs.NothingLostIff | log/log.cpp:203-335 | over every interleaving at all, file and ring together have as many bytes as were accepted if and only if no record went into a cell already written |
| RingProofs.RingShape | log/log.cpp:236-314 | in every reachable state: a count of at least three, distinct ids, memory within 3 GiB and a product that does not wrap, FULL non-empty cells up to the current one and FREE ones after it, or all FULL; a FULL cell after a FREE current one is the consumer's |
| RingProofs.NextFullIsConsumers | log/log.cpp:241-245 | a FULL next cell means that the current cell is the last one before the consumer's |
| RingProofs.DroppedIff | log/log.cpp:229-279 | the exact condition under which a critical section that nothing falls into drops its record; otherwise the record is accepted as the newest |
| RingProofs.TurnedAwayIff | log/log.cpp:274-278 | a producer is turned away at once exactly if every cell is FULL, and the ring may then not grow |
| RingProofs.GivenUpIff | log/log.cpp:270-272 | at its second look a producer gives up exactly if a failure time is set, or every cell is FULL and the consumer's has no room |
| RingProofs.ThrottledIff | log/log.cpp:208-209 | after a failure a producer is kept out for five seconds, and with a clock set back exactly if the wrapped difference is below five |
| RingProofs.FailedOpenRetries | log/log.cpp:320-322 | a file that cannot be opened costs the consumer a turn and nothing else: it claims the same cell again |
| RingProofs.ProduceLeavesClaimedCell | log/log.cpp:229-269 | a producer's step up to its second look leaves the claimed cell's bytes and status, the cell linked behind it, the file and the stored id alone |
| RingProofs.FinishLeavesClaimedCellIff | log/log.cpp:270-272 | the rest of its section does so exactly if its record does not go astray |
| RingProofs.ClaimedCellFrozenIff | log/log.cpp:319-331 | between claim and release, producer steps, growth and wrap-around included, leave the claimed cell as it is if and only if none of them misplaces its record; its successor they never change |
| RingProofs.RoundMakesProgress | log/log.cpp:288-334 | with bytes in the ring, files that open and producers quiet, one turn of the consumer writes one non-empty cell and strictly lowers the pending bytes |
| RingProofs.DrainsWithinOneLap | log/log.cpp:288-334 | as many turns as there are non-empty cells empty the ring into the file, which is then all accepted records if none went astray |
| RingProofs.BusyAtMostCount | log/log.cpp:288-334 | the non-empty cells, and so the turns needed to drain the ring, are at most as many as there are cells |
| RingThreads.StepKeepsLocked | log/log.cpp:229-282 | a producer is inside its section exactly while the ring waits for the rest of it, and never two are |
| RingThreads.ThreadsAreRuns | log/log.cpp:203-335 | every state that producers with their own places in the program can bring about is one of the ring's runs |
| RingThreads.LetInAgain | log/log.cpp:206-224 | at every point of every run a producer may enter its call exactly if there is no failure time or five seconds have passed, and its reset then leaves none |
| RingThreads.OneProducerLosesNothing | log/log.cpp:203-283 | with one producer no record goes astray in any run |
| RingThreads.TwoProducersLose | log/log.cpp:206-272 | for every cell size and at least two producers, a run from the start in which a byte is lost |
| RingThreads.LossPossibleIff | log/log.cpp:206-272 | some run loses bytes if and only if there are at least two producers |
| RingThreads.RunKeepsRoom | log/log.cpp:206-278 | over every run of few producers: while a failure time is set, every cell is FULL or the current one has room for all producers past line 224 |
| RingThreads.ManyProducersDrop | log/log.cpp:206-278 | for every cell size and enough producers, a run from the start that drops a record beside a cell that is not FULL |
| RingThreads.DropBesideRoomPossibleIff | log/log.cpp:206-278 | such a run exists if and only if all producers but one can together fill a cell with one longest record each |
| RingLog.BufferCell.constructor | log/log.h:100-106 | a new cell is empty, zeroed, FREE and unlinked |
| RingLog.BufferCell.Append | log/log.h:118-122 | appends the record if it fits and leaves the cell alone if not; bytes behind the record stay |
| RingLog.BufferCell.ClearBuffer | log/log.h:124-128 | empties the cell, zeroes all its bytes and makes it FREE |
| RingLog.BufferCell.Reinit | log/log.cpp:35 | constructing anew in a segment empties, frees and unlinks the cell that is there |
| RingLog.AddCell | log/log.cpp:99-112 | one turn of the constructor's loop: a request for a new segment lengthens the chain, one for the last segment again wipes that cell and links it behind itself |
| RingLog.BuildChain | log/log.cpp:97-112 | the constructor's loop: a forward chain of the segments requested, with back pointers exactly while no request repeats the one before |
| RingLog.BuildRing | log/log.cpp:97-116 | the cells form one cycle with ids mirroring pointers, all empty and FREE; next and pre are inverse if and only if the third request was for a segment of its own |
| RingLog.SpliceLinks | log/log.cpp:256-263 | the eight assignments of a growth leave one cycle with the new cell last |
| RingLog.Splice | log/log.cpp:254-264 | the circle grows by the new cell between the current and the next one; all other cells keep their contents |
| RingLog.RingLog.constructor | log/log.cpp:82-126 | builds the ring with both pointers at the head, the head's id published and a count of three, however many segments there are; it is doubly linked if and only if the last two requests differ |
| RingLog.RingLog.IsThrottled | log/log.cpp:208-209 | refuses exactly for readings less than five seconds after the failure time, and, with the clock set back, for those more than 2^64 - 5 before it |
| RingLog.RingLog.ResetFailTime | log/log.cpp:224 | the reset outside the lock is a step of its own, possible at any time, also inside another producer's section |
| RingLog.RingLog.GrowWith | log/log.cpp:254-264 | linked growth is the machine's growth; the old cells stay in place |
| RingLog.RingLog.GrowOrFail | log/log.cpp:245-266 | with the consumer's cell next, one more cell or a failure is chosen by the 32-bit product of cell size and count |
| RingLog.RingLog.StepOn | log/log.cpp:241-269 | the choice between moving, growing and failing, made on the objects, is the machine's |
| RingLog.RingLog.AppendLocked | log/log.cpp:229-282 | the producer's critical section up to its second look at the failure time is the machine's step on the objects; it goes on from there, and signals the consumer, exactly when the current cell was FREE and too full |
| RingLog.RingLog.FinishLocked | log/log.cpp:270-273 | the second look and the copy are the machine's step on the objects |
| RingLog.RingLog.CheckLocked | log/log.cpp:290-299 | the consumer waits exactly if its cell is FREE |
| RingLog.RingLog.TakeCurrent | log/log.cpp:307-314 | the consumer takes the producers' current cell and moves their pointer on |
| RingLog.RingLog.ClaimLocked | log/log.cpp:301-319 | the rest of the first critical section is the machine's claim |
| RingLog.RingLog.PersistClaimed | log/log.cpp:321-327 | opens or rotates the file and writes exactly the cell's contents to it, or nothing if no file is open |
| RingLog.RingLog.ReleaseLocked | log/log.cpp:329-333 | clears the cell, steps the pointer and the stored id on; the circle is the old one read from the second cell |
| LogFiles.FileSet.DecisFile | log/log.cpp:157-195 | the method with its renaming loop computes the file-set function and reports whether a file is open |
| LogFiles.FileSet.FWrite | log/log.h:130-135 | the data goes to the end of the open file |
| LogFiles.ChainShifts | log/log.cpp:183-187 | each rename of the descending loop goes to a vacant name, and every numbered file moves up by one, also when the loop starts above the last one |
| LogFiles.RotationMoves | log/log.cpp:183-190 | the renames leave the numbers 1 to k + 1 taken without a gap and the current name vacant, each file one number up |
| LogFiles.RotationKeepsText | log/log.cpp:177-194 | rotation keeps the concatenation of the numbered files, oldest first, and the current one, also when the new file fails to open |
| LogFiles.DecideKeepsText | log/log.cpp:157-195 | within a day no call loses or reorders a byte, it rotates exactly at 1 GiB, rotated files stay between 1 GiB and 1 GiB plus one cell, an open file is below 1 GiB, and the file count follows the rotations |
| LogFiles.PutAppends | log/log.cpp:321-327 | one persist step appends the cell's bytes to the day's history, or nothing if no file opens |
| LogFiles.OtherDatesUntouched | log/log.cpp:157-195 | files of other dates are not touched |
| LogFiles.NewDayStarts | log/log.cpp:158-176 | the first call of a new day within a month leaves a day without rotated files and without text, a file count of one after a switch, and all other files as they are |
| LogFiles.PutKeepsMonth | log/log.cpp:157-195 | one persist step on the same or a later day adds exactly its data to the files of the month taken together, or nothing if no file is open |
| LogFiles.MonthHoldsEverything | log/log.cpp:157-195 | over any run of persist steps through the days of a month, with rotations and failing opens, the files of all days together are everything written while a file was open, in order |
| LogFiles.NewDayKeepsFilesIff | log/log.cpp:167-175 | switching to a new day keeps all files exactly when the new one fails to open or its path holds no bytes |
| LogFiles.NextMonthTruncates | log/log.cpp:167-175 | a run over three days in which the file of the old month is truncated |
| LogSystem.SysStepKeepsInv | log/log.cpp:157-335 | every step of ring and files together, on the same or a later day, keeps both invariants and the equality of the files on disk and the logical file |
| LogSystem.SysAstrayIff | log/log.cpp:203-335 | with the files as without them, records go astray exactly at the steps named above |
| LogSystem.DiskAndRingHoldEverything | log/log.cpp:157-335 | over every run through the days of a month in which no record goes astray, with failing opens and rotations, the files of all days and one lap of the ring are exactly the accepted records in order |
| Recovery.Walk | log/shmtool.cpp:54-77 | the do/while loop over ids ends, visits each cell exactly once in ring order, dumps exactly the ring's contents, and with deletion removes exactly the ring's segments |
| Recovery.Flush | log/shmtool.cpp:54-77 | the same for the memory left by the log object between any two steps of any run |
| Recovery.RecoveryComplete | log/shmtool.cpp:60-77 | at every point of every run in which no record goes astray, file and dump together are all accepted records in order; only the cell written and not yet cleared is there twice |
| UtcTime.MinuteShared | log/log.h:49-52 | within a minute the first 17 characters of the stamp stay |
| UtcTime.CachedTime.constructor | log/log.h:33-39 | the stamp shows the start time in full |
| UtcTime.CachedTime.AddTimeAll | log/log.h:76-78 | writes the full format and the NUL |
| UtcTime.CachedTime.AddTimeSec | log/log.h:80-82 | rewrites the two digits of the seconds and nothing before them |
| UtcTime.CachedTime.SameMinute | log/log.h:49-52 | within the minute shown, rewriting two digits gives the full format of the new second |
| UtcTime.FormatShows | log/log.h:76-78 | every field of a time can be read back, as a decimal number, from its place in the format, with the separators between |
| UtcTime.CachedTime.GetCurTime | log/log.h:40-60 | after any clock reading, later or earlier, year, month, day, hour, minute and second of the local time can be read as decimal numbers at their places in the stamp |
| HttpRequest.SHttpRequest.Init | http/http.cpp:23-35 | the fresh request: start state, position 0, no fields |
| HttpRequest.SHttpRequest.ParseInternal | http/http.cpp:37-349 | the loop computes the automaton function on the first `size` characters from the stored state and position; on a fresh request the state it ends in is the one that says what the text is, by the grammar, and no string is built from a null pointer |
| HttpRequest.SHttpRequest.Consume | http/http.cpp:68-347 | the switch computes one step: next state, token pointers and harvest |
| HttpGrammar.FirstWinsIsFirst | http/http.cpp:166-282 | the maps hold exactly the keys that occur, each with the value of its first occurrence |
| HttpScan.TrackText | http/http.cpp:68-337 | on each character the text behind the state grows by exactly that character |
| HttpScan.TrackAhead | http/http.cpp:68-337 | on each character the pieces not begun yet stay empty |
| HttpScan.TrackKeepsForm | http/http.cpp:68-337 | on each character the pieces read so far stay well formed |
| HttpScan.ScanSound | http/http.cpp:56-337 | up to an error or the blank line, state and pieces spell out exactly the text consumed |
| HttpTokens.HarvestExtends | http/http.cpp:88-283 | a token harvested from a buffer is the same string in every longer buffer |
| HttpTokens.LoopExtends | http/http.cpp:56-66 | with the tokens kept, stopping at the end of a shorter buffer and going on equals reading the longer one |
| HttpExact.StepAgrees | http/http.cpp:64-337 | after one more character every open or pending token is an in-range slice spelling its piece, and the fields are those of the document |
| HttpExact.CallAgrees | http/http.cpp:37-349 | after any text that meets no error, state, position, tokens and fields of one call are those of the scan |
| HttpRoundTrip.ScanPrinted | http/http.cpp:69-312 | every well-formed document, extra blanks included, is read piece by piece up to its last CR |
| HttpRoundTrip.PrintThenParse | http/http.cpp:56-337 | round trip: a printed document is accepted at its final LF, in state BODY or COMPLETE, with exactly its fields |
| HttpRoundTrip.PrintThenParseMore | http/http.cpp:56-344 | the same with more text in the buffer, of which at most one character is consumed |
| HttpRoundTrip.ParseThenPrint | http/http.cpp:56-337 | exactness: every accepted text is the print of a well-formed document, and the harvested fields are that document's |
| HttpRoundTrip.AcceptsIff | http/http.cpp:56-337 | the texts accepted are exactly the prints of well-formed documents |
| HttpRoundTrip.PrintInjective | http/http.cpp:56-337 | no text is the print of two documents, so blanks and tokens are determined by the text |
| HttpResume.OneCallNeverFaults | http/http.cpp:40-50 | within one call every harvested token was begun in that call |
| HttpResume.ResumeBetweenTokens | http/http.cpp:40-66 | a call that ends between tokens and a second call on any longer buffer give state, position and fields of one call on the whole |
| HttpResume.VerdictStands | http/http.cpp:56-62 | a verdict on a prefix is the result on every extension, at the same position |
| HttpResume.FaultsAtOnce | http/http.cpp:88-283 | for each of six states inside a token, a continuation on which the second call builds a string from a null pointer |
| HttpResume.LosesParamKey | http/http.cpp:152-161 | between a parameter's key and value, a continuation on which the second call files the value under the empty key |
| HttpResume.LosesHeaderKey | http/http.cpp:256-286 | on either side of the colon, a continuation on which the second call files a header value under the empty key |
| HttpResume.NoEmptyKeys | http/http.cpp:129-286 | one call on any text never files anything under the empty key |
| HttpResume.ResumeInsideTokenFails | http/http.cpp:40-66 | in every state inside a token a given continuation makes the two calls differ from one call |
| HttpResume.ResumesIff | http/http.cpp:40-66 | two calls equal one call for every continuation if and only if the first ends in one of the states between tokens, or with a verdict |
| HttpResume.ResumesOverCuts | http/http.cpp:40-66 | any number of calls equal one call if every call but the last ends so |
| HttpResume.ResumesOverCutsIff | http/http.cpp:40-66 | after such calls the next cut is safe for every continuation if and only if it is of that kind too |
| HttpModel.CharacterCodes | http/http.h:11-12 | CR, LF and the classes of blanks, capitals, digits and white space, by character codes |
| HttpLength.AtoiPositiveIff | http/http.cpp:316-317 | the length is above 0 exactly for white space, a plus sign or none, and a decimal number above 0, with anything behind it |
| HttpLength.BodyIff | http/http.cpp:315-334 | at the blank line a body is asked for unless the first Content-Length is there and not above 0 |
| HttpVerdict.MethodFound | http/http.cpp:83-97 | leading white space, capitals and then neither a capital nor a blank: the scan ends in the method error |
| HttpVerdict.StartFound | http/http.cpp:69-82 | leading white space and then neither a capital nor white space: the general error |
| HttpVerdict.UrlFound | http/http.cpp:98-111 | method and blanks, and then neither a slash nor a blank: the general error |
| HttpVerdict.ParamsFound | http/http.cpp:129-179 | after whole parameters, an empty key or value or a blank inside a key: the error of the URI |
| HttpVerdict.VersionFound | http/http.cpp:202-240 | after the slash, anything but digits with single points between: the error of the version |
| HttpVerdict.LineEndFound | http/http.cpp:287-311 | a CR without LF behind a line, or a line that starts with a blank: the general error |
| HttpVerdict.HeaderFound | http/http.cpp:256-338 | blanks behind a header key and then no colon, or the last CR without LF: the error of the header |
| HttpVerdict.ErrorSays | http/http.cpp:56-338 | conversely, a scan that ends in an error has met one of these breaks of that error |
| HttpVerdict.BlankLineIff | http/http.cpp:312-339 | the scan meets the blank line exactly in texts that begin with a printed document |
| HttpVerdict.BegunIff | http/http.cpp:56-66 | the scan is still at work exactly on the proper beginnings of printed documents |
| HttpVerdict.VerdictIff | http/http.cpp:37-349 | for every text and every verdict: the parser ends in it if and only if the text is what the verdict says, by the grammar; BODY and COMPLETE for requests without and with what was asked for, another state for proper beginnings of requests |
| HttpVerdict.AcceptedIff | http/http.cpp:37-349 | one call ends in BODY or COMPLETE exactly if the text begins with a printed well-formed document |
| HttpVerdict.ErrorIff | http/http.cpp:37-349 | one call ends in an error exactly if no continuation of the text is a request, so errors are found at the earliest character |
| HttpVerdict.RequestFields | http/http.cpp:88-286 | what one call has taken from a request is the document's method, URL, protocol and version, and for every key the first value |
| HttpVerdict.RepliesIff | http/http.cpp:576-596 | the connection goes on reading, serves, or answers an error, by what the text is; a GET with a body to come is served at the blank line, other requests from the first, or second, character behind it on |
| TimerHeap.LeftmostIs | http/timer.cpp:24-25 | counted from one, the leftmost slot k levels below another has 2^k times its index, which bounds the levels of a sift |
| TimerHeap.RootIsLeast | http/timer.cpp:84-89 | no entry of a well-formed heap is due before the root |
| TimerHeap.SinkStep | http/timer.cpp:24-31 | one turn of the sift moves the smaller child up, or finds the place of the sinking entry |
| TimerHeap.SinkAll | http/timer.cpp:24-32 | the sift loop ends where nothing below is earlier, not before the parent exactly if the entry was not so at the start, having gone down at most as many levels as there are |
| TimerHeap.RiseAll | http/timer.cpp:45-54 | the insertion loop ends at a place where heap order holds, having gone up at most as many levels as there are |
| TimerHeap.TimerHeap.constructor | http/timer.cpp:10-13 | an empty well-formed heap |
| TimerHeap.TimerHeap.HeapDown | http/timer.cpp:21-35 | started at an entry with any deadline, keeps members and back-indices and restores heap order if and only if the entry is not before its parent, in at most log2 of the size many steps; also on the heap just emptied |
| TimerHeap.TimerHeap.Resize | http/timer.cpp:99-107 | twice the capacity, same entries, still well formed |
| TimerHeap.TimerHeap.AddTimer | http/timer.cpp:37-62 | adds the entry, growing the array if needed; order and back-indices hold; at most log2 of the new size steps |
| TimerHeap.TimerHeap.Adjust | http/timer.cpp:63-65 | the entry is found by its back-index; the heap is well formed afterwards if and only if the entry is not before its parent; at most log2 many steps |
| TimerHeap.TimerHeap.Reschedule | main.cpp:258-261 | from a well-formed heap, a new deadline and Adjust change that one deadline in the map, and keep the heap well formed if and only if the deadline is not before the parent's |
| TimerHeap.EarlierDeadline | main.cpp:258-261 | two timers, the later one moved ahead of the other: the heap is not well formed |
| TimerHeap.TimerHeap.DelTimer | http/timer.cpp:68-72 | clears the callback and leaves the heap well formed |
| TimerHeap.TimerHeap.PopTimer | http/timer.cpp:74-81 | removes exactly the root, also the last one, in at most log2 many steps |
| TimerHeap.TimerHeap.Tick | http/timer.cpp:83-97 | calls back exactly the live entries due, each once, in order of deadlines, and keeps exactly the later ones |
| TimerHeap.TimerHeap.Postpone | main.cpp:258-261 | a later deadline changes that one deadline in the map and always keeps the heap well formed |
| TimerHeap.StaysUntilReached | http/timer.cpp:83-97 | over any run an entry nobody touches stays, with its deadline, exactly until the first tick that reaches it |
| TimerHeap.CalledBackOnce | http/timer.cpp:83-97 | over any run a timer that was set and then left alone is called back by the first tick that reaches its deadline and by no other; a deleted one by none |
| TimerHeap.CalledBackAsSet | http/timer.cpp:37-97 | over any run, a timer added with a deadline and then left alone is called back by the first tick that reaches that deadline and by no other, a delayed one likewise if it was live, a deleted one by none |
| TimerHeap.Perform | http/timer.cpp:37-97 | each operation of the heap does to the map of deadlines what the plain map's operation does |
| TimerHeap.PerformAll | http/timer.cpp:37-97 | over every run of operations the heap refines the map, tick by tick |
| ThreadPool.StepKeepsLedger | threadpool/threadpool.h:57-85 | every step keeps mutual exclusion and the order of tasks |
| ThreadPool.StepStrandsNothing | threadpool/threadpool.h:62-83 | every step keeps: with work in the queue some worker is not asleep or some appender has still to signal |
| ThreadPool.StepKeepsBound | threadpool/threadpool.h:76-82 | every step keeps queue length plus appenders past the check below the limit plus their number |
| ThreadPool.RunsInOrderOnce | threadpool/threadpool.h:57-85 | over every interleaving, finished tasks, the running one and the queue are the pushed tasks in order, and no two workers run at a time |
| ThreadPool.NoTaskStranded | threadpool/threadpool.h:57-85 | over every interleaving with at least one worker: with work in the queue some worker is not asleep or some appender has still to signal |
| ThreadPool.QueueBound | threadpool/threadpool.h:76-83 | with k appenders the queue never exceeds 100 + k - 1 |
| ThreadPool.QueueBoundIsReached | threadpool/threadpool.h:76-83 | for every number k of appenders, at least one, some run reaches 100 + k - 1 |
| ThreadPool.StepMakesProgress | threadpool/threadpool.h:57-85 | every step but a new call of Append and a spurious wake-up lowers a measure |
| ThreadPool.InnerRunsEnd | threadpool/threadpool.h:57-85 | without new calls of Append and spurious wake-ups every run is bounded by that measure, so the pool comes to rest under any scheduling |
| ThreadPool.AtRestAllSleep | threadpool/threadpool.h:57-85 | at rest the mutex is free, no Append is under way and all workers wait |
| ThreadPool.AtRestAllDoneIff | threadpool/threadpool.h:34-85 | at rest every pushed task has been run, in order, if and only if 1 to 16 threads were asked for and one could be created, or nothing was pushed |
| ThreadPool.SeventeenThreads | threadpool/threadpool.h:34-85 | a pool of seventeen: a run to rest with a task accepted and none run |
| ThreadPool.ThreadPool.constructor | threadpool/threadpool.h:34-54 | of up to 16 threads as many start as are asked for or, if those are fewer, can be created; of more than 16 none |
| ThreadPool.ThreadPool.HasRoom | threadpool/threadpool.h:76-79 | Append refuses exactly at 100 tasks and then changes nothing |
| ThreadPool.ThreadPool.PushAndUnlock | threadpool/threadpool.h:81-82 | the task goes to the end of the queue and the mutex is free |
| ThreadPool.ThreadPool.SignalOne | threadpool/threadpool.h:83 | a waiting worker wakes if there is one |
| ThreadPool.ThreadPool.TakeOrWait | threadpool/threadpool.h:60-66 | takes the front task and keeps the mutex, or sleeps with the mutex free when the queue is empty |
| ThreadPool.ThreadPool.FinishAndUnlock | threadpool/threadpool.h:67-68 | the task has run under the mutex, which is now free |
| HttpWrite.StaysOnTrack | http/http.cpp:541-570 | while at most one result has ended inside the header, each result leaves the iovecs at the next unsent byte |
| HttpWrite.LeavesTrack | http/http.cpp:567-570 | a second result inside the header cuts the header short or points before the file |
| HttpWrite.StaysOffTrack | http/http.cpp:541-570 | once the iovecs have gone wrong no later result repairs the transmission |
| HttpWrite.ResponseIntactIff | http/http.cpp:529-573 | at every point of every transmission, bytes sent followed by the bytes the iovecs denote are header and file, if and only if at most one result has ended inside the header |
| HttpWrite.TwoStopsLoseBytes | http/http.cpp:562-570 | a header of ten bytes and two short results that skip three of its bytes |
| HttpWrite.PlayContinues | http/http.cpp:529-540 | a call re-entered after EAGAIN goes on exactly where the last one stopped |
| HttpWrite.PlayStops | http/http.cpp:530-560 | a call that has not sent all ends with the answer behind the successful ones: waiting, unless that is an error |
| HttpWrite.Connection.ParseRead | http/http.cpp:576-596 | on a fresh request the reply is the one that says what has been read, by the grammar |
| HttpWrite.FinishedIntactIff | http/http.cpp:541-560 | a finished transmission was header and file, if and only if at most one result of all its calls ended inside the header |
| HttpWrite.Connection.Prepare | http/http.cpp:680-686 | the iovecs denote header and file, and their sum is still to be sent |
| HttpWrite.Connection.WriteOne | http/http.cpp:530-571 | one successful writev with its bookkeeping is the function's step |
| HttpWrite.Connection.Write | http/http.cpp:514-574 | unless all is sent, the answer behind the successful ones decides: EAGAIN leaves the transmission, still mapped, where all results so far put it, an error unmaps and closes; with all sent the file is unmapped, and a lingering connection kept and everything reset |

## Left out

- The event loop, epoll, sockets, accept, signals and the life of descriptors in main.cpp.
- Shared-memory calls, `ftok`, `readlink` and the clean-up of old segments (log/log.cpp:25-74): a cell is an object with an id, its bytes a value inside the segment; the ids of new segments differ from those in the ring.
- RingLog.RingLog.constructor: asks that the first segment is not one of the others, as its key differs; segments left over from an earlier run are not modelled.
- RingLog.RingLog.AppendLocked: takes a record of 1 to 4095 bytes and a clock that does not read 0, because `vsnprintf` reports longer lengths than it writes (log/log.cpp:217-221) and 0 stands for "no failure".
- Data races: the time fields read by the consumer, the failure time and the pool's unlocked `size()` are read as some value they had; each access to the failure time is atomic, and any access may fall anywhere.
- Changes of the cell size through LOG_MEM_SET during a run: the size is fixed and within the macro's limits.
- Formatting of records, log levels, `InitLogPath`, and the redirection when the log directory is unusable (log/log.cpp:149-155).
- `fwrite` and `fflush` are taken to be complete; a failing rename or close is not modelled.
- LogSystem.DiskAndRingHoldEverything: within one month, whose days the clock does not run backwards, and in runs in which no record goes astray; across months `LogFiles.NewDayKeepsFilesIff` says when bytes on disk survive.
- The tool's command line and its output to the terminal (log/shmtool.cpp:15-52, 85-92).
- UtcTime.CachedTime.GetCurTime: for local times with four-digit years whose seconds are those of the clock and whose other fields change only with the minute; milliseconds are left out.
- HttpRequest.SHttpRequest.ParseInternal: the body text is left out (http/http.cpp:316, 326, 341), because its length is not tied to the bytes received; the BODY step is a change of state. `m_bIsOpen` and the state OPEN are not set by the parser.
- A string built from a null and a non-null pointer has no defined meaning in C++; the model stops there with a fault. `isupper`, `isblank` and `isdigit` are those of the C locale on ASCII, and `atoi` is that of numbers that fit an int.
- `Read`, `ParseWrite` except the file response, the error pages, `AddLine` and `stat`/`mmap` failures. (Error pages set no data length, so `Write` takes them for nothing to send.)
- HttpWrite.Connection.Write: lengths are unbounded integers, so files of 2 GiB and more, for which `m_iDataLen` overflows, are not modelled; clearing the two buffers is left out, because nothing reads past their lengths.
- TimerHeap.TimerHeap.Adjust: takes a timer that is in the heap; one that was popped keeps its old index.
- TimerHeap.TimerHeap.AddTimer: takes a timer that is not in the heap; a capacity is at least 1, so the default constructor, which allocates nothing, is left out.
- `GetTop`, the callbacks' own effects, and the memory of popped timers.
- ThreadPool.ThreadPool.TakeOrWait: `Work` is split at its atomic actions (lock and test, run, unlock) and `Append` likewise, because the threads interleave between them; a task's run always ends.
- Detaching of threads; how many the system is able to create is a parameter.
- Destructors everywhere.
