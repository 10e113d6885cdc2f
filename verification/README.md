# Log pipeline, logger fan-out and session registry

A Dafny model of three parts of the server and of proofs about them.

* **The rotating CSV log.** A record is formatted as one CSV row (`CsvFormatter.dfy`), possibly with
  native line endings (`EolConverter.dfy`), and appended to file 0 of a numbered family of files by
  the rolling appender (`Files.dfy`, `FileNames.dfy`, `Utf8Converter.dfy`, `RollingAppender.dfy`).
  `CsvReader.dfy` is a reader written from the CSV rules, with a byte order mark of its own, not from
  the formatter; `CsvExact.dfy`, `CsvCuts.dfy`, `CsvRecords.dfy` and `CsvColumns.dfy` say exactly
  which rows, files and cut rows it can read back, that rows determine records, and what it finds
  under each column name. `RollShift.dfy` and `Accounting.dfy` are about rolls, bytes and files.
* **Threads and crashes.** `LogMachine.dfy` takes one write apart into its steps (lock, look, close,
  unlink, each rename, open, header, record, unlock), for any number of threads, with the process
  stopping and starting again between any two steps. `LogPhases.dfy` has what every step keeps,
  `LogFamily.dfy` the reading of a family oldest first, and which renames may lose something;
  `LogBytes.dfy` the end-to-end theorem on bytes, `LogReplay.dfy` and `LogRecovery.dfy` the one on
  rows; `LogMerge.dfy` is about the order of writing, `LogSpace.dfy` about how large files get, and
  `LogAtomic.dfy` shows that writes are atomic.
* **Loggers as appenders of loggers.** `LoggerGraph.dfy` (the graph, and when delivery ends) and
  `FanOut.dfy` (the objects, and what is delivered).
* **The session registry over pooled users.** `ObjectPool.dfy` and `UserManager.dfy` (objects) and
  `Registry.dfy` (the same operations on values, and the theorems about runs).

The classes follow the source's objects; each method that changes state is proved equal to a
function of the old state, and the theorems are about those functions. The operating system's
answers (whether an open succeeds, how many bytes a write takes, which files it refuses to rename or
to remove) and the address of a local string are parameters, so the theorems hold for all of them.

The main results are `LogRecovery.FilesHoldASuffix`, `LogBytes.BytesHoldASuffix`,
`LogFamily.MoveIsSafeExactly`, `LogMerge.HistoryIsMerge`, `LogAtomic.WritesAreAtomic`,
`LogAtomic.ConcurrentRunsAreSequential`, `LogSpace.EveryFileIsBounded`, `LogPhases.EveryMoment`,
`LogMachine.StepsRefineWrite`, `RollShift.RollIsExactShift`, `RollShift.RollWithRefusals`,
`Accounting.BytesAreConserved`, `Accounting.RetentionAndSpace`, `CsvReader.HeadedFileRoundTrip`,
`CsvExact.FileReadsBackExactly`, `CsvCuts.CutFileReadsBackExactly`,
`CsvRecords.WrittenRowsDetermineRecords`, `CsvColumns.ColumnsTellRecord`, `FileNames.NumberReadsBack`,
`LoggerGraph.EndsExactlyWithoutCycle`, `LoggerGraph.PathOpensExactly`, `FanOut.DeliveriesAreExactly`,
`FanOut.LoweringLeavesOutOfRuns`, `Registry.RunKeepsConsistent`, `Registry.UserTellsItsHistory`,
`Registry.RunsOutExactly` and `Registry.LiveSlotsExactly`.

Nine expectations do not hold of the code as it stands. For each, the condition under which it does
hold is proved, and a concrete case where it does not is given:

* a roll may lose rows in the middle, and keep older ones: when a rename was refused and the next one
  replaces the file left standing, with an older file behind it (`LogFamily.MoveIsSafeExactly`):
  `LogBytes.MiddleIsLost`;
* file 0 grows without bound when a roll cannot move it, because its rename is refused, or its target
  stays and rename does not overwrite (`LogSpace.EveryFileIsBounded` counts these rolls):
  `LogSpace.StuckFileGrows`;
* a name that ends in a dot loses it (`FileNames.SplitThenBuild`), and then file 0 of a name ending in
  `.csv.` changes its format (`FileNames.FamilyKeepsFormat`): `FileNames.TrailingDotLost`;
* where the last dot stands in a directory's name, the numbered files are in other directories
  and, if those are missing, every rename is refused (`FileNames.FamilySharesDirectory`):
  `FileNames.DottedDirectory`;
* a row reads back only if the printed pointer and the function name hold no `;`, `"` or line feed,
  and one other row spoils the file (`CsvExact.RecordReadsBackExactly`,
  `CsvExact.FileReadsBackExactly`): `CsvExact.QuotedFunctionIsLost`;
* delivery does not end where a nested logger leads back to one passed before
  (`LoggerGraph.EndsExactlyWithoutCycle`): `LoggerGraph.MutualLoggers`;
* a user's id stays taken after logout (`Registry.IdTakenUntilFreed`, `Registry.IdFreedExactly`):
  `Registry.SecondLoginRejected`;
* the pool runs out with fewer sessions than slots, because a repeated login loses one
  (`Registry.RunsOutExactly`): `Registry.RepeatedLoginRunsOut`;
* a pool with more than 32768 slots outgrows the 16 bits in which a user keeps its slot number
  (`Registry.AddKeepsConsistent`): `Registry.SlotOutgrowsShort`.

## Model

| member | source | states |
|---|---|---|
| LogRecovery.FilesHoldASuffix | include/plog/Appenders/RollingFileAppender.h:33-88 | For every name and limits, any threads, any interleaving, failing opens and writes, refused renames and removals, and crashes and restarts between any two steps, as long as no rename replaces a file between others: the files, read from the last number down to 0 with headers dropped, hold whole rows only and decode to a suffix of the rows written, in order; the newest row is always among them; with one file nothing is lost. Where rename does not overwrite, and where nothing is refused, no rename ever does that |
| LogBytes.BytesHoldASuffix | include/plog/Appenders/RollingFileAppender.h:33-88 | For every answer of the system, short writes included, and crashes anywhere, under the same condition: the bytes of the files, oldest first, are a suffix of all bytes the system took, headers included; the last byte taken is always there; with one file nothing is lost |
| LogBytes.MiddleIsLost | include/plog/Appenders/RollingFileAppender.h:56-72 | Four files, the rename of file 1 refused, where rename overwrites: file 1 is lost and the older file 2 is kept |
| LogFamily.MoveIsSafeExactly | include/plog/Appenders/RollingFileAppender.h:63-69 | For the files present, whatever they hold: a rename keeps a suffix of the text if and only if it does not replace a file between others |
| LogFamily.MoveKeepsSuffix | include/plog/Appenders/RollingFileAppender.h:63-69 | The same direction for anything read from the files, such as rows; with a free target nothing is lost |
| LogRecovery.RunIsRecoverable | include/plog/Appenders/RollingFileAppender.h:33-88 | The invariant behind it is kept by every run |
| LogRecovery.WorkAndRows | include/plog/Appenders/RollingFileAppender.h:33-88 | What each single step does to the rows that can be read: the record's append adds one; the unlink, and a rename that replaces the oldest file, drop some of the oldest but never all; no other step changes them |
| LogMerge.HistoryIsMerge | include/plog/Appenders/RollingFileAppender.h:33-53 | The history is a merge of the threads' records: each thread's rows in its own order and at most once; exactly its first records when no call fails, and exactly those it has written so far in the running process; rows of a later process never come before those of an earlier one |
| LogAtomic.WritesAreAtomic | include/plog/Util.h:358-373 | For every run, any threads and interleaving, any answers of the system and any process stopped at any step: the state is what the writes of the run (each of the row of its thread's record, with the answers its own steps got, in the order of the mutex) make, one after the other, each done whole or up to where its process was stopped; and then the first steps of the write under way |
| LogAtomic.ConcurrentRunsAreSequential | include/plog/Appenders/RollingFileAppender.h:33-53 | When no call fails and processes stop between writes, these writes are the rows of the history in its order, so the sequential results on retention, space and rolls hold of concurrent runs |
| LogSpace.EveryFileIsBounded | include/plog/Appenders/RollingFileAppender.h:37-52 | At every moment of every run, with short, failed and refused calls and processes stopped inside a write or a roll: with more than one file, none is over the limit by more than the longest row for each process started and each roll that left file 0 in place; there is no such roll while nothing is refused |
| LogSpace.StuckFileGrows | include/plog/Appenders/RollingFileAppender.h:42-51 | While the rename of file 0 is refused, every write adds its whole record to it and leaves the next write in the same position |
| LogSpace.WorkKeepsBounds | include/plog/Appenders/RollingFileAppender.h:33-88 | Each step keeps these bounds, with a lower one for file 0 until this process has appended to it; a roll that gets stuck allows one more record |
| LogMerge.EveryFileIsHeaded | include/plog/Appenders/RollingFileAppender.h:74-88 | When no call fails, however often the process stops, every file starts with the header, but for a file 0 that is still empty |
| LogPhases.EveryMoment | include/plog/Util.h:358-373 | At every moment of every run, with short and failed writes and refused renames: at most one thread is inside `write`; the tracked size is the length of file 0 while the handle is open; the file is opened only with the handle closed; every file above number 0 is over the limit; and while nothing is refused no rename finds its target |
| LogPhases.RunIsSound | include/plog/Appenders/RollingFileAppender.h:33-88 | Mutual exclusion and the phase of the appender are kept by every run |
| LogPhases.WorkKeepsPhase | include/plog/Appenders/RollingFileAppender.h:33-88 | Each step leads from its phase to the next one's |
| LogPhases.FailedOpenGivesUp | include/plog/Appenders/RollingFileAppender.h:74-79 | A failed open leaves the files as they are and makes the appender inert |
| LogPhases.InertForEver | include/plog/Appenders/RollingFileAppender.h:37-52 | After a failed open no write of any thread changes any file until the process starts again |
| LogPhases.RunTouchesFamilyOnly | include/plog/Appenders/RollingFileAppender.h:56-106 | No run changes a file outside the family |
| LogPhases.FilesAdded | include/plog/Appenders/RollingFileAppender.h:13-20 | A run never adds more than max(maxFiles, 1) files to a directory |
| LogMachine.StepsRefineWrite | include/plog/Appenders/RollingFileAppender.h:33-53 | The steps of one write with nobody in between do exactly what the method does |
| RollingAppender.RollingFileAppender.constructor | include/plog/Appenders/RollingFileAppender.h:13-20 | The limits have their lower bounds, the name is split, the handle is closed |
| RollingAppender.RollingFileAppender.OpenLog | include/plog/Appenders/RollingFileAppender.h:74-88 | Opens file 0, takes its size and writes the header into an empty file only |
| RollingAppender.RollingFileAppender.Roll | include/plog/Appenders/RollingFileAppender.h:56-72 | Closes, removes the last file, renames downwards and opens, whatever the system refuses |
| RollingAppender.RollingFileAppender.Write | include/plog/Appenders/RollingFileAppender.h:33-53 | The whole new state of disk, handle, size and flag for every answer of the system, with the record's formatted row |
| RollingAppender.Configured | include/plog/Appenders/RollingFileAppender.h:13-20 | Every name and limits give distinct file names, at least one file, a limit of at least 1000 bytes and of `maxFileSize` from there up, and room for the header |
| RollShift.RollIsExactShift | include/plog/Appenders/RollingFileAppender.h:56-88 | After a roll in which nothing is refused, with any numbers missing before: file j+1 is old file j, only the old last file is gone, file 0 is fresh with the header, no other file changes |
| RollShift.RollWithRefusals | include/plog/Appenders/RollingFileAppender.h:56-69 | With any refusals, before file 0 is opened: a file stays if its rename is refused, or fails on a target that stays; it goes up by one otherwise, replacing what stood there; and that is the content of every number |
| RollShift.ShiftedExactly | include/plog/Appenders/RollingFileAppender.h:63-69 | The exact shift for the renames from any number down, given that the first target is absent and nothing is refused |
| RollShift.RollSameOnBothSystems | include/plog/Util.h:295-302 | While nothing is refused, a roll does the same where rename overwrites its target and where it fails on it |
| Accounting.BytesAreConserved | include/plog/Appenders/RollingFileAppender.h:42-51 | Under short and failed writes, refused renames and restarts: bytes in the family plus bytes in removed or replaced files are the bytes written, and the number of rolls that moved file 0 times the limit never exceeds them |
| Accounting.RetentionAndSpace | include/plog/Appenders/RollingFileAppender.h:42-72 | Without failures, after k rolls exactly the files 1..min(k, last) exist besides file 0, each over the limit, and no file exceeds the limit by more than the longest record per start of the process |
| Accounting.PerformRetains | include/plog/Appenders/RollingFileAppender.h:42-72 | The same as an invariant of one write or restart |
| Accounting.WriteLands | include/plog/Appenders/RollingFileAppender.h:33-53 | Where a write in which nothing fails ends up, for every state between two writes: the first one of a process appends to file 0, however large, after the header if the file is new; a later one moves every file up and starts a new file 0 exactly when there is more than one file and file 0 is over the limit, and appends otherwise; after a failed open nothing is written |
| Accounting.NewFileStarts | include/plog/Converters/UTF8Converter.h:9-14 | The first file starts with the bytes 0xEF, 0xBB, 0xBF and the literal header line |
| FileNames.NumberedNamesDistinct | include/plog/Appenders/RollingFileAppender.h:90-106 | Two numbers give the same file name only if they are equal, for every name and extension |
| FileNames.NumberReadsBack | include/plog/Appenders/RollingFileAppender.h:90-106 | For every name and extension: file 0 has no number, and any other has exactly the digits of its number after a dot, in front of the extension or, without one, at the end |
| FileNames.SplitThenBuild | include/plog/Util.h:183-206 | File 0 is the file the user named exactly when the name does not end in a dot |
| FileNames.FamilyKeepsFormat | include/plog/Init.h:12-20 | A numbered file is judged CSV exactly when the given name is, but for file 0 of a name ending in ".csv." |
| FileNames.TrailingDotLost | include/plog/Appenders/RollingFileAppender.h:90-106 | `log.` becomes `log`, and `a.csv.`, which is not taken for CSV, becomes `a.csv`, which is |
| FileNames.FamilySharesDirectory | include/plog/Appenders/RollingFileAppender.h:90-106 | A numbered file is in the directory of file 0 exactly when the last dot does not stand before a separator, for either separator |
| FileNames.DottedDirectory | include/plog/Appenders/RollingFileAppender.h:90-106 | File 1 of `logs.d/app` is `logs.1.d/app` |
| FileNames.FindExtensionDot | include/plog/Util.h:183-190 | Finds the last dot, or that there is none |
| FileNames.SplitFileName | include/plog/Util.h:192-206 | The parts put together around a dot are the name; the extension holds no dot |
| Files.File.Open | include/plog/Util.h:237-247 | Creates a missing file, keeps an existing one, answers its size or -1 |
| Files.File.Write | include/plog/Util.h:249-262 | Appends what the system takes; -1 and no change for an error or a closed handle |
| Files.AnyPrefixMayBeTaken | include/plog/Util.h:249-262 | The answers cover every number of bytes a write may take |
| Files.FileSystem.Rename | include/plog/Util.h:295-302 | Nothing for a missing source or a refusal; replaces or fails on an existing target |
| CsvFormatter.Format | include/plog/Formatters/CsvFormatter.h:16-49 | The row written is the six columns, each with its separator, the quoted truncated message and a line feed |
| CsvFormatter.FormatMessage | include/plog/Formatters/CsvFormatter.h:29-44 | The token loop over the truncated message writes a quote, the message with each quote doubled, and a quote |
| CsvFormatter.StringStream.GetLine | include/plog/Formatters/CsvFormatter.h:38-42 | Takes the text up to the next delimiter, which it drops, or to the end, which it notes |
| CsvFormatter.QuotedMessageBound | include/plog/Formatters/CsvFormatter.h:29-42 | The quoted field is as long as the truncated message, its quotes once more, and two; never more than 2 * 32003 + 2 |
| CsvReader.HeadedFileRoundTrip | include/plog/Formatters/CsvFormatter.h:11-49 | Mark, header and any rows read back to exactly the rows, whatever the messages contain |
| CsvReader.BareFileRoundTrip | include/plog/Formatters/CsvFormatter.h:16-49 | The same for a file without the header |
| CsvReader.FormattedRecordsRoundTrip | include/plog/Converters/UTF8Converter.h:9-14 | The file of any list of records reads back to the records' fields |
| CsvExact.RowReadsBackExactly | include/plog/Formatters/CsvFormatter.h:21-49 | A row reads back to itself if and only if its six columns before the message hold no separator, quote or line feed |
| CsvExact.RecordReadsBackExactly | include/plog/Formatters/CsvFormatter.h:21-49 | A record's row reads back if and only if its printed pointer and its function name are free of them |
| CsvExact.FileReadsBackExactly | include/plog/Formatters/CsvFormatter.h:11-49 | A file of mark, header and any rows of seven columns reads back to these rows if and only if all of them hold no separator, quote or line feed before the message |
| CsvExact.QuotedFunctionIsLost | include/plog/Formatters/CsvFormatter.h:24-26 | The row of a record of the function `operator""_x` does not read back |
| CsvCuts.CutFileReadsBackExactly | include/plog/Formatters/CsvFormatter.h:11-49 | A headed file whose last row is cut short, as by a write not taken whole, reads back to all its rows if and only if only the line feed is missing, or an empty message with its quotes |
| CsvCuts.CutRowReadsBackExactly | include/plog/Formatters/CsvFormatter.h:16-49 | The same for a row cut after any number of characters, behind any rows |
| CsvRecords.WrittenRowsDetermineRecords | include/plog/Formatters/CsvFormatter.h:16-49 | The message read is the message or its first 32000 characters and "..."; two records read back alike exactly when they differ in nothing but the cut part of their messages |
| CsvColumns.ColumnsTellRecord | include/plog/Formatters/CsvFormatter.h:11-49 | The row written for a record, parsed, holds under each name of the header the field of that name, read by rules of its own: year, month and day between slashes; hour, minute, second and milliseconds; the literal name of the severity; the thread id; the address; function and line around the last `@`; the message up to 32000 characters |
| CsvColumns.DateIsDate | include/plog/Formatters/CsvFormatter.h:22 | Signed year from 1900, month from 1, day, in this order, the last two with at least two digits |
| CsvColumns.ClockIsClock | include/plog/Formatters/CsvFormatter.h:23 | Hour, minute, second of two digits and milliseconds of three |
| CsvColumns.SeverityNamed | include/plog/Severity.h:16-35 | The names of the severities, in their order |
| EolConverter.FixLineEndings | include/plog/Converters/NativeEOLConverter.h:23-41 | The loop puts a carriage return before every line feed |
| EolConverter.UndoneFixed | include/plog/Converters/NativeEOLConverter.h:23-41 | Removing one carriage return before each line feed gives the text back, also when it held carriage returns |
| EolConverter.FixedConcat | include/plog/Converters/NativeEOLConverter.h:23-41 | Converting record by record is converting the whole log |
| EolConverter.FixedLength | include/plog/Converters/NativeEOLConverter.h:25-26 | Adds one character per line feed and stays within the reserved 2n |
| EolConverter.ConvertedFileRoundTrip | include/plog/Converters/NativeEOLConverter.h:12-20 | A file whose header and rows went through this converter one by one, on Windows, is the whole file converted, and undone it still reads back to its rows |
| LoggerGraph.EndsExactlyWithoutCycle | include/plog/Logger.h:42-56 | The calls nest no deeper than there are loggers if and only if no call comes back to a logger it has passed; cycles that no record of the severity can reach from this logger do not matter |
| LoggerGraph.MutualLoggers | include/plog/Logger.h:50-56 | Two loggers in each other's lists, which `addAppender`'s assertion does not see: calls nest to any depth |
| LoggerGraph.AdmitsByOrder | include/plog/Logger.h:37-40 | A logger whose limit is the i-th severity admits the j-th if and only if j <= i, in the order of the list of severities |
| LoggerGraph.PathOpensExactly | include/plog/Logger.h:42-56 | A record of the j-th severity gets along a path of nested loggers if and only if none of them has a limit before j |
| FanOut.Logger.Forward | include/plog/Logger.h:50-56 | Without such a cycle `operator+=` ends, and the writes that reach appenders are the depth-first flattening of the graph |
| FanOut.Logger.Write | include/plog/Logger.h:42-48 | The same if the logger itself admits the severity, and nothing otherwise |
| FanOut.WriteAddsNothingExactly | include/plog/Logger.h:42-48 | What `write` adds is empty exactly for severities after the logger's limit, and where there is nothing to deliver |
| FanOut.Logger.AddAppender | include/plog/Logger.h:20-25 | Puts the appender last |
| FanOut.DeliveriesAreExactly | include/plog/Logger.h:42-56 | One delivery for each path of admitting loggers to an appender, in left-to-right order, and no other, against a definition of paths without recursion over loggers |
| FanOut.LoweredStaysAcyclic | include/plog/Logger.h:32-40 | Lowering maximum severities closes no cycle |
| FanOut.LoweringLeavesOutOfRuns | include/plog/Logger.h:32-40 | Lowering maximum severities turns the deliveries of any run without a cycle into a subsequence, in the same order |
| FanOut.AddedAppenderComesLast | include/plog/Logger.h:20-25 | An added appender or logger that closes no cycle is served after everything served before, which does not change, and delivers what it would on its own |
| ObjectPool.Pool.GetTag | LogicLib/UserManager.cpp:21-22 | The pool's `GetTag` (Common/ObjectPool.h, lines 73 to 87) takes the number at the front of the queue, or answers -1 when there is none |
| ObjectPool.Pool.ReleaseTag | LogicLib/UserManager.cpp:48 | The pool's `ReleaseTag` (Common/ObjectPool.h, lines 90 to 96) puts any number at the back of the queue, unchecked |
| ObjectPool.Pool.constructor | LogicLib/UserManager.cpp:9-12 | After the pool's `Init` (Common/ObjectPool.h, lines 46 to 57) all slots are free, in order |
| UserManager.Manager.AddUser | LogicLib/UserManager.cpp:14-31 | The whole new registry for every state of the pool; the duplicate-id code exactly when the id is taken, and then nothing changes; an existing session keeps its entry; says so when the tag is no slot |
| UserManager.Manager.RemoveUser | LogicLib/UserManager.cpp:33-51 | The whole new registry: entries erased, the slot number kept in the user put back into the queue, the users as before; the error code exactly for a session that is not registered |
| UserManager.Manager.GetUser | LogicLib/UserManager.cpp:53-68 | The error code and the user object of the session's slot |
| UserManager.Manager.FindUser | LogicLib/UserManager.cpp:70-80 | The registered user or none |
| UserManager.EnterLobby | LogicLib/User.cpp:54-58 | Changes the session's user and no other slot |
| UserManager.LeaveLobby | LogicLib/User.cpp:60-63 | Changes the session's user and no other slot |
| UserManager.EnterRoom | LogicLib/User.cpp:70-75 | Changes the session's user and no other slot |
| UserManager.User.Init | LogicLib/User.cpp:5-8 | Keeps the slot number, as 16 bits |
| UserManager.User.Set | LogicLib/User.cpp:20-27 | Confirmed, logged in, with session and id; the rest is left |
| Registry.RunKeepsConsistent | LogicLib/UserManager.cpp:14-80 | For every pool of at most 32768 slots and every run, repeated logins and an exhausted pool included: no slot is free twice, and each registered session has a slot that is not free, whose user holds that session and its own slot number and is confirmed; `GetUser` never answers not-confirmed |
| Registry.UserTellsItsHistory | LogicLib/User.cpp:20-75 | Over every run, the user of a registered session holds the id given by the login that registered it, the session and its slot number; its state is that of the session's last move since, else that of a login; its lobby and room are those entered last since, else those the slot's earlier user left |
| Registry.AddKeepsConsistent | LogicLib/User.cpp:5-8 | A login that succeeds on a new session keeps this exactly when its slot number fits in 16 bits; every other login keeps it |
| Registry.SlotOutgrowsShort | LogicLib/User.cpp:5-8 | In every larger pool a run of logins breaks it: the user in slot 32768 keeps -32768, which its removal puts into the queue; in a pool of 32769 the next login gets that |
| Registry.ShortExact | LogicLib/User.cpp:5-8 | What is kept of a slot number lies in 16 signed bits and differs from it by a multiple of 65536; it is the number itself exactly up to 32767 |
| Registry.RemoveKeepsConsistent | LogicLib/UserManager.cpp:33-51 | A removal succeeds exactly for a registered session, gives back exactly its slot and changes no user |
| Registry.SessionsApart | LogicLib/UserManager.cpp:27-28 | Distinct sessions have distinct slots |
| Registry.LiveSlotsExactly | LogicLib/UserManager.cpp:14-51 | The slots in use are those of the registered sessions if and only if no session logged in again before its removal; every repeated login costs one slot; free slots and slots in use add up to the pool |
| Registry.SlotsAreConserved | LogicLib/UserManager.cpp:14-51 | Free slots, registered sessions and repeated logins add up to the same number throughout |
| Registry.RunsOutExactly | LogicLib/UserManager.cpp:21-22 | A login whose id is not taken finds no slot exactly when registered sessions and repeated logins make up the pool |
| Registry.RepeatedLoginRunsOut | LogicLib/UserManager.cpp:21-28 | In a pool of two one session logs in twice and out again; then one other session fills the pool |
| Registry.SlotsAreFifo | LogicLib/UserManager.cpp:21-48 | After any run the queue is what was free and what was given back, in this order, without as many from the front as were taken |
| Registry.LoginThenLogout | LogicLib/UserManager.cpp:14-51 | A login, anything on other sessions, and the removal give the slot back, which nobody had meanwhile |
| Registry.IdTakenUntilFreed | LogicLib/UserManager.cpp:42-46 | The address of an id, once taken, is taken at every later moment of a run if and only if no removal that succeeds has its local copy at this very address |
| Registry.IdFreedExactly | LogicLib/UserManager.cpp:42-46 | After login and logout the id can log in again if and only if the local copy was at the address of the original |
| Registry.SecondLoginRejected | LogicLib/UserManager.cpp:16-19 | A concrete user whose second login is refused |

## Left out

- LogRecovery.FilesHoldASuffix: takes each write call whole or not at all, because a row cut short and followed by another runs into it; what holds with short writes is `LogBytes.BytesHoldASuffix`, and which cuts at the end of a file read back `CsvCuts.CutFileReadsBackExactly`.
- LogRecovery.FilesHoldASuffix: takes records whose printed pointer and function name hold no separator, quote or line feed, the exact condition for their rows to be readable (`CsvExact.RecordReadsBackExactly`).
- EolConverter.ConvertedFileRoundTrip: is about whole files; the runs with crashes use the plain converter.
- LogAtomic.ConcurrentRunsAreSequential: is about runs whose process stops between writes only; for the others `LogAtomic.WritesAreAtomic`, `LogBytes.BytesHoldASuffix` and `LogSpace.EveryFileIsBounded` say what holds.
- RollShift.RollIsExactShift: is about rolls in which nothing is refused; `RollShift.RollWithRefusals` has the others.
- Accounting.RetentionAndSpace: has no failing calls and no stop inside a roll, where numbers may go missing; what holds there too is in `LogPhases.EveryMoment` and `LogSpace.EveryFileIsBounded`.
- UserManager.Manager.AddUser: ends with `OutsidePool` where the pool's tag is no slot; the source then uses an element outside the pool, about which nothing can be said.
- FanOut.Logger.Forward: asks that no admitting logger leads back to one passed before; else the source calls itself without end (`LoggerGraph.EndsExactlyWithoutCycle`).
- An object pool before `Init` and after `Release`, a second `Init`, and the pool's own mutex.
- A successful open can seek, and nobody else changes the files while the log is open. Directories are not modelled: a rename into a missing one is a refused rename.
- Text is a sequence of characters, each one byte; conversion from wide characters and code pages is left out. A message is what `getMessage` returns, so without anything after a NUL.
- Sizes and counts are unbounded integers; `off_t` and `int` are assumed wide enough.
- The time, thread id, pointer text and function name of a record are given; `processFuncName` and `localtime` are not modelled.
- The text, message-only and function-message formatters, the console, debug, Android, event-log and registry appenders, and `init`.
- Lobby and room numbers are taken as the 16-bit arguments they already are.
- Looking up users by the content of their id: the index compares addresses, so no such claim follows.
- Lobbies, rooms, packets, sockets and threads of the server: short glue, declarations, or not part of this model.
