# systemd-cron, modelled and proved in Dafny

systemd-cron translates crontabs into systemd units. This project models the three parts of it in
which the most can go wrong, and proves what its documentation promises of them, or exactly how far
that goes.

* **The batch queue.** `loadavg_dam` and `throttle_group` run as `ExecStartPre=` helpers of any
  number of jobs and agree, over one shared 64-bit word and without a lock, whose job may start.
  `Timespecs`, `SharedWord` and `JobSlot` model the clock arithmetic, the packed word and the
  lock-free loop; `LoadavgDam` adds the 30 s rule; `Survey` models a look at the other units, with
  replies in any order; `ThrottleGroup` puts all of it next to a systemd that starts and stops main
  processes, and proves safety over every run; `ThrottleLimits` builds runs that show where the
  promises end, and that waiting jobs do not hold each other up.
* **The crontab-line compiler.** `Basics`, `Tokens` and `Text` are the string handling underneath;
  `CronFields` parses one time field; `Progressions` treats its index loop on machine words;
  `CronSyntax` gives fields a meaning as sets and proves when the parser finds it, `CronRandom` does
  so for random ranges; `Calendar` is a reader for the emitted part of systemd.time(7), written from
  the manual; `Schedule` reads emitted text back; `CronLine` and `CronMeaning` treat whole lines;
  `Jobs` has the methods that fill in a job's fields; `UnitNames` the names of units, and
  `HashedText` which lines share one; `Environment` the jobs of a file and the variables each sees.
* **The `%` and standard-input pipeline.** `Stdin` splits and unescapes the command, `Base64`
  encodes what is left for `StandardInputData=`, `Scriptlet` writes the command's own words, and
  `Description` quotes the line for the journal.

Code that changes things step by step is modelled by classes and loops whose contracts tie them to
functions (`Survey.Inquiry`, `Tokens.Tokeniser`, `Base64.Encoder`, `Stdin.Command`, `Jobs.Job`,
`UnitNames.Namer`); the theorems are about those functions. The protocol is a transition system: load,
clock reading, listing, each reply, compare-exchange, main start and main exit are separate steps of
any number of processes. Clocks, process IDs, random draws, MD5 and mbrlen(3) are parameters.

## Named assumptions

* `JobSlot.UptimeFits`: the monotonic clock's seconds fit 32 bits (136 years of uptime).
* `ThrottleGroup.WinnersVisibleInTime`: a winner shows as running, or is gone, before the coarse clock
  is more than 5 s past the time it stored; `VisibleWithinFiveSecondsLessATick` gives a simple bound.
  `ThrottleLimits.VisibilityIsNeeded` shows that mutual exclusion fails without it.
* In `ThrottleGroup`, units stay loaded, the unit that is asking is told apart from all others, replies
  tell what systemd holds when they are sent, and exit timestamps last until the next main start. A
  unit may show any state at any time, whether or not its main process runs.

## Where the code and its documentation differ

The model follows the code.

* The CHANGELOG promises five minutes after *a* job exited. A unit leaves itself out of its survey, so
  the promise holds after the exit of every *other* job of the group and fails after its own
  (`FiveMinutesAfterExit`, `OwnExitDoesNotCount`, `FiveMinutesExactly`); crontab(5) says "another".
* crontab(5) lets a line with both day fields restricted run when either matches. The emitted calendar
  takes both together (`EitherDayRule` says exactly when that is the same).
* crontab(5) allows names of months. Outside random ranges, an element with a name for one of its
  bounds is always rejected there (`MonthNamesRejected`). A lone `sun` selects the whole week
  (`DowNameMeaning`). Ranges of weekday names, which crontab(5) does not allow, work.
* A random range `a~b` can draw `b + 1`, and with the start left out the first day or month is never
  drawn (`RandomMeaning`, `NumericRanges`). Ends that cannot be parsed are not rejected: `foo~5` draws
  from 0 on where the field begins with 0, and `jan~5` always draws January (`NameThenNumber`).
* A step of 0 never ends (`LoopEnds`, `HangsExactly`), and a step whose first addition wraps around
  selects values below its start (`CollectIsProgression`); numbers near or above 2^64 are rejected
  even as ends of ranges that select something (`ElementMeaning`).
* A weekday field of commas only is accepted and leaves only a blank before the date, which is not
  read, so that the job runs on every weekday (`AcceptedReadsBack`).
* `CRON_UNIQUE_UNITS` without `PERSISTENT` hashes only the command (`SharedNames`).
* Persistent jobs are told apart by their schedules, but a dash in a random month can be taken for the
  one between month and day: `0 0 5,6~7 1~2,3-4 *` and `0 0 4-5,6~7 1~2,3 *` get the same name
  (`SharedByDifferentLines`; `SameHashedText` and `DashIsAmbiguous` say when that is so).
* What a job reads on standard input can never hold a backslash just before a new-line
  (`InputsThatCanBeGiven`).

## Model

| member | source | states |
|---|---|---|
| `Timespecs.Minus` | src/include/libvoreutils.hpp:471-480 | Subtraction with a borrow is exact in nanoseconds and gives a normal timespec again. |
| `Timespecs.Greater` | src/include/libvoreutils.hpp:461-464 | The comparison agrees with that of nanoseconds on normal timespecs. |
| `SharedWord.FoldPid` | src/include/shmemutil.hpp:22-28 | The loop leaves the xor of the process ID's 22-bit parts. |
| `SharedWord.Truncation` | src/include/shmemutil.hpp:22-33 | A stored time is never later than the one packed, and at most 976562 ns earlier. |
| `SharedWord.PidHashFolds` | src/include/shmemutil.hpp:22-28 | The hash is the process ID xor itself shifted by 22 bits, in 22 bits. |
| `SharedWord.PidKept` | src/include/shmemutil.hpp:22-28 | A process ID of at most 22 bits is kept as it is. |
| `JobSlot.StoredIncreases` | src/bin/loadavg_dam.cpp:36-50 | Stored times strictly increase from one winner to any later one. |
| `JobSlot.NoRecurrence` | src/bin/throttle_group.cpp:221-296 | A value of the word never recurs: a loaded word equals the current one just if nobody has won since. |
| `JobSlot.StepKeepsInv` | src/bin/loadavg_dam.cpp:36-50 | Every step of every process keeps the queue's invariant. |
| `JobSlot.SuccessMeansUntouched` | src/bin/loadavg_dam.cpp:37-48 | In every run, a successful exchange means that the word was the same at every step since this process loaded it. |
| `JobSlot.FailureMeansProgress` | src/bin/throttle_group.cpp:293-296 | In every run, an exchange fails only if another process's exchange succeeded between this one's load and its attempt. |
| `JobSlot.WinningAttemptsDisjoint` | src/bin/throttle_group.cpp:214-299 | In every run, no two winning attempts overlap from load to exchange, and no two winners started from the same word. |
| `JobSlot.WinsSpaced` | src/bin/loadavg_dam.cpp:37-48 | A winner's clock reading exceeds every earlier winner's by more than its own threshold less one tick. |
| `LoadavgDam.DispatchRate` | src/bin/loadavg_dam.cpp:36-50 | In every run, a window of clock time holds at most one dispatch more than the number of spacings (30 s less a tick) it spans. |
| `LoadavgDam.DamGapExactly` | src/bin/loadavg_dam.cpp:37-41 | In every run, a process that reads the clock goes on just if more than 30,000,000,000 ns have passed since the stored time it loaded. |
| `LoadavgDam.RateReached` | src/bin/loadavg_dam.cpp:36-50 | For any number of processes and any time after the first 30 s, a run that dispatches one of them every 30 s and a nanosecond. |
| `LoadavgDam.SpacingReached` | src/bin/loadavg_dam.cpp:37-48 | A run in which two dispatches are exactly the guaranteed spacing apart. |
| `Survey.AbsorbKeepsConsistent` | src/bin/throttle_group.cpp:109-171 | Every reply, in whatever order, keeps the survey's fields consistent with the unit's group membership, timestamps and verdict. |
| `Survey.ProceedMeansQuiet` | src/bin/throttle_group.cpp:281-291 | A finished survey lets the job go only if every group unit was not running and exited at least 300 s before. |
| `Survey.ExpectedUnique` | src/bin/throttle_group.cpp:281-291 | The order-free description of the right answer leaves one answer. |
| `Survey.SurveyConfluent` | src/bin/throttle_group.cpp:240-291 | For all units and every order of replies, short-circuited or not: proceed just if no group unit runs and all exited 300 s ago; else sleep 300 s if one runs; else the longest remaining time. |
| `Survey.BelongsExactly` | src/bin/throttle_group.cpp:118-125 | A unit is of the group just if one of its commands begins with `self group` or `self -- group`. |
| `Survey.StatesDecide` | src/bin/throttle_group.cpp:125-171 | Units in activating/start-pre, inactive or failed whose last run ended five minutes ago hold nobody up; one that is active, reloading, or activating otherwise always does, for 300 s. |
| `Survey.SurveyProgresses` | src/bin/throttle_group.cpp:267-278 | Until the survey is finished some reply can come, and each leaves fewer to come. |
| `Survey.Inquiry.ExecStartPre` | src/bin/throttle_group.cpp:109-152 | The callback's loop over commands does what one reply is specified to do. |
| `Survey.Inquiry.ExecMainOneTimestamp` | src/bin/throttle_group.cpp:154-171 | So does the callback for the two timestamps; the second to come decides. |
| `Survey.Inquiry.Decide` | src/bin/throttle_group.cpp:281-291 | The fold over the list gives the verdict of the survey. |
| `Survey.Conduct` | src/bin/throttle_group.cpp:240-291 | A whole survey, reply by reply, ends in the one expected answer. |
| `ThrottleGroup.VisibleWithinFiveSecondsLessATick` | src/bin/throttle_group.cpp:223-230 | Becoming visible within 5 s less a tick of the clock reading is enough for the named assumption. |
| `ThrottleGroup.GapOutlivesPending` | src/bin/throttle_group.cpp:221-230 | Who passes the gap test on the newest word knows that no winner is still on its way to becoming visible. |
| `ThrottleGroup.QuietAtExchange` | src/bin/throttle_group.cpp:163-296 | A survey that says proceed, on a word untouched since, means that no group unit runs, whatever state it shows, and all exited 300 s ago. |
| `ThrottleGroup.StepKeepsInv` | src/bin/throttle_group.cpp:214-299 | Every step of the helpers and of systemd keeps the invariant. |
| `ThrottleGroup.NoTwoJobsRun` | src/bin/throttle_group.cpp:214-299 | In every run in which winners become visible in time, no two jobs of one group ever run at once. |
| `ThrottleGroup.FiveMinutesAfterExit` | src/bin/throttle_group.cpp:214-299 | In every such run, a job's start timestamp is at least 300 s after every earlier exit timestamp of another job of its group. |
| `ThrottleGroup.RefinesQueue` | src/bin/throttle_group.cpp:214-299 | Whatever systemd does, the word and the processes run as the plain queue does. |
| `ThrottleGroup.DispatchesExclusive` | src/bin/throttle_group.cpp:221-296 | Spacing and disjoint winning attempts, for every run with throttle groups. |
| `ThrottleGroup.HelperGapExactly` | src/bin/throttle_group.cpp:185-230 | In every run, a helper that reads the clock goes on just if more than 5 s, or 30 s for one with a load target, have passed since the stored time it loaded. |
| `ThrottleGroup.NeverStuck` | src/bin/throttle_group.cpp:214-299 | In every run, a helper that has not won can take a step or receive a reply, and one told to sleep begins again. |
| `ThrottleLimits.WaitersDoNotBlock` | src/bin/throttle_group.cpp:126-127 | For any unit of a group and any others, a run within all assumptions in which it wins while they wait, all of them shown in activating/start-pre. |
| `ThrottleLimits.VisibilityIsNeeded` | src/bin/throttle_group.cpp:223-230 | For any two units of a group in any configuration, a run within all other bounds in which both run at once. |
| `ThrottleLimits.OwnExitDoesNotCount` | src/bin/throttle_group.cpp:254-256 | For any unit of a group in any configuration, a run within all assumptions in which it starts six seconds after its own exit. |
| `ThrottleLimits.FiveMinutesExactly` | src/bin/throttle_group.cpp:214-299 | Of two units of a group, the second can start less than 300 s after an exit of the first just if they are the same. |
| `Tokens.Tokeniser.Next` | src/include/libvoreutils.hpp:308-321 | One step yields the next maximal run, or an empty token when there is none. |
| `Tokens.Tokenise` | src/include/libvoreutils.hpp:295-347 | Iteration ends and yields, in order, exactly the maximal nonempty runs without delimiters. |
| `Tokens.RunsTokenise` | src/include/libvoreutils.hpp:308-321 | The runs are apart, maximal, in order, and cover every other character. |
| `Tokens.TokenisationUnique` | src/include/libvoreutils.hpp:308-321 | Only one list of views is like that. |
| `Text.IntMapExactly` | src/include/libvoreutils.hpp:374-392 | For every text: it is taken for a number just if it is blanks, perhaps a sign, and digits of a value below 2^64, with no minus at the front; what follows a NUL is not looked at. |
| `CronFields.InsertRange` | src/bin/systemd-crontab-generator.cpp:1304-1309 | The machine-word index loop adds exactly what it is specified to collect, and says whether that is anything. |
| `CronFields.ParsePeriod` | src/bin/systemd-crontab-generator.cpp:1248-1310 | One list element: the outcome, and the set grown by it and by nothing else. |
| `CronFields.ParseTimeUnit` | src/bin/systemd-crontab-generator.cpp:501-536 | A field is merged element by element, up to the first that is not accepted. |
| `CronFields.MergeIsUnion` | src/bin/systemd-crontab-generator.cpp:522-535 | A list has values just if each element is added, and then is their union; if one is rejected and none hangs it is invalid; it is random just if one is. |
| `Progressions.CollectIsProgression` | src/bin/systemd-crontab-generator.cpp:1304-1308 | The loop visits exactly the entries at `i + m * step` below its end just if no addition wraps around, save for one step between the two Sundays. |
| `Progressions.LoopEnds` | src/bin/systemd-crontab-generator.cpp:1305-1308 | With machine-word addition the index reaches the end, or passes it, just if the step is not zero. |
| `Progressions.HangsExactly` | src/bin/systemd-crontab-generator.cpp:1265-1308 | A range or `*` hangs just if its loop is entered and the index stays below the end after any number of rounds. |
| `CronSyntax.ElementMeaning` | src/bin/systemd-crontab-generator.cpp:1248-1310 | For every element of numbers and names, with no limit on the numbers: what makes no sense is rejected; of the rest, exactly the selected values are added just if the element is manageable, which is decided from its text. |
| `CronSyntax.AcceptedForms` | src/bin/systemd-crontab-generator.cpp:1254-1294 | Whatever its text, no element with a second slash is accepted, none with a second `~` before the slash, and none else with a second dash. |
| `CronSyntax.FieldMeaning` | src/bin/systemd-crontab-generator.cpp:501-536 | A whole field, however its commas are put: what makes no sense has no values; what makes sense loses none, and has exactly the values its elements select just if each is manageable or adds only what others select. |
| `CronRandom.RandomMeaning` | src/bin/systemd-crontab-generator.cpp:1259-1288 | `a~b` with anything on its sides and any step: rejected just if the step is no number or there is nothing to draw; if the ends mean something, every value added was promised just if what is drawn is inside of what was written, and every value promised can be added just if it is the other way round. |
| `CronRandom.NumericRanges` | src/bin/systemd-crontab-generator.cpp:1279-1287 | With numbers of any size for ends, or none: the first is so just if the end is the field's, or weekday 6 from 0; the second just if the end does not wrap around and the start is given or the field begins with 0. |
| `CronRandom.MonthRange` | src/bin/systemd-crontab-generator.cpp:1219-1234 | Between two names of months, each by its first three letters in any case, one is drawn from the first's number to one past the last's, or to 12. |
| `CronRandom.NameThenNumber` | src/bin/systemd-crontab-generator.cpp:1219-1234 | With a month's name before the `~` and a number after it, January draws January and every other name is rejected. |
| `CronSyntax.DayFound` | src/bin/systemd-crontab-generator.cpp:1237-1247 | The code's table gives `sun` to `sat`, in any case and with anything after them, the numbers 0 to 6, and Sunday 7 at the end of a range. |
| `CronSyntax.MonthFound` | src/bin/systemd-crontab-generator.cpp:1219-1234 | And `jan` to `dec` the numbers 1 to 12. |
| `CronSyntax.MonthNamesRejected` | src/bin/systemd-crontab-generator.cpp:1219-1302 | In a month field every number, range and step with a name for a bound is rejected. |
| `CronSyntax.DowNameMeaning` | src/bin/systemd-crontab-generator.cpp:1237-1310 | A weekday's name selects that weekday, a lone Sunday the whole week. |
| `Schedule.ReadCommaList` | src/bin/systemd-crontab-generator.cpp:721-743 | A written list reads back as a component that matches exactly the set. |
| `Schedule.ListAscends` | src/bin/systemd-crontab-generator.cpp:721-743 | A list is written in ascending order, each value once. |
| `Schedule.ScheduleReadsBack` | src/bin/systemd-crontab-generator.cpp:685-764 | The written schedule reads back as an event that occurs exactly when all parsed fields say so. |
| `CronLine.FieldAlike` | src/bin/systemd-crontab-generator.cpp:501-536 | Two parses that draw differently agree on validity, on randomness, and on all values if there is no randomness. |
| `CronLine.NameIsStable` | src/bin/systemd-crontab-generator.cpp:685-764 | Two runs of the generator that draw differently agree on whether a persistent line is valid and on its schedule_raw. |
| `CronMeaning.AcceptedReadsBack` | src/bin/systemd-crontab-generator.cpp:685-764 | For every accepted line, what is read of the OnCalendar= setting occurs exactly when the parsed fields say so, just if the weekday field is more than commas; otherwise as if it were `*`. |
| `CronMeaning.FormsRecognised` | src/bin/systemd-crontab-generator.cpp:447-454 | The forms with L are taken for what they are, and no other line is. |
| `CronMeaning.CompilationPreservesMeaning` | src/bin/systemd-crontab-generator.cpp:432-764 | For every line of numbers, names, ranges, steps and lists, however its commas are put, and of the L forms: its setting reads back as occurring exactly when the fields are due together just if all fields make sense and keep their values. What makes no sense is never accepted. |
| `CronMeaning.WeekdayNameKept` | src/bin/systemd-crontab-generator.cpp:1237-1247 | For every accepted line with a weekday's name, what is read of the setting occurs exactly at the times of the line with `*` that fall on that day, and the setting is that day's name and the other line's; a lone Sunday leaves out no day. |
| `CronMeaning.WeekIsOrdered` | src/bin/systemd-crontab-generator.cpp:457-464 | Weekdays are written in order, with Sunday at the end just if the field ends with 7 or the name of Sunday, else at the front. |
| `CronMeaning.NotBothLast` | src/bin/systemd-crontab-generator.cpp:447-454 | A line with `L` for the day and after a weekday is never accepted. |
| `CronMeaning.EitherDayRule` | src/bin/systemd-crontab-generator.cpp:744-758 | Taking both day fields together is the either-day rule just if one is `*` or neither leaves out a day. |
| `CronMeaning.LastWeekdayIsUnique` | src/bin/systemd-crontab-generator.cpp:447-454 | For every month length and first weekday, a weekday with L is due on exactly one day, the month's last such weekday. |
| `Jobs.Job.ParseCrontabTimespec` | src/bin/systemd-crontab-generator.cpp:432-465 | The job's fields and its validity are those of the compiled line. |
| `Jobs.Job.TimespecComma` | src/bin/systemd-crontab-generator.cpp:721-743 | Appends the list to the schedule; to the hashed text of a persistent job, the raw field if there is one, else the list. |
| `Jobs.Job.GenerateScheduleFromTimespec` | src/bin/systemd-crontab-generator.cpp:685-764 | Writes the specified schedule and hashed text, or marks the job invalid just if a field is empty. |
| `Jobs.Job.Translate` | src/bin/systemd-crontab-generator.cpp:432-764 | From five words to schedule, hashed text and validity. |
| `HashedText.RandomExactly` | src/bin/systemd-crontab-generator.cpp:501-536 | A field with values is random just if there is a `~` in it. |
| `HashedText.HashedTextIs` | src/bin/systemd-crontab-generator.cpp:707-764 | The text, piece by piece: each field with a `~` as it stands in the line, every other as it stands in the schedule. |
| `HashedText.FixedIsSchedule` | src/bin/systemd-crontab-generator.cpp:707-764 | With no `~` in the line it is the schedule. |
| `HashedText.SameHashedText` | src/bin/systemd-crontab-generator.cpp:707-764 | Two persistent lines share it just if they are of the same form, with the same words in all random fields and the same values in all others, as long as no random word holds what separates it from the next piece. |
| `HashedText.DashIsAmbiguous` | src/bin/systemd-crontab-generator.cpp:744-752 | Lines alike but for random months and days share it just if month, dash and day are the same when run together. |
| `HashedText.SharedByDifferentLines` | src/bin/systemd-crontab-generator.cpp:744-752 | Two such lines, whatever is drawn. |
| `HashedText.PersistentNames` | src/bin/systemd-crontab-generator.cpp:1027-1044 | So two persistent jobs with the same command hash the same bytes just if their lines are the same in that sense. |
| `UnitNames.HashInput` | src/bin/systemd-crontab-generator.cpp:1034-1043 | The updates feed MD5 the schedule and the nonempty words, with NULs between. |
| `UnitNames.PreimageReads` | src/bin/systemd-crontab-generator.cpp:1034-1043 | Cut at the NULs, the hashed bytes are the schedule and the nonempty words in their order. |
| `UnitNames.PreimageInjective` | src/bin/systemd-crontab-generator.cpp:1034-1043 | Without NULs in them, the hashed bytes are equal just if schedules and nonempty words are. |
| `UnitNames.Namer.GenerateUnitName` | src/bin/systemd-crontab-generator.cpp:1027-1049 | The name, and one counter advanced just if it is numbered. |
| `UnitNames.NameAll` | src/bin/systemd-crontab-generator.cpp:1312-1318 | A whole run names every active job by its jobid's own counter, or by its hash. |
| `UnitNames.CounterIsCount` | src/bin/systemd-crontab-generator.cpp:1027-1032 | A numbered job's number is how many active jobs of its jobid were numbered before it. |
| `UnitNames.NumberedNamesDistinct` | src/bin/systemd-crontab-generator.cpp:1027-1049 | Over a whole run of fewer than 2^64 jobs, a numbered unit has no other unit's name, numbered or hashed. |
| `UnitNames.HashedNameIsStable` | src/bin/systemd-crontab-generator.cpp:1027-1044 | A persistent job's name does not depend on random draws. |
| `UnitNames.SharedNames` | src/bin/systemd-crontab-generator.cpp:707-718 | Of two jobs with the same command, the hashed bytes are equal just if they are not persistent or their schedules are written the same. |
| `Environment.ClassifyExactly` | src/include/util.hpp:29-34 | A line is an assignment of a value to a key just if the regular expression matches it with these. |
| `Environment.LineExactly` | src/bin/systemd-crontab-generator.cpp:1164-1184 | A line is a job just if what it says between blanks is not empty, no comment and no assignment, with that for its text; it sets a variable just if what it says is an assignment; all others are skipped. |
| `Environment.ParseCrontab` | src/bin/systemd-crontab-generator.cpp:1163-1200 | The jobs are, one to one and in order, the lines of the file that are jobs, each with what its line says; for each variable it sees the last assignment above it without quotes, `PERSISTENT=auto` acting as unset, else what was inherited. |
| `Environment.LinesBelowDoNotMatter` | src/bin/systemd-crontab-generator.cpp:1163-1200 | What a job sees is fixed by the lines above it. |
| `Environment.BareInQuotes` | src/bin/systemd-crontab-generator.cpp:1176-1177 | A value is what is left of it with some quotes before it and their mirror image after it. |
| `Environment.BareIsUnique` | src/bin/systemd-crontab-generator.cpp:1176-1177 | And nothing else without quotes around it is. |
| `Base64.QuadIsNumber` | src/include/util.hpp:50-63 | Four digits are the same 24-bit number as the three bytes they stand for. |
| `Base64.DecodeEncode` | src/include/util.hpp:38-76 | The standard's decoder undoes the one-shot encoding. |
| `Base64.BitsDisjoint` | src/include/util.hpp:52-57 | Between feeds 0, 2 or 4 bits are pending and the unused bits are zero, so that `or` joins disjoint bits. |
| `Base64.FinishCompletes` | src/include/util.hpp:65-75 | What finish adds completes the encoding of all bytes fed. |
| `Base64.Encoder.Feed` | src/include/util.hpp:50-63 | Feeding in pieces leaves the encoder as feeding byte by byte does. |
| `Base64.EncodePieces` | src/include/util.hpp:46-75 | For any way of cutting bytes into feeds, the output is the one-shot encoding and decodes to the bytes. |
| `Stdin.UnescapeUpTo` | src/bin/systemd-crontab-generator.cpp:766-784 | Unescaping up to the leftmost escaped `%` is character-by-character unescaping. |
| `Stdin.InputsThatCanBeGiven` | src/bin/systemd-crontab-generator.cpp:766-1000 | The texts that a line can put on standard input are just those without a backslash before a new-line. |
| `Stdin.FeedUnescaped` | src/bin/systemd-crontab-generator.cpp:766-784 | Segment by segment, exactly the unescaped text is fed. |
| `Stdin.Command.ParsePercent` | src/bin/systemd-crontab-generator.cpp:485-499 | The words are cut at the first unescaped `%` in them, the input is the rest of the line, and nothing else changes. |
| `Stdin.Command.StandardInputData` | src/bin/systemd-crontab-generator.cpp:984-1000 | The emitted text decodes to the unescaped input. |
| `Stdin.BareInWordsIsBare` | src/bin/systemd-crontab-generator.cpp:485-499 | A `%` is unescaped in some word just if it is in the raw line, from where the command begins. |
| `Stdin.CommandAndInput` | src/bin/systemd-crontab-generator.cpp:485-1000 | End to end: the cut is at the command's first unescaped `%`, decoding gives all text after it unescaped, and no kept word has an unescaped `%`. |
| `Scriptlet.WriteWord` | src/bin/systemd-crontab-generator.cpp:766-784 | The loop over escaped `%`s writes a word with each of them turned into `%`. |
| `Scriptlet.KeptWordsUnescape` | src/bin/systemd-crontab-generator.cpp:766-784 | In a word of the line without an unescaped `%`, that is the unescaping promised. |
| `Scriptlet.ScriptOf` | src/bin/systemd-crontab-generator.cpp:1061-1073 | The script of a line is the words of its command up to the first unescaped `%`, each unescaped, the empty ones left out, with blanks between them, and with the home directory for a `~` before the first slash. |
| `Description.DescribeLine` | src/bin/systemd-crontab-generator.cpp:814-850 | For every line, text or not, the lazily copied description is the character-by-character escaping. |
| `Description.UnhexedHexAll` | src/bin/systemd-crontab-generator.cpp:826-838 | Bytes that are no text are written as two hexadecimal digits each, and read back. |
| `Description.WriteQuoted` | src/bin/systemd-crontab-generator.cpp:931-943 | The loop over runs quotes character by character. |
| `Description.DescriptionRoundTrip` | src/bin/systemd-crontab-generator.cpp:814-948 | Undoing the quoting and then `%%` gives the line back just if it is whole characters throughout. |

## Left out

- D-Bus: messages that cannot be read, requests that fail, and the sd-bus event loop; each requested reply comes once, in any order.
- The load average: a test that may fail at any time, so that it is part of the queue's giving up; parsing of the floating-point argument.
- Sleeping: how long a process waits before it tries again changes nothing of what is proved, so processes may try at any time.
- Shared memory: opening, sizing and mapping the word.
- Unit names with `@` and units that are not loaded, which are left out of the listing.
- MD5: a function whose result is 32 hexadecimal digits; nothing is said about collisions.
- mbrlen(3): a classifier of the front of a byte string; the shift state is always initial when it is called. That a whole character's count is within the bytes given is built in.
- Description.DescriptionRoundTrip: for encodings in which `%` is always a character by itself, as in UTF-8.
- Base64.Encoder.Feed: `or` is modelled as addition, which BitsDisjoint justifies.
- CronFields.Field: weekdays are the numbers 0 to 6 instead of their names, which the schedule writes.
- CronLine.Compile: a loop that never ends and a read outside a table are one outcome, after which nothing is said.
- HashedText.SameHashedText: which lines share a text when a random hour holds a `:` or random weekdays a `*-`; such words are accepted only for ends that are no numbers.
- CronMeaning.CompilationPreservesMeaning: time zones, and lines with random ranges, for which AcceptedReadsBack and RandomMeaning stand.
- Scriptlet.ScriptOf: whether the user has a home directory is given; left out are `~/` in PATH, the test for a command that is a single file, which needs no script, and anacrontab lines, in which `%` means nothing.
- The text around descriptions: the quotation marks that lines not beginning with a slash get.
- The `@daily` keywords, anacrontabs, mail settings and unit boilerplate, which are tables and easy branches.
- decode_environment: how variables become settings of a job.
- Unit names of cron.daily scripts, which are formed from a file's name.
- src/bin/crontab.cpp and src/bin/crontab_setgid.c: editors, processes, file permissions.
- File discovery, masking, users' home directories, logging.
