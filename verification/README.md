# Verification of launchd

This project models five parts of launchd and proves what they promise, in Dafny 4.11.
`dafny verify dfyconfig.toml` checks all of it.

**Calendar intervals** (`Gregorian`, `Cron`, `CronWeekday`, `CronAnswers`, `CronSearch`,
`CalendarQueue`). launchd finds the next time of a `StartCalendarInterval` by a
field-by-field scan over a `struct tm` that `mktime` normalises. `CronSearch` holds that
scan as methods on a mutable `Tm`; `CronSpec` and `CronWeekdaySpec` give it in closed form
and say exactly when it is right; `CronAnswers` gives answers in seconds for every year and
month. `CalendarQueue` is the sorted queue and its timer callback.

**SystemStarter** (`SchedulerSpec`, `SchedulerSafety`, `SchedulerRuns`, `SchedulerLiveness`,
`SchedulerAnswers`, `Dependents`, `Selections`, `SystemStarter`). The scheduler of startup
items as a state machine whose runs are traces of launches, refusals and exits; safety,
order, conservation and an exact liveness theorem are proved of every run, and the code's
own loops are proved to make such runs. `Dependents` and `Selections` say which items one
service concerns, and in what order.

**launch_data** (`LaunchData`, `CodecRoundTrip`, `CodecLayout`, `CodecPack`, `CodecUnpack`,
`Framing`, `Protocol`, `FramingRuns`, `Connection`). The byte layout of 24-byte nodes,
little-endian words and padded strings, place by place in `CodecLayout`; the packer that fills a buffer; the decoder that overwrites the buffer it
reads and is proved to do what a pure parser of the original bytes does, on machines of
either byte order; and the length-prefixed stream over partial writes and reads.
`Protocol` says what one call to send or to receive does; the methods of `Connection` are
proved to do that, and the runs of `FramingRuns` are made of such calls.

**Jobs** (`ShutdownSpec`, `ShutdownSafety`, `ShutdownProgress`, `ShutdownOrder`,
`ShutdownPass`; `LifecycleSpec`, `LifecycleSafety`, `LifecycleLookup`, `Lifecycle`;
`Throttle`, `ThrottleRuns`; `PerUser`; `NamespaceSpec`, `NamespaceSafety`,
`NamespaceLookup`, `Namespace`). The phases of shutdown over a tree of managers; the
counters, hash indices and idle timer that must agree with the jobs; the
respawn throttle; the suspension of per-user launchds; and the Mach service namespace.

**Transactions** (`Transactions`). The idle-exit count of a process with its asynchronous
gone-to-zero callout.

`Lists` holds the optional value and a few facts about lists that all parts use. In each
part a specification module holds values and functions, lemmas prove properties
of them, and classes and methods follow the code's own loops and assignments and are
proved equal to the specification. An arbitrary environment (exit statuses, answers of
system calls, chunk sizes, order of events) is a parameter or a nondeterministic choice.

Where the code and what is said of it differ, the model follows the code:

- The comment on `appendDependents` (`SystemStarter/StartupItems.c:463`) has the directions
  of start and stop the wrong way round.
- The manual likens calendar intervals to crontab(5) (`man/launchd.plist.5:257`), but the
  weekday search ignores the month; `IntervalExactness` says exactly when an interval is
  set as crontab(5) would have it.
- A wildcard minute asked at minute 59, and a day that its month lacks, are answered with
  times that do not match; `CronExactness` says exactly when.
- `managed_job` (`src/core.c:3358-3370`) enters a global bucket but follows the links of a
  manager's bucket; `FoundOverRuns` says exactly which jobs it finds, `MissedJob` gives a
  run after which it misses one.
- A message whose first write fails, with EAGAIN for one, is continued without its header
  (`liblaunch/liblaunch.c:920-947`, `src/ipc.c:348-350`); `DeliveredExactly` says that
  this is exactly when messages are lost.
- The name of a Mach port is never packed (`liblaunch/liblaunch.c:778-779`), and what the
  buffer held before is decoded in its place; `CarriedExactly` is exact about it.
- The respawn throttle measures from the event being handled (`src/runtime.c:1339-1343`),
  which may be older than the last start; `SpacedExactly` says exactly when starts are
  then too close.
- A shutdown monitor that is itself dirty at shutdown is not waited for;
  `MonitorIsWaitedForUnlessDirty` is exact about it.
- A stub item that SystemStarter does not run on stop counts as a success and is put on
  the failed list as well (`SystemStarter/StartupItems.c:906-917`); `Accounts` includes it.

## Model

| member | source | states |
|---|---|---|
| Gregorian.DateOrder | src/core.c:7788-7958 | the day number of a later date is greater: the fixed-offset calendar on which mktime normalises |
| Gregorian.StampUnique | src/core.c:7788-7958 | normalising a real date and time gives it back, so mktime leaves a normal `struct tm` alone |
| Gregorian.DaysBeforeMonthIs | src/core.c:7788-7958 | in every year the days before each month, counted up month by month, are those of the printed table, a day more after February in leap years |
| Gregorian.SecondsSinceTheEpoch | src/core.c:7788-7811 | from 1970 on, the seconds of every real date and time are those of the formula of POSIX (IEEE Std 1003.1-2017, section 4.16) |
| Gregorian.WeekdayAnchor | src/core.c:7813-7838 | 1 January 1970 was a Thursday, and weekdays follow one another from 0 to 6 |
| CronSpec.FirstInYear | src/core.c:7840-7958 | the nested field-by-field scan never lands before its start nor, but for minute 60, on a stamp the request does not admit |
| CronSpec.NoneMissedInYear | src/core.c:7840-7958 | and passes over no admitted stamp of the year |
| CronSpec.NextStampIsFirst | src/core.c:7788-7811 | the outer search, with at most one step of the year, ends on the first admitted stamp from its start |
| CronSpec.CronTimeIsFuture | src/core.c:7788-7811 | the answer is strictly later than the time of asking, for every request |
| CronSpec.NextMinuteStrays | src/core.c:7942-7958 | asked in minute 59 of a fitting hour, for any minute, the next minute misses the request exactly if an hour is given, or it is 23:59 and a day is given, or also the last day of the month and a month is given |
| CronSpec.CronExactness | src/core.c:7788-7958 | for every request the import accepts and every time of asking: the answer is the least matching minute-aligned instant after now if and only if neither the minute-59 trap nor the missing-day trap applies |
| CronSpec.OrdinaryRequestsAreExact | src/core.c:7788-7958 | days up to 28 and a given minute (or a clock not at minute 59) are always answered exactly |
| CronAnswers.YearDateIsAnswered | src/core.c:7788-7811 | in every year: any date and time of the year, asked at its start, is answered after as many days as the calendar's table says, and its hours and minutes |
| CronAnswers.NextMonthIsAnswered | src/core.c:7840-7908 | in every year, on the first of any month: the first of the next month, or of every month, is answered after 28 to 31 days, as many as the month has |
| CronAnswers.DailyIsAnswered | src/core.c:7910-7958 | at any time: a time of day is answered with that time within 86400 seconds |
| CronWeekdaySpec.WeekdayExactness | src/core.c:7813-7838 | the weekday search gives the least future instant with the weekday (7 is 0), hour and minute, if and only if its minute-59 trap does not apply |
| CronWeekdaySpec.NextMinuteStraysWeekday | src/core.c:7813-7838 | likewise for the weekday search: exactly if an hour is given or it is 23:59 |
| CronAnswers.WeeklyIsAnswered | src/core.c:7813-7838 | at any time: a weekday and a time of day are answered within seven days with that time on that weekday, counted from Thursday, 1 January 1970 |
| CronWeekdaySpec.IntervalTimeIsFuture | src/core.c:5249-5261 | the time chosen between the two searches is in the future |
| CronWeekdaySpec.IntervalExactness | src/core.c:5249-5261 | for every request the import accepts and every time of asking: the time chosen is the next one by the rule of crontab(5) if and only if a condition on the request and the clock holds: an answer with the next minute needs a free hour and a day to choose; otherwise the earlier of the requested date and weekday decides, the date having to exist and the weekday, whose search ignores the month, to fall in it |
| CronWeekdaySpec.MinuteTrapExample | src/core.c:7799 | on every day: any minute of hour 10, asked at 10:59, is answered with 11:00 |
| CronWeekdaySpec.DayTrapExample | src/core.c:7901 | in every year: 30 February is answered with a day in March |
| CronWeekdaySpec.MonthIgnoredExample | src/core.c:5251-5261 | in every year: a weekday in December, asked in January, is answered in January |
| CronSearch.CronMin | src/core.c:7942-7958 | the minute step on a mutable `struct tm` does what the closed form says, or reports failure |
| CronSearch.CronHour | src/core.c:7910-7940 | the hour loop, with its carry test on the normalised time, equals the closed form and terminates |
| CronSearch.CronMday | src/core.c:7876-7908 | the day loop likewise |
| CronSearch.CronMon | src/core.c:7840-7874 | the month loop likewise |
| CronSearch.CronEmu | src/core.c:7788-7811 | the whole search returns the closed form of the clock it read, and its year loop runs at most once |
| CronSearch.CronEmuWday | src/core.c:7813-7838 | the weekday search returns its closed form after at most 7 day steps |
| CalendarQueue.InsertedAllKeeps | src/core.c:5263-5280 | re-inserting intervals keeps the queue sorted and its multiset of intervals |
| CalendarQueue.InsertedInPlace | src/core.c:5263-5280 | an interval goes into the sorted queue behind those due earlier or at the same time and in front of those due later |
| CalendarQueue.RestNotDue | src/core.c:5800-5804 | in a sorted queue the intervals due are exactly the front at which the callback stops |
| CalendarQueue.Calendar.NextTime | src/core.c:5249-5261 | reads the clock for each search and picks between their answers as the code does |
| CalendarQueue.Calendar.SetAlarm | src/core.c:5243-5285 | inserts the interval in its place in the sorted queue with its new time and sets the timer to the head |
| CalendarQueue.Calendar.Callback | src/core.c:5793-5812 | one pass terminates, reschedules exactly the due intervals, each once and into the future, marks exactly their jobs, keeps the queue sorted, and leaves the alarm at the head |
| SchedulerSpec.UnmetCountMeans | SystemStarter/StartupItems.c:548-570 | the count of unmet requirements is zero exactly if every listed service has succeeded |
| SchedulerSpec.MatchingMeans | SystemStarter/StartupItems.c:114-140 | the matches are exactly the items that list the service |
| SchedulerSpec.DependantsCountMeans | SystemStarter/StartupItems.c:571-592 | the count of dependants is zero exactly if no waiting item lists one of the services |
| SchedulerAnswers.UnmetCountIs | SystemStarter/StartupItems.c:548-570 | the count of unmet services is the number of places in the list at which one has not succeeded |
| SchedulerAnswers.DependantsCountIs | SystemStarter/StartupItems.c:571-592 | the count of dependants is the number of pairs of a place in the list and a waiting item that lists the service there |
| SchedulerSafety.StepKeeps | SystemStarter/SystemStarter.c:306-349 | every step keeps: running count equals waiting items with a process, no two of them share a service, and a status comes only from an item removed |
| SchedulerRuns.RunningItems | SystemStarter/SystemStarter.c:306-349 | in every context of every run the running count is exact and no two running items provide a common service |
| SchedulerRuns.StatusIsWrittenOnce | SystemStarter/StartupItems.c:1004-1045 | a recorded service status never changes |
| SchedulerRuns.NoneForASuccessfulService | SystemStarter/StartupItems.c:638-662 | no item is attempted once one of its services has succeeded |
| SchedulerRuns.Accounts | SystemStarter/SystemStarter.c:306-322 | conservation: an item waits exactly if no event removed it, is taken exactly if one attempted it, has failed exactly if one says so |
| SchedulerRuns.OnceEach | SystemStarter/SystemStarter.c:306-322 | each item is attempted at most once and removed at most once |
| SchedulerRuns.RunsAreShort | SystemStarter/SystemStarter.c:306-349 | a run has at most two events an item: the loop terminates |
| SchedulerRuns.EachWaitsOrWasRemoved | SystemStarter/SystemStarter.c:324-332 | when the loop leaves off, each item still waits and was never attempted, or was removed |
| SchedulerRuns.StartOrder | SystemStarter/StartupItems.c:772-776 | on start, each service an attempted item requires came from an item that exited cleanly before |
| SchedulerRuns.StopOrder | SystemStarter/StartupItems.c:772-776 | on stop, every other listed item requiring a service of an attempted item was attempted and removed before |
| SchedulerAnswers.UsesAreOverOnStart | SystemStarter/StartupItems.c:594-632 | over every run on start with one provider a service: an item that uses a service is attempted only after its listed provider has ended, however that went |
| SchedulerAnswers.UsesAreOverOnStop | SystemStarter/StartupItems.c:594-632 | over every run on stop with one provider a service: an item that offers a service is attempted only after every listed item that uses it has ended |
| SchedulerAnswers.UsesAreSettled | SystemStarter/StartupItems.c:594-632 | over every run, with any number of providers: an item that uses a service, or on stop offers it, is attempted only after the item at the other end of that dependency has ended, or after another end has settled the status of the service |
| SchedulerAnswers.FewestUnmetFirst | SystemStarter/StartupItems.c:707-837 | over every run: of all items ready, the item attempted has the fewest unmet soft dependencies, counted as sets, and is the first in the list with so few |
| SchedulerAnswers.EarlierDomainFirst | SystemStarter/StartupItems.c:664-697 | over every run: of two items with a common service the one found in the earlier domain has ended before the other is attempted |
| SchedulerAnswers.FirstEndDecides | SystemStarter/StartupItems.c:1004-1045 | over every run: a service has a status exactly if an item offering it has ended in other ways than for want of a path, and the status is what the first such end was |
| SchedulerLiveness.AcyclicHasOrder | SystemStarter/StartupItems.c:707-837 | dependencies without a circle allow an order in which every item comes after what it depends on |
| SchedulerLiveness.OrderlyIsAcyclic | SystemStarter/StartupItems.c:707-837 | and such an order rules a circle out |
| SchedulerLiveness.Liveness | SystemStarter/SystemStarter.c:306-349 | with one provider a service, a run that is over has emptied the waiting list if and only if there is no circle and, on start, every required service is provided; on start when nothing fails, on stop and restart whatever fails |
| SchedulerLiveness.EveryItemStarts | SystemStarter/SystemStarter.c:306-349 | then, on start, every item exited cleanly and all its services succeeded |
| SchedulerLiveness.UpExactly | SystemStarter/StartupItems.c:1004-1045 | on start, whatever fails, with one provider a service: a service has succeeded if and only if it has a provider that is gone from the list and has not failed |
| SchedulerLiveness.LeftExactly | SystemStarter/SystemStarter.c:303-349 | on start, whatever fails, in a run that is over: an item is left waiting if and only if it requires a service nothing provides or whose provider failed, or requires or uses one whose provider is left waiting |
| SchedulerLiveness.LeftHasARootCause | SystemStarter/SystemStarter.c:303-349 | and without a circle every item left waiting is at the end of a chain of such items, each held up by the one before, from one that requires a service missing or failed |
| SchedulerAnswers.LeftForAReason | SystemStarter/SystemStarter.c:303-349 | whatever the action, with any number of providers: an item left waiting offers a service that is up already, or one that an item of an earlier domain left waiting offers too; or, on start, requires a service that is not up or uses one that an item left waiting offers; or, on stop, offers one that an item left waiting requires or uses |
| Dependents.CopyMatches | SystemStarter/StartupItems.c:114-140 | collects the matching items in list order, each once |
| Dependents.AppendDependents | SystemStarter/StartupItems.c:468-519 | the recursion terminates on cyclic graphs, keeps what was found, adds the parent first, then depth first in the order of the parent's services and of the items, no item twice, only reachable items, and with each everything it leads to |
| Dependents.CreateDependentsList | SystemStarter/StartupItems.c:521-546 | the smallest group that holds the first provider and, on start, with each member every item offering what it requires, on stop every item requiring what it offers; each once, the provider first, depth first; unknown exactly if no item provides the service |
| Dependents.ClosureIsSmallest | SystemStarter/StartupItems.c:478-519 | what can be reached from the root is the smallest group holding it and, with each member, whatever goes with it in the direction of the action |
| Selections.OnlyOneSelection | SystemStarter/StartupItems.c:497-519 | the selection is the only list that is such a smallest group in depth-first order: which items are run and how they are listed is settled |
| Selections.SelectedOnStart | SystemStarter/StartupItems.c:482-485 | on start every item selected but the first offers what another selected one requires |
| Selections.SelectedOnStop | SystemStarter/StartupItems.c:486-489 | on stop every item selected but the first requires what another selected one offers |
| Selections.SelectionIsProvided | SystemStarter/SystemStarter.c:260-302 | on start a selection lacks no prerequisite that the items have |
| Selections.SelectionStarts | SystemStarter/SystemStarter.c:260-357 | if all items can be started together, so can those selected for one service: in every run without failures over them each exits cleanly and its services come up |
| Dependents.RestartIsAlone | SystemStarter/StartupItems.c:497-499 | a restart concerns the provider alone |
| SystemStarter.CountUnmetRequirements | SystemStarter/StartupItems.c:548-570 | how many listed services have not succeeded, failed and unreported ones alike, each as often as listed |
| SystemStarter.CountDependantsPresent | SystemStarter/StartupItems.c:571-592 | how many waiting items list the services, an item once for each service it lists |
| SystemStarter.StartupContext.PendingAntecedents | SystemStarter/StartupItems.c:594-632 | true exactly if a waiting item behind one of the services has no process or the service no status; what that holds up over runs is UsesAreOverOnStart and UsesAreOverOnStop |
| SystemStarter.StartupContext.CheckForDuplicates | SystemStarter/StartupItems.c:634-705 | true exactly if a service succeeded, or another waiting item with it runs or was found in an earlier domain |
| SystemStarter.StartupContext.Examine | SystemStarter/StartupItems.c:755-810 | an item passes the filters exactly if it is ready, and the count is its unmet soft dependencies |
| SystemStarter.StartupContext.GetNext | SystemStarter/StartupItems.c:707-837 | the first ready item with the fewest unmet soft dependencies, or none exactly if none is ready |
| SystemStarter.StartupContext.ItemExit | SystemStarter/StartupItems.c:1004-1045 | records the outcome for exactly the services without a status |
| SystemStarter.StartupContext.RemoveFromWaitingList | SystemStarter/StartupItems.c:84-95 | removes the first occurrence only |
| SystemStarter.StartupContext.ItemRun | SystemStarter/StartupItems.c:881-1002 | what each answer of the system leaves in the status and process tables, stub items included |
| SystemStarter.StartupContext.Terminated | SystemStarter/IPC.c:52-103 | the whole new context after an item has exited |
| SystemStarter.StartupContext.Attempt | SystemStarter/SystemStarter.c:309-320 | running the chosen item is a step of the scheduler |
| SystemStarter.StartupContext.RunLoop | SystemStarter/SystemStarter.c:303-349 | for arbitrary outcomes, the loss of a process just launched included (`SystemStarter/IPC.c:137-143`), the loop returns after a run of the scheduler that is over |
| SystemStarter.Starter | SystemStarter/SystemStarter.c:260-357 | runs the loop over all items, or over exactly the smallest group one service concerns, in depth-first order; fails exactly for an unknown service |
| LaunchData.WireRoundTrip | liblaunch/liblaunch.c:94-134 | the wire order of a 64-bit word is undone by reading it |
| LaunchData.HostRoundTrip | liblaunch/liblaunch.c:94-134 | and so is the machine order, on either kind of machine |
| CodecLayout.WireIsWord | liblaunch/liblaunch.c:94-134 | a number on the wire has its lowest byte first |
| CodecLayout.UnhostIsWord | liblaunch/liblaunch.c:94-134 | a number in memory has its lowest byte first on a little-endian machine and last on a big-endian one |
| CodecLayout.TagsInOrder | liblaunch/launch.h:174-185 | the ten type codes are 1 to 10 in the order of the header file |
| CodecLayout.SizeIsAligned | liblaunch/liblaunch.c:695-783 | every node takes a multiple of eight bytes |
| CodecLayout.TextSize | liblaunch/liblaunch.c:732-758 | the exact size of each kind of node: 24, a terminated string or bytes rounded up to eight, or 8 a slot and the members |
| CodecLayout.ImageIsLaid | liblaunch/liblaunch.c:697-783 | packing leaves the tree in its bytes: type codes, numbers and lengths in their words, lowest byte first, text with zeros to the next multiple of eight, members one after another |
| CodecLayout.ParsedIsLaid | liblaunch/liblaunch.c:785-860 | whatever is decoded lies in the bytes consumed in that layout, and exactly its size is consumed |
| CodecLayout.ParsedIsAligned | liblaunch/liblaunch.c:785-860 | decoding from a multiple of eight ends on one |
| CodecLayout.AcceptedExactly | liblaunch/liblaunch.c:785-860 | the decoder accepts bytes if and only if some tree is laid out in them |
| CodecRoundTrip.ImageFrame | liblaunch/liblaunch.c:697-783 | packing writes only the bytes from its place up to its computed size |
| CodecRoundTrip.ParseShifted | liblaunch/liblaunch.c:785-860 | decoding depends only on the bytes it consumes, wherever they lie |
| CodecRoundTrip.RoundTrip | liblaunch/liblaunch.c:697-860 | for every tree: decoding its packed bytes, whatever surrounds them, rebuilds it with the received descriptors in place of the packed ones, and with every Mach port named by what the buffer held before, and consumes exactly its bytes and descriptors |
| CodecRoundTrip.SameFds | liblaunch/liblaunch.c:832-837 | with the packed descriptors themselves the very same tree comes back |
| CodecRoundTrip.BodyReads | liblaunch/liblaunch.c:732-758 | string and opaque bytes lie unchanged behind their node, a string with its terminator |
| CodecRoundTrip.AllOnes | liblaunch/liblaunch.c:832-837 | the no-descriptor mark reads the same before and after byte swapping |
| CodecRoundTrip.OnlyRealFds | liblaunch/liblaunch.c:725-730 | an absent descriptor is never passed along |
| CodecRoundTrip.CarriedExactly | liblaunch/liblaunch.c:697-860 | a tree comes back as it was from whatever buffer it is packed into if and only if it holds no Mach port |
| CodecRoundTrip.NamesArePackedAway | liblaunch/liblaunch.c:778-779 | trees that differ only in the names of their ports pack to the same bytes |
| CodecPack.Store | liblaunch/liblaunch.c:739 | copies bytes to a place and changes no other |
| CodecPack.StorePadded | liblaunch/liblaunch.c:739-745 | bytes, then a zero in each place up to the next multiple of eight, and no other byte changed |
| CodecPack.PackText | liblaunch/liblaunch.c:732-758 | the length in its word and the text behind the node, padded, or failure exactly if it does not fit |
| CodecPack.Pack | liblaunch/liblaunch.c:697-783 | succeeds exactly if the computed size fits, then leaves the tree laid out byte for byte (CodecLayout.Laid) and appends exactly the descriptors, or none without an array for them; never writes outside `len` |
| CodecPack.PackItems | liblaunch/liblaunch.c:759-777 | the members of a container follow one another behind its slots, and a member that does not fit fails the whole |
| CodecUnpack.HoldsKept | liblaunch/liblaunch.c:785-860 | a decoded tree depends only on its own part of memory |
| CodecUnpack.ParseAhead | liblaunch/liblaunch.c:785-860 | decoding does not look at bytes before its cursor, so those already overwritten do not matter |
| CodecUnpack.UnpackItems | liblaunch/liblaunch.c:796-811 | the in-place loop over a container gives the parsed items: slots and nodes already decoded stay, bytes ahead are untouched |
| CodecUnpack.UnpackLeaf | liblaunch/liblaunch.c:812-855 | a node without children is decoded in place, or its bytes left as they are if it is rejected |
| CodecUnpack.Unpack | liblaunch/liblaunch.c:785-860 | in place, succeeds exactly if parsing the original bytes does, with the same tree in memory, the same cursor and the same descriptors used, and writes nothing beyond the cursor |
| CodecUnpack.UnpackRebuilds | liblaunch/liblaunch.c:697-860 | in-place decoding of a packed tree leaves in memory what the round trip says and touches nothing around it |
| CodecUnpack.HeldWords | liblaunch/liblaunch.c:785-860 | the words of a decoded node in memory: its type, its number or the address of its text or slots, its length or count |
| Framing.FrameParses | liblaunch/liblaunch.c:1252-1275 | a whole frame at the front is recognised and decoded, whatever follows |
| Framing.FrameIsLaid | liblaunch/liblaunch.c:907-918 | a frame is the magic number, its whole length, a multiple of eight, and the tree in its layout |
| Framing.HandedExactly | liblaunch/liblaunch.c:1252-1275 | a first tree is handed on if and only if the magic number is there, a length of more than 16, as many bytes, and a tree laid out behind them; more is waited for exactly if only bytes are missing |
| Framing.ReceivedWhole | liblaunch/liblaunch.c:697-860 | of a tree without ports the receiver is handed that tree, with its own descriptors |
| Framing.DrainStream | liblaunch/liblaunch.c:1252-1304 | on any prefix of a stream the receive loop delivers exactly the frames completed, in order, and keeps exactly the bytes and descriptors after them; it reports a malformed frame exactly if those are 16 bytes or more of a message without its header |
| Framing.HeaderLost | liblaunch/liblaunch.c:1252-1266 | whole frames followed by a message without its header: the trees of the frames are delivered, and the message is reported as malformed and kept |
| FramingRuns.SendKeepsSender | liblaunch/liblaunch.c:862-977 | any call to send, with any answer of the kernel, keeps written and pending bytes together the stream of the messages accepted, at most the last of them unfinished, and passes descriptors with the first byte of their message |
| FramingRuns.ArriveKeeps | liblaunch/liblaunch.c:1243-1304 | whatever its size, a chunk makes the receiver deliver exactly the frames it completes |
| FramingRuns.NextKeeps | liblaunch/liblaunch.c:862-1312 | every call to send or receive keeps both ends in step |
| FramingRuns.EveryRunInStep | liblaunch/liblaunch.c:862-1312 | over every run of the two calls, whatever the kernel answers: written and pending bytes are the stream of the messages accepted, and the receiver has been handed exactly the trees of the frames received whole, each once, and holds exactly the rest |
| FramingRuns.DeliveredExactly | liblaunch/liblaunch.c:945-977 | when all that was accepted has been written and received, exactly the trees of all messages have been delivered if and only if no first write of a message failed |
| FramingRuns.NothingAfterHeadless | liblaunch/liblaunch.c:1252-1266 | from a message whose first write failed on nothing is delivered, and every chunk is reported as malformed once 16 bytes have come |
| FramingRuns.LosingRun | liblaunch/liblaunch.c:945-962 | a run of three calls in which one failed first write loses the message |
| Connection.MoveToFront | liblaunch/liblaunch.c:961 | moves n bytes to the front of a buffer, overlapping or not |
| Connection.Launch.Accept | liblaunch/liblaunch.c:883-912 | packs a message into a new buffer, or fails exactly if it is larger than 10 MiB |
| Connection.Launch.Write | liblaunch/liblaunch.c:945-977 | the bytes taken and those still held make up the header and what was pending; descriptors go with the first write that succeeds; an error leaves all as it was |
| Connection.Launch.MsgSend | liblaunch/liblaunch.c:862-977 | the send call as the runs take it: a new message, or the rest of the last one, is packed, written as far as the kernel takes it, or left pending after an error; the receive side is untouched |
| Connection.Launch.NextFrame | liblaunch/liblaunch.c:1252-1304 | one pass of the receive loop equals one step of its closed form, with the decoded tree in memory |
| Connection.Launch.MsgRecv | liblaunch/liblaunch.c:1206-1312 | the receive call as the runs take it: what it delivers, keeps and reports, with every delivered tree in memory; the send side is untouched |
| Connection.Launch.Grow | liblaunch/liblaunch.c:1226-1229 | reallocation keeps what is held |
| ShutdownSafety.KeptMeans | src/core.c:6599-6635 | the first loop keeps exactly the jobs that are active, anonymous or the monitor |
| ShutdownSafety.OrdinaryActiveMeans | src/core.c:6598-6636 | the count of actives is zero exactly if every active swept job is dirty |
| ShutdownSafety.ClosingsMean | src/core.c:6644-6659 | exactly the active dirty jobs have their transactions closed |
| ShutdownSafety.PassKeeps | src/core.c:6577-6693 | one pass over a tree of managers does only what is permitted then, and keeps the phase invariant |
| ShutdownSafety.DriftKeeps | src/core.c:1215-1255 | so does anything that may happen between passes |
| ShutdownSafety.EveryEventPermitted | src/core.c:6577-6693 | over every run in which the monitor is not itself dirty at shutdown: a transaction is closed only while no ordinary job of the manager is active; the monitor is stopped only when every other managed job is inactive and no submanager is left; a manager is removed only like that |
| ShutdownOrder.FirstPassClosesWhatItOpened | src/core.c:6609-6659 | a first pass closes a transaction only of a dirty job whose process could be marked and for which it opened one |
| ShutdownOrder.EveryClosedWasOpened | src/core.c:6577-6693 | over every run in which the monitor is not dirty at shutdown: a transaction is closed only after one was opened for the same job of the same manager, whose process could be marked |
| ShutdownOrder.PassWaitsExactly | src/core.c:6625-6643 | a pass leaves the transactions open if and only if a job is active that is not dirty, or on the first pass one whose process cannot be marked; it then does nothing but open transactions |
| ShutdownOrder.AnonymousStay | src/core.c:6599-6603 | anonymous processes are left as they are |
| ShutdownOrder.MonitorStays | src/core.c:6618-6637 | the monitor is left as it is, or the pass is the one that stops it |
| ShutdownSafety.OpeningsMean | src/core.c:6609-6616 | exactly the dirty jobs whose processes can be marked have transactions opened, on the first pass |
| ShutdownProgress.AllToldToStop | src/core.c:6621-6623 | after a pass every managed process left in a manager shutting down, the monitor apart, has been sent its signal |
| ShutdownProgress.QuietTreeGoes | src/core.c:6664-6688 | one pass removes a tree whose managed jobs are all inactive, except a root whose monitor is then stopped |
| ShutdownProgress.ManagersAreConserved | src/core.c:6580-6693 | a pass loses no manager: the managers before are those left and those whose removal is among what happened, each as often |
| ShutdownProgress.MonitorIsWaitedForUnlessDirty | src/core.c:6618-6637 | after the monitor is stopped the root goes if and only if the monitor is gone or is itself dirty at shutdown |
| ShutdownProgress.DirtyMonitorIsLeftRunning | src/core.c:6675-6688 | with a monitor dirty at shutdown two passes remove the root while its process runs |
| ShutdownPass.SweepJobs | src/core.c:6598-6635 | the first loop removes exactly the inactive jobs, sends the others their signal, opens the transactions due, treats as ordinary a dirty job whose process cannot be marked, and counts the ordinary active jobs left |
| ShutdownPass.CleanJobs | src/core.c:6644-6659 | the second loop closes exactly the open transactions of active jobs and counts all active ones |
| ShutdownPass.FindMonitor | src/core.c:6675 | finds the job marked as shutdown monitor, or none exactly if there is none |
| ShutdownPass.CollectSubmanagers | src/core.c:6580-6583 | passes over every submanager, in order, keeping those left |
| ShutdownPass.SweepManager | src/core.c:6598-6690 | the pass over the own jobs of a manager: which phase it is in, and whether the manager, or the monitor, goes |
| ShutdownPass.CollectGarbage | src/core.c:6577-6693 | the recursive pass gives the tree and the events about which the properties above are proved |
| LifecycleSafety.NextCounts | src/core.c:4449-4516 | every step keeps the counters equal to the jobs they count and the idle timer unarmed while anything is busy |
| LifecycleSafety.NextIndexes | src/core.c:4480-4482 | every step keeps each live job once in each bucket it belongs to, and nothing else |
| LifecycleSafety.EveryStateAgrees | src/core.c:3843-3873 | in every reachable state the counters and the indices agree with the jobs |
| LifecycleSafety.TimerExactly | src/runtime.c:1129-1187 | over every run the idle timer is armed exactly while nothing is busy but something has been, and never in PID 1 |
| LifecycleSafety.RemoveMeans | src/core.c:1414-1427 | removing takes a job away unless it is managed and has a process, which stays; no other job is touched |
| LifecycleSafety.LiveManagedStays | src/core.c:1414-1427 | over any step a managed job keeps its process until that is reaped |
| LifecycleSafety.HoldsOnce | src/core.c:10042-10049 | an anonymous job takes one reference however often it makes subsets, a managed one none |
| LifecycleLookup.EveryStateOrdered | src/core.c:4481-4482 | a manager's bucket lists its managed jobs in the order of the global bucket |
| LifecycleLookup.FoundExactly | src/core.c:3358-3370 | managed_job follows the wrong list: it finds a live managed job if and only if that job is in the manager of the job started last in its hash bucket |
| LifecycleLookup.EveryBucketRecent | src/core.c:4480-4482 | over every run the global buckets list their jobs latest start first |
| LifecycleLookup.FoundOverRuns | src/core.c:3358-3370 | over every run: managed_job finds a live managed job if and only if the job started last, of those alive whose process IDs leave the same remainder by 32, is in the same manager |
| LifecycleLookup.MissedJob | src/core.c:3358-3370 | a run after which it misses one: two jobs of two managers started with process IDs 32 apart |
| Lifecycle.Launchd.RuntimeAddRef | src/runtime.c:1115-1187 | adds a reference and disarms the idle timer |
| Lifecycle.Launchd.RuntimeDelRef | src/runtime.c:1129-1176 | gives a reference up and arms the timer when none is left |
| Lifecycle.Launchd.JobNew | src/core.c:2048-2120 | a job is made known with no process; counters and indices still agree |
| Lifecycle.Launchd.JobStarted | src/core.c:4478-4491 | a started job is at the front of both its buckets, counted once everywhere, and disarms the timer; counters, indices and their order agree with the jobs afterwards |
| Lifecycle.Launchd.JobNewAnonymous | src/core.c:1800-1805 | an adopted process is at the front of its bucket and counted as anonymous only; all agree afterwards |
| Lifecycle.Launchd.JobHoldRef | src/core.c:10042-10049 | an anonymous job that makes subsets takes one reference, however many it makes; all agree afterwards |
| Lifecycle.Launchd.JobReap | src/core.c:3843-3873 | an exited job is taken out of exactly the counters and lists that had it; an anonymous one gives back the reference it holds; all agree afterwards |
| Lifecycle.Launchd.JobRemove | src/core.c:1414-1427 | a managed job with a process stays; any other goes, an anonymous one being reaped first; all agree afterwards |
| Lifecycle.Launchd.ManagedJob | src/core.c:3358-3370 | the walk from the head of the global bucket along the links of the manager finds what FoundExactly says |
| Throttle.StartsAreSpaced | src/core.c:4396-4408 | two successive starts of a job not exempt are at least its minimum run time apart, despite truncation, when the event is not older than the first start |
| Throttle.ThrottledExactly | src/core.c:4396-4408 | for an event not older than the last start: a job is throttled if and only if it was started before, is exempt in none of the three ways, and its minimum run time has not passed to the nanosecond |
| Throttle.NanosMeans | src/runtime.c:1345-1373 | ticks are turned into nanoseconds by the ratio of the clock, rounded down |
| Throttle.DelayIsEnough | src/core.c:4400-4408 | the dispatch by the throttle timer is not throttled again |
| Throttle.DelayIsLeast | src/core.c:4400-4408 | on a nanosecond clock no smaller number of seconds would do |
| Throttle.OldEventIsNotThrottled | src/runtime.c:1339-1373 | on a clock of any ratio, an event somewhat older than the last start wraps the difference, and the job is not throttled |
| ThrottleRuns.TooSoonStarts | src/core.c:4396-4408 | a dispatch that comes too soon after the last start starts the job if and only if the event being handled is older than that start |
| ThrottleRuns.SpacedExactly | src/core.c:4396-4450 | over every run of events, passing time and dispatches: consecutive starts of a job not exempt are its minimum run time apart if and only if no dispatch that comes too soon happens in the handling of an event older than the last start |
| ThrottleRuns.StartedTwice | src/core.c:4396-4450 | a run that breaks it: two dispatches in the handling of one event both start the job |
| PerUser.NextKeeps | src/core.c:8405-8467 | every suspension, resumption, exit and dispatch keeps the count equal to the holders |
| PerUser.NextQuiet | src/core.c:8423-8433 | and keeps a suspended launchd unlistened for and, if it still runs, told to stop |
| PerUser.CountIsHolders | src/core.c:8405-8467 | over every run a per-user launchd's suspend count equals the number of live jobs holding an entry for it, at most one each; while it is positive the launchd is not listened for, and is stopping if it runs |
| PerUser.NeverStartedSuspended | src/core.c:3977-3985 | no step, kickstart included, starts a per-user launchd that is suspended |
| PerUser.DispatchMeans | src/core.c:3970-3990 | a dispatch starts a job that does not run, outright or kept alive, unless a live job suspends it; one neither started nor suspended is listened for; no other job is touched |
| PerUser.SuspendThenResume | src/core.c:8405-8467 | a launchd suspended by one job cannot be started at all; resumed by it, it is kept alive or listened for, can be started outright, and all else is as it was |
| PerUser.ResumedFully | src/core.c:8457-8460 | when the last entry is given up, the launchd is started if it is to be kept alive and listened for otherwise |
| PerUser.ReleasedFully | src/core.c:3804-3813 | when the last job that holds an entry exits, the launchd runs or is listened for, and runs if it is to be kept alive |
| PerUser.Table.Dispatched | src/core.c:3970-3990 | starts a job not running if asked, or listens for it, unless it is a suspended per-user launchd; counts stay right |
| PerUser.Table.PeruserSuspend | src/core.c:8405-8440 | one entry and one count more, the first stopping the listening, and the launchd told to stop; nothing if the job already holds an entry; counts stay right |
| PerUser.Table.PeruserResume | src/core.c:8444-8467 | one entry and one count less, and when none is left listening again and a dispatch; refused if the job holds no entry; counts stay right |
| PerUser.Table.ReapSuspensions | src/core.c:3804-3813 | gives up all entries of an exiting job, dispatching each launchd no one suspends any more; counts stay right |
| NamespaceSafety.FoundMeans | src/core.c:7122-7171 | what a lookup of a name in a table, or among per-PID services, finds |
| NamespaceSafety.NextKeeps | src/core.c:8866-9020 | every call keeps each name at most once in a table |
| NamespaceSafety.NamesAreUnique | src/core.c:7152-7165 | over every run no table holds a name twice, per-PID services aside |
| NamespaceSafety.OnlyTheOwner | src/core.c:8890-8940 | a call changes no service of another job |
| NamespaceSafety.CheckInClaims | src/core.c:8940-8950 | a successful check-in leaves the service active and the caller's, and it was not active before |
| NamespaceSafety.CheckInAnswers | src/core.c:8866-8950 | exactly which answer a check-in gives: not privileged for another job's service, active for one's own active one, unknown if strict and the name is not bound, success otherwise |
| NamespaceSafety.CheckInPort | src/core.c:8866-8950 | the port handed out is that of the service bound, or the one made for a name not bound |
| NamespaceSafety.PerPidAnswers | src/core.c:7143-7150 | among its own per-PID services a job meets no other's, and if strict is refused exactly for want of one |
| NamespaceSafety.RegisterAnswers | src/core.c:8953-9020 | exactly which answer a registration gives, the refusal of a service whose right launchd hands out included |
| NamespaceSafety.RefusedChangesNothing | src/core.c:8866-9020 | a refused call changes nothing |
| NamespaceSafety.RegisterClaims | src/core.c:8987-9016 | a registration leaves the port given active under the name for the caller; giving a name up leaves no service under it |
| NamespaceSafety.SetupClaims | src/core.c:6557-6567 | a configured name is bound afterwards, by whoever had it or by an inactive service of the job |
| NamespaceSafety.ReturnedCanBeClaimed | src/core.c:7426-7432 | once its receive right has come back, the owner can check the service in again, unless it is one deleted on its return |
| NamespaceSafety.ActiveUntilFreed | src/core.c:7376-7446 | an active service stays until its receive right returns or it is deleted |
| NamespaceSafety.CheckInsAreSeparated | src/core.c:8866-8950 | between two successful check-ins of a name its receive right came back or the service was deleted |
| NamespaceLookup.NearestAnswers | src/core.c:7153-7171 | in the hierarchical namespace the nearest enclosing manager with the name answers; none is found exactly if none has it |
| NamespaceLookup.AddingIsLocal | src/core.c:6356-6370 | a service newly added changes the answer exactly for its name and the managers from which it is nearer than any other |
| NamespaceSafety.WhoSharesNames | src/core.c:7122-7171 | in the flat namespace all managers but explicit subsets answer alike; otherwise each answers from its own table |
| Namespace.Bootstrap.LookupService | src/core.c:7122-7171 | finds the newest service of the name in the table of the manager or, if asked, of the nearest parent that has it |
| Namespace.Bootstrap.LookupPerPid | src/core.c:7143-7150 | finds the newest per-PID service of the name that is the job's own |
| Namespace.Bootstrap.MachserviceNew | src/core.c:6317-6379 | a new service comes first in the lists, active exactly if the port was given |
| Namespace.Bootstrap.MachserviceSetup | src/core.c:6550-6575 | leaves a taken name alone, else adds an inactive service with a right to hand out |
| Namespace.Bootstrap.CheckIn2 | src/core.c:8866-8950 | refuses unknown (if strict), foreign and active services without any change, else makes the service active |
| Namespace.Bootstrap.Register2 | src/core.c:8953-9020 | refuses foreign, active and handed-out services without any change, else replaces or gives up the name |
| Namespace.Bootstrap.DeleteAnythingWithPort | src/core.c:7093-7097 | removes exactly the services of a dead port whose right was not ours |
| Namespace.Bootstrap.AckPortDestruction | src/core.c:7376-7446 | a returned right makes exactly its service inactive, or deletes it if so marked |
| Transactions.StepKeeps | liblaunch/libvproc.c:136-253 | every block on the queue keeps the balance |
| Transactions.EveryRunBalanced | liblaunch/libvproc.c:136-253 | for every interleaving of clients, enabling and callout: the count is the open transactions and the pending flush, at most one flush is pending, once enabled the process is dirty exactly while the count is positive, and no abort is reached |
| Transactions.CleanMeansIdle | liblaunch/libvproc.c:324-335 | a count of zero means that no transaction is open and no callout is still to run |
| Transactions.CountIsTally | liblaunch/libvproc.c:160-243 | however begins and ends are paired, the count is the begins less the ends and one for each flush pending |
| Transactions.AbortsExactly | liblaunch/libvproc.c:160-222 | so a step of any run aborts if and only if transactions are enabled and, for an end or a flush, nothing is open or pending, for a begin, more had been ended than begun |
| Transactions.AbortedExactly | liblaunch/libvproc.c:160-222 | and a process enabled from the start has aborted if and only if its ends outnumber its begins and the flushes pending |
| Transactions.LastEndCallsOut | liblaunch/libvproc.c:224-230 | the last end starts the callout, dirty meanwhile, and its end makes the process clean |
| Transactions.WithoutCallout | liblaunch/libvproc.c:209-230 | without a callout, over every run: no flush is ever pending, the count is that of the open transactions, and once enabled the process is dirty exactly while some client has one open |
| Transactions.VprocGlobals.EnableInternal | liblaunch/libvproc.c:136-149 | enabling, marking the process dirty if a transaction is open; dirty exactly while the count is positive from then on |
| Transactions.VprocGlobals.BeginInternal | liblaunch/libvproc.c:160-176 | one transaction more; the first one marks an enabled process dirty; sound globals stay sound |
| Transactions.VprocGlobals.EndInternal | liblaunch/libvproc.c:209-230 | one transaction less; the last one makes the process clean, or hands its count to the callout; sound globals with a transaction open stay sound |
| Transactions.VprocGlobals.Callout | liblaunch/libvproc.c:200-243 | after the callout its count is given back, without a further callout |

## Left out

- IntervalExactness: both searches read the clock at one moment; IntervalTimeIsFuture holds for two.
- RoundTrip: trees with null children are not values of the model.
- Unpack: input whose lengths overflow 64-bit arithmetic, or whose padding leaves the buffer, is marked as wild by the parser and excluded; every other input, malformed or not, is covered.
- UnpackItems: the same wild input is excluded.
- UnpackLeaf: the same wild input is excluded.
- AcceptedExactly: the same wild input counts as not accepted.
- HandedExactly: the same.
- NextFrame: the same wild input is excluded.
- MsgRecv: the same wild input is excluded; the callback does not close the connection; a frame that the decoder rejects half-way leaves the buffer as it may be.
- Pack: sizes are unbounded numbers, and an array for descriptors, if given, is long enough.
- Accept: trees with more than 1024 descriptors, for which the source writes past its array of 4 KiB, are excluded by its requires.
- MsgSend: a first write that takes 1 to 15 bytes, after which the source's remaining length is wrong, and trees of more than 1024 descriptors are excluded. sendmsg is taken to leave the control length alone.
- EveryRunInStep: descriptors travel with the first byte of their message, as ancillary data does, and are never truncated on receipt.
- Liveness: one provider a service, and on start no failures, with which LeftExactly deals; an item with a second provider may rightly stay waiting.
- RunLoop: a wait always ends with the exit of a running item; time-outs, which only log, are not steps. The process ID stored in an item is kept in a table beside it, and CoreFoundation's absent lists are empty ones.
- GetNext: the running minimum starts as none instead of INT_MAX.
- UsesAreOverOnStart: one provider a service; with several UsesAreSettled applies, here and for UsesAreOverOnStop.
- EveryClosedWasOpened: requires that the monitor is not itself dirty at shutdown, like EveryEventPermitted.
- EveryEventPermitted: requires that the monitor is not itself dirty at shutdown; without that MonitorIsWaitedForUnlessDirty and DirtyMonitorIsLeftRunning apply.
- CollectGarbage: the tree of managers is a value, so links and aliasing are not captured, and the monitor pointer is the job marked as monitor. A job removed during the pass does not disturb the iteration.
- StartsAreSpaced: readings so far apart that nanoseconds exceed 64 bits are excluded.
- SpacedExactly: the same, and events so much older than the last start that the wrapped difference is small again; a failed fork is not a step.
- FoundExactly: no two live jobs share a process ID.
- Callback: the dispatch of the jobs marked, which may remove one during the pass, is not modelled; start_pending is a set of jobs.
- Dispatched: the removal of a useless job is not modelled.
- AckPortDestruction: draining after a crash and the dispatch of the job are not modelled; nothing in the repository sets the mark by which a service is deleted on return.
- CheckIn2: dedicated instances, the sandbox and failures to make a port are left out; a per-PID lookup finds the calling job.
- Callout: a callout unset between its scheduling and its run is not modelled; nor is the wrap of the 64-bit count.
- Time zones and daylight saving: the calendar has a fixed offset.
- Moves of jobs and services between managers, forced teardown in `jobmgr_remove`, aliases, XPC domains and event channels, which bypass the counters and name checks.
- The dictionary and array accessors of launch_data: each reads or writes one field or slot.
- Exec, kqueue, Mach and other system calls: tokens, parameters or nondeterministic choices.
- Property lists, logging, launchctl, launchproxy, wait4path and the rc scripts: plumbing.
