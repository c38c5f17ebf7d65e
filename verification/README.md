# Models of the HealthCheck Framework's scheduling, dispatching and rule-set core

The HealthCheck Framework runs health-check jobs at planned times, dispatches I/O events to worker threads and keeps an
installed set of rule files. This project models the parts of it that carry the logic, and proves what they keep.

- **Time plans.** `Gregorian` is the calendar with `mktime` and `localtime_r`. `CalendarPlan` and `CalendarSearch` are the
  filter-and-jump search of the calendar plan, proved against looking at every second. `PeriodicPlan` is the iterated
  calendar step, proved against its orbit. `Timeplans` puts the three kinds of plan under one specification.
- **Clock notifier.** `AlarmNotifier` is the index of armed instant and alarmed ids, as an object with a specification on
  values; `NotifierRuns` has the properties of whole runs, `NotifierFirings` exactly-once and order, `NotifierDelays` what
  firings that are handled too late miss.
- **Event reactor.** `EventReactor` is the leader/followers protocol as a state machine: any number of threads, one step
  for each critical section and for each read of the state or call on the condition outside of one.
- **Thread set.** `ThreadSet` is the array with its two regions as an object; `ThreadSetRuns` is every interleaving of
  creating, starting, ending and joining, and `ThreadSetWakeups` adds the condition on which `activate` waits.
- **Rule-set store.** `CmdHandler` has the install, delete and update handlers and the re-installation at startup, with
  an environment that decides the outcome of every call. `RuleSetStore` is what holds whatever fails, `RuleSetUpdates`
  the outcome of an update, `RuleSetAnswers` what each request answers and its calls leave, `RuleSetRestart` what holds
  without failures. The command line tool begins the names of updates with `u_` (hcfcmd/src/hcrsfm.cpp:160), so the file
  of an update is never the backup itself.
- **Formats.** `ProtocolHandler` is the framing of primitives, `Iso8601` the date-time text of ISO 8601:2004 section 4.3.2.
- `Prelude` has the option type, the reference search, iterates and sums.

Results are for every input, run and interleaving that the contracts admit; what they do not admit is under "Left out".
Times are microseconds since 1970 as unbounded integers, local time has a fixed offset, and "now" is a parameter: each
operation reads the clock once. `dafny verify dfyconfig.toml` verifies the whole project.

## What the code does not keep

Where a property one would expect is false of the code, the code is kept as it is and the property is proved with its
exact condition.

- `dx_increment_adjust_by_month` passes the year counted from 1900 to the leap rule. A plan for day 29 cannot jump to
  29 February of a year divisible by 400 (`CalendarSearch.SearchMeetsPlan`, `CalendarSearch.LeapCenturyDayLost`). Such days
  are not among the occurrences that the notifier promises.
- A calendar plan without a month filter does not compare its first candidate with the end
  (`CalendarSearch.ReturnsPastEnd`). `Timeplans.StrayIff` says exactly when a plan names a point it does not stand for, and
  `NotifierRuns.CallIsOccurrenceIff` when the notifier calls for one; no occurrence is lost or doubled by it.
- A plan of months that starts on day 29 or later drifts at the first shorter month
  (`PeriodicPlan.DayKeptIffMonthsLongEnough`).
- `add_timeplan_` takes an expired timer that has not been handled yet for a disarmed one and drops the pending alarms
  (`NotifierRuns.PendingAlarmKept`).
- After an addition the timer fires at the exact point, and a firing that early can alarm its own point again
  (`NotifierFirings.AlarmsItAgainIff` says exactly when, `NotifierFirings.CalledTwice` that it happens,
  `NotifierFirings.LateCallsInOrder` what order is left).
- A firing that is handled too late loses occurrences (`NotifierDelays.MissedIff`, `NotifierDelays.FiringLosesIff`); from
  then on the notifier is in order again (`NotifierFirings.ExactlyOnce`).
- The wake-up path of the reactor leaves the leadership flag set. A loop that is run again after a stop dispatches
  nothing, and a loop in which `poll` has failed once elects no further leader (`EventReactor.NoCallbackAfterStop`,
  `EventReactor.WedgedIff`). Closing and opening again helps exactly if no flag was left, and breaks the phases if the
  loop had not ended (`EventReactor.ReopenedIff`).
- `activate` asked for more threads than there are free slots never returns (`ThreadSetRuns.CutShortNeverReturns`).
- A thread keeps the index of its slot when an exit moves its record (`ThreadSetRuns.EndKeepsRightIff`,
  `ThreadSetRuns.StaleIndex`).
- A failed rollback leaves rules without an installed owner (`RuleSetStore.InstallSoundIff`); an update can lose the old
  rule set when one of its files cannot be removed, or the backup not be put back (`RuleSetUpdates.ErasedIff`,
  `RuleSetUpdates.ErasedByOneFailure`, `RuleSetUpdates.RestoredIff`, `RuleSetUpdates.UpdateAllOrNothing`). An update
  that gives up leaves its backup, and `utils::copy` does not truncate, so the next backup can be spoiled and another
  entry, or none, be put back from it (`RuleSetUpdates.BackupLeftBehind`, `RuleSetUpdates.BackupIsExactIff`,
  `RuleSetUpdates.UpdateByStage`). A file that the tool puts under the name `backup.xml` can do the same without any
  failure (`RuleSetRestart.UpdateWorks`).
- `recv_primitive` takes a frame that is not complete off the socket and loses it
  (`ProtocolHandler.ProtocolHandler.RecvPrimitive`).
- The ISO 8601 text of a year after 9999 is refused, and many texts outside the format are read: with leading space, signs,
  fewer digits, or anything behind (`Iso8601.RoundTripIff`, `Iso8601.ReadIff`, `Iso8601.NegativeYear`).

## Model

| member | source | states |
|---|---|---|
| `Gregorian.LessThanIsEarlier` | hcfcoreapi/src/calendar_periodic_alarm_timeplan.cpp:9-30 | Field-by-field `less_than` is the order of elapsed seconds and `equal_to` their equality, on all dates with fields in range |
| `Gregorian.LocaltimeMktime` | hcfcoreapi/src/calendar_periodic_alarm_timeplan.cpp:60-74 | On a date with fields in range, `mktime` and `localtime_r` give the same fields back, with the right weekday |
| `Gregorian.MktimeLocaltime` | hcfcoreapi/src/calendar_periodic_alarm_timeplan.cpp:60-74 | `mktime` undoes `localtime_r` on every instant |
| `Gregorian.MonthLengths` | include/hcf/core/alarm_timeplan.h:62-67 | Months have 31 and 30 days in turn, starting over after July, and February has 29 in the Gregorian leap years |
| `Gregorian.NextDay` | hcfcoreapi/src/calendar_periodic_alarm_timeplan.cpp:92-105 | A day later the clock shows the same time, the next weekday, and the day after in the same month, or the first of the next one |
| `Gregorian.NextSecond` | hcfcoreapi/src/calendar_periodic_alarm_timeplan.cpp:60-74 | A second later the same day shows one second more |
| `Gregorian.KnownDates` | hcfcoreapi/src/calendar_periodic_alarm_timeplan.cpp:92-105 | Anchors in numbers: 1970-01-01 is a Thursday, 2000-02-29 a Tuesday, 2015-04-13 12:00:00 a Monday |
| `CalendarPlan.OnOccurrenceByNumber` | hcfcoreapi/src/calendar_periodic_alarm_timeplan.cpp:107-137 | The n-th or last such weekday of the month, defined by counting days, is what the week-number arithmetic decides |
| `CalendarPlan.MatchesByFields` | hcfcoreapi/src/calendar_periodic_alarm_timeplan.cpp:67-163 | A date matches a plan if and only if its month, day, weekday with 7 for Sunday, week of the month or last week, hour, minute and second are those asked for, or not asked for |
| `CalendarPlan.OffsetLeapRule` | hcfcoreapi/src/calendar_periodic_alarm_timeplan.cpp:32-36 | The leap rule on the year counted from 1900 agrees with the Gregorian rule exactly for years not 0 or 300 modulo 400 |
| `CalendarPlan.MonthJump` | hcfcoreapi/src/calendar_periodic_alarm_timeplan.cpp:68-77 | The jump to the first day of the wanted month passes over no occurrence |
| `CalendarPlan.DayOfMonthJump` | hcfcoreapi/src/calendar_periodic_alarm_timeplan.cpp:79-90 | The jump to the wanted day of the month passes over no occurrence but leap-century days |
| `CalendarPlan.WeekdayJump` | hcfcoreapi/src/calendar_periodic_alarm_timeplan.cpp:92-105 | The jump to the wanted weekday passes over no occurrence |
| `CalendarPlan.OccurrenceJump` | hcfcoreapi/src/calendar_periodic_alarm_timeplan.cpp:107-126 | The jump of whole weeks to the wanted or last occurrence of the weekday passes over none |
| `CalendarPlan.NextMonthJump` | hcfcoreapi/src/calendar_periodic_alarm_timeplan.cpp:127-136 | After a later occurrence than the wanted one, nothing is left in the month |
| `CalendarPlan.NextDayJump` | hcfcoreapi/src/calendar_periodic_alarm_timeplan.cpp:147-159 | After the time of day nothing is left on the day |
| `CalendarSearch.DxIncrementAdjustByMonth` | hcfcoreapi/src/calendar_periodic_alarm_timeplan.cpp:32-36 | For days 1 to 31 the loop ends, skips one month at most, and skips it exactly if the day is not accepted there |
| `CalendarSearch.FilterMonth` | hcfcoreapi/src/calendar_periodic_alarm_timeplan.cpp:68-77 | Lands in the wanted month, never goes back, and keeps the search state: nothing visible was passed |
| `CalendarSearch.FilterDayOfMonth` | hcfcoreapi/src/calendar_periodic_alarm_timeplan.cpp:79-90 | Either the day is the wanted one and nothing changed, or the candidate strictly advances past no visible instant |
| `CalendarSearch.FilterDayOfWeek` | hcfcoreapi/src/calendar_periodic_alarm_timeplan.cpp:92-105 | Either the weekday is the wanted one and nothing changed, or the candidate strictly advances past no visible instant |
| `CalendarSearch.SeekLastWeek` | hcfcoreapi/src/calendar_periodic_alarm_timeplan.cpp:117-119 | The seven-day loop ends on the last day of the month with the same weekday |
| `CalendarSearch.FilterOccurrence` | hcfcoreapi/src/calendar_periodic_alarm_timeplan.cpp:107-137 | Either the day is the wanted occurrence and nothing changed, or the candidate strictly advances past no visible instant |
| `CalendarSearch.SetTime` | hcfcoreapi/src/calendar_periodic_alarm_timeplan.cpp:139-160 | Lands on the time of day of the same day, or strictly advances to the next day, past no visible instant |
| `CalendarSearch.Turn` | hcfcoreapi/src/calendar_periodic_alarm_timeplan.cpp:67-163 | One turn of the loop finds an occurrence, ends past the end, or strictly advances |
| `CalendarSearch.Search` | hcfcoreapi/src/calendar_periodic_alarm_timeplan.cpp:60-168 | The loop terminates for every filter, also impossible ones; it finds an occurrence with none visible before it, or there is none up to the end |
| `CalendarSearch.GetNextTimerPoint` | hcfcoreapi/src/calendar_periodic_alarm_timeplan.cpp:46-180 | The result is the first visible occurrence from the search start, found by looking at every second, relative to the instant asked about |
| `CalendarSearch.RoundsToNearest` | hcfcoreapi/src/calendar_periodic_alarm_timeplan.cpp:50-54 | The second is the nearest one, and half a second counts up |
| `CalendarSearch.StartsAtLatest` | hcfcoreapi/src/calendar_periodic_alarm_timeplan.cpp:46-58 | The search starts at the plan's start, the second asked about or the clock's, and not before any of them |
| `CalendarSearch.WeeklyNext` | hcfcoreapi/src/calendar_periodic_alarm_timeplan.cpp:92-163 | Closed form for plans with a weekday or none: the time of day on this weekday's next day, a week later if today's time is over, or today or tomorrow |
| `CalendarSearch.NextPointCharacterised` | hcfcoreapi/src/calendar_periodic_alarm_timeplan.cpp:46-180 | Sound, least and complete: t is the answer if and only if it is visible with nothing visible before it, and ERR_NOT_FOUND if and only if there is nothing up to the end |
| `CalendarSearch.SearchMeetsPlan` | hcfcoreapi/src/calendar_periodic_alarm_timeplan.cpp:67-163 | The search gives the first occurrence of the plan if and only if that is not a leap-century day other than the one it starts on |
| `CalendarSearch.SearchMeetsPlanWithinCentury` | hcfcoreapi/src/calendar_periodic_alarm_timeplan.cpp:32-36 | Plans without day 29, and searches from 2001 that end before 2400, lose no occurrence |
| `CalendarSearch.LeapCenturyDayLost` | hcfcoreapi/src/calendar_periodic_alarm_timeplan.cpp:32-36 | In every year divisible by 400 a plan for day 29 asked on 28 February loses 29 February |
| `CalendarSearch.ReturnsPastEnd` | hcfcoreapi/src/calendar_periodic_alarm_timeplan.cpp:67-163 | A point after the end is returned if and only if the search starts after the end, on an occurrence, with no month filter |
| `CalendarSearch.RelativeValueBound` | hcfcoreapi/src/calendar_periodic_alarm_timeplan.cpp:50-58 | The relative value is never below -499999 microseconds |
| `PeriodicPlan.StepForward` | hcfcoreapi/src/periodic_alarm_timeplan.cpp:47-54 | A step with any part set advances by a minute at least, one without rests |
| `PeriodicPlan.GetNextTimerPoint` | hcfcoreapi/src/periodic_alarm_timeplan.cpp:15-64 | The loop terminates and returns the first element of the orbit of the calendar step at or after the instant asked about, exactly if it is not after the end |
| `PeriodicPlan.OrbitStop` | hcfcoreapi/src/periodic_alarm_timeplan.cpp:48-59 | Where the loop stops is that element |
| `PeriodicPlan.StepSpelledOut` | hcfcoreapi/src/periodic_alarm_timeplan.cpp:51-53 | For every plan and instant, a step is as many seconds as the months passed have, counted from that of the instant, and all its weeks, days, hours and minutes |
| `PeriodicPlan.StepOfParts` | hcfcoreapi/src/periodic_alarm_timeplan.cpp:51-53 | A step ends 86400 seconds for each day and week, 3600 for each hour and 60 for each minute after the step of its months alone |
| `PeriodicPlan.NextPointBetween` | hcfcoreapi/src/periodic_alarm_timeplan.cpp:15-64 | Any plan, mixed ones too: the next point is the start if that is not over, and between two points the later one, a step spelled out in seconds after the other |
| `PeriodicPlan.NextPointOfNoStep` | hcfcoreapi/src/periodic_alarm_timeplan.cpp:15-64 | A plan with no step has its start as its only point |
| `PeriodicPlan.NextPointWithoutMonths` | hcfcoreapi/src/periodic_alarm_timeplan.cpp:47-63 | Without months the point is the start plus a whole number of steps, rounded up |
| `PeriodicPlan.OrbitOfMonths` | hcfcoreapi/src/periodic_alarm_timeplan.cpp:48-54 | While the months reached are long enough, each point is on the start day of its month at the start time |
| `PeriodicPlan.DayKeptIffMonthsLongEnough` | hcfcoreapi/src/periodic_alarm_timeplan.cpp:48-54 | A plan of months keeps its day of the month if and only if every month it reaches has that day |
| `PeriodicPlan.NoDriftUpTo28` | hcfcoreapi/src/periodic_alarm_timeplan.cpp:48-54 | From day 28 or earlier, day and time never drift |
| `Timeplans.GetNextTimerPoint` | hcfcoreapi/src/oneshot_alarm_timeplan.cpp:15-32 | A one-shot plan names its instant if it is not over; with the two other plans, one specification for all three |
| `Timeplans.GetNextDatetime` | hcfcoreapi/src/alarm_timeplan.cpp:17-37 | Adding the relative value back and rounding to the second gives the broken-down time of the point itself |
| `Timeplans.NextPointIsNext` | hcfsrv/src/clock_alarm_notifier.cpp:401-420 | For every kind of plan: the next point is at most half a second ago, no occurrence from now on comes before it, and it is an occurrence if and only if the plan is not asked where it names a stray point |
| `Timeplans.StrayIff` | hcfcoreapi/src/calendar_periodic_alarm_timeplan.cpp:67-163 | A plan names a point that is no occurrence of it if and only if it is a calendar plan asked after its end on a matching second with no month set, or asked on a leap-century day with its time still to come |
| `Timeplans.PointsApart` | hcfcoreapi/src/periodic_alarm_timeplan.cpp:47-54 | Two points of one plan, of whichever kind, are a minute apart or more |
| `Timeplans.NamesItAgainIff` | hcfcoreapi/src/calendar_periodic_alarm_timeplan.cpp:50-58 | Asked around an occurrence, a calendar plan names it again if and only if now rounds to it or before, another plan if and only if now is not after it |
| `Timeplans.PassesIff` | hcfcoreapi/src/calendar_periodic_alarm_timeplan.cpp:50-58 | At any instant a plan names an occurrence or an earlier point if and only if it has not passed the occurrence: by rounding for a calendar plan, exactly for another |
| `AlarmNotifier.SelectNextAlarms` | hcfsrv/src/clock_alarm_notifier.cpp:401-421 | The single-pass clustering within 750 ms finds exactly the ids with the least next point, whatever the order of the map and however many plans; its buffer suffices while no point is due for more than 128 of them |
| `AlarmNotifier.EraseAll` | hcfsrv/src/clock_alarm_notifier.cpp:120-130 | The swap-with-last loop leaves exactly the multiset of the other ids |
| `AlarmNotifier.SaveHandlers` | hcfsrv/src/clock_alarm_notifier.cpp:208-223 | The handlers saved are those of the alarmed ids, in order, within the fixed buffer |
| `AlarmNotifier.FewSuffice` | hcfsrv/src/clock_alarm_notifier.cpp:398-399 | The buffers of 128 and 256 suffice for every operation while no more than 128 plans are registered |
| `AlarmNotifier.AddStepValid` | hcfsrv/src/clock_alarm_notifier.cpp:286-376 | Adding a plan keeps the index: only registered ids are alarmed, each once |
| `AlarmNotifier.RemoveStepValid` | hcfsrv/src/clock_alarm_notifier.cpp:117-130 | Removing a plan keeps the index |
| `AlarmNotifier.ActivatedValid` | hcfsrv/src/clock_alarm_notifier.cpp:382-455 | An activation makes a valid index, and touches no plan |
| `AlarmNotifier.AdditionAnswered` | hcfsrv/src/clock_alarm_notifier.cpp:246-269 | An addition is Ok if and only if a handler is given, the notifier is open, nothing is being handled and the id is new; each refusal has its own condition |
| `AlarmNotifier.RemovalAnswered` | hcfsrv/src/clock_alarm_notifier.cpp:92-113 | A removal is Ok if and only if the notifier is open, nothing is being handled and the id is known; each refusal has its own condition |
| `AlarmNotifier.AlarmedByAddition` | hcfsrv/src/clock_alarm_notifier.cpp:294-345 | While the timer is armed, a new plan is alarmed alone, joins those alarmed, or changes nothing, if and only if its point is more than 750 ms before the armed instant, less than 750 ms after it at most, or later |
| `AlarmNotifier.AlarmedAlone` | hcfsrv/src/clock_alarm_notifier.cpp:346-372 | A timer that is off or has expired is armed for the new plan's point alone, at that point; a plan that is over only enters the map |
| `AlarmNotifier.ClockAlarmNotifier.Open` | hcfsrv/src/clock_alarm_notifier.cpp:26-51 | Opening starts with no plans and a disarmed timer; a second time it changes nothing |
| `AlarmNotifier.ClockAlarmNotifier.Close` | hcfsrv/src/clock_alarm_notifier.cpp:52-84 | Closing forgets plans and alarms, and is refused while handlers are called |
| `AlarmNotifier.ClockAlarmNotifier.ActivateTimerForNextAlarms` | hcfsrv/src/clock_alarm_notifier.cpp:382-455 | Arms 750 ms after the least next point with exactly the ids that are due then, or leaves the timer alone when no plan has a point |
| `AlarmNotifier.ClockAlarmNotifier.AddTimeplan` | hcfsrv/src/clock_alarm_notifier.cpp:234-380 | Re-arms at the exact point, joins the armed alarms or does neither, by the windows around the remaining time; or the error, with nothing changed |
| `AlarmNotifier.ClockAlarmNotifier.RemoveTimeplan` | hcfsrv/src/clock_alarm_notifier.cpp:86-148 | Removes the plan from the map and the alarmed ids, and re-arms exactly if the last alarmed id is gone; or the error, with nothing changed |
| `AlarmNotifier.ClockAlarmNotifier.HandleInput` | hcfsrv/src/clock_alarm_notifier.cpp:150-232 | Re-arms for what follows and calls the handlers of the ids that had been alarmed, telling them if the event is in the past |
| `NotifierRuns.FiringIsStep` | hcfsrv/src/clock_alarm_notifier.cpp:150-232 | Every firing of the notifier, in time or not, is a step of a run |
| `NotifierRuns.RemovalIsStep` | hcfsrv/src/clock_alarm_notifier.cpp:86-148 | Every removal that is not refused is a step of a run |
| `NotifierRuns.AdditionIsStep` | hcfsrv/src/clock_alarm_notifier.cpp:234-380 | Every addition that is not refused is a step of a run |
| `NotifierRuns.AnswersInRuns` | hcfsrv/src/clock_alarm_notifier.cpp:92-269 | In every run exactly the additions of new ids and the removals of known ones are accepted |
| `NotifierRuns.AllowedIff` | hcfsrv/src/clock_alarm_notifier.cpp:86-380 | In every run of up to 128 plans, exactly the additions of new ids, the removals of known ones and the firings of an expired timer can come, at any time from then on |
| `NotifierRuns.ToldPastIff` | hcfsrv/src/clock_alarm_notifier.cpp:165-181 | In every run the handlers are told of an event in the past if and only if the firing is handled more than 314.159 ms after the timer has expired |
| `NotifierRuns.StepKeeps` | hcfsrv/src/clock_alarm_notifier.cpp:86-455 | Every step keeps the invariant: index, armed instant, due points named by the plans, no occurrence lost, no call out of time |
| `NotifierRuns.NoMissedOccurrence` | hcfsrv/src/clock_alarm_notifier.cpp:86-455 | In every run each occurrence of each registered plan has had a call within a second of it, made for that plan and that very occurrence |
| `NotifierRuns.NoCallOutOfTime` | hcfsrv/src/clock_alarm_notifier.cpp:199-227 | In every run no handler is called more than 250 ms before its point or a second after it, and the plan had named the point |
| `NotifierRuns.IndexError` | hcfsrv/src/clock_alarm_notifier.cpp:120-143 | In every run each alarmed id is registered, alarmed once, and due 750 ms before the armed instant, at it, or 250 ms after it |
| `NotifierRuns.PendingAlarmKept` | hcfsrv/src/clock_alarm_notifier.cpp:294-372 | Adding a plan keeps each pending alarm, or arms before it, if and only if the armed instant is still to come |
| `NotifierRuns.FiringCallsDue` | hcfsrv/src/clock_alarm_notifier.cpp:208-227 | The handlers that a firing calls are, once each, those of the ids that are due |
| `NotifierRuns.CallIsOccurrenceIff` | hcfsrv/src/clock_alarm_notifier.cpp:199-227 | A call is for an occurrence of its plan if and only if the plan was not asked where it names a stray point |
| `NotifierFirings.FiringSettles` | hcfsrv/src/clock_alarm_notifier.cpp:199-215 | In every run, of any timing, each firing leaves the timer off, or 750 ms after a point to come, with what is due then |
| `NotifierFirings.AskedAfterPoint` | hcfsrv/src/clock_alarm_notifier.cpp:199-215 | A firing armed 750 ms after a point asks every plan, ended ones too, for what follows the point |
| `NotifierFirings.NextFiring` | hcfsrv/src/clock_alarm_notifier.cpp:199-215 | It arms for the next point of any plan with all that occur then, due beside them are stray points alone, and no occurrence is skipped |
| `NotifierFirings.CallsInOrder` | hcfsrv/src/clock_alarm_notifier.cpp:199-232 | Whatever came before, from a firing or a removal that re-arms the timer on, while no plan is added and firings are in time, calls are for strictly later points, one call a plan and point |
| `NotifierFirings.ExactlyOnce` | hcfsrv/src/clock_alarm_notifier.cpp:199-232 | Whatever came before, from a firing or a removal that re-arms the timer on, while no plan is added and firings are in time, each occurrence of each plan still registered is called exactly once |
| `NotifierFirings.AlarmsItAgainIff` | hcfsrv/src/clock_alarm_notifier.cpp:199-232 | In every run, a firing alarms the occurrence it calls for once more if and only if, for a calendar plan, its time rounds to the occurrence or before, and for another plan, it is not after the occurrence |
| `NotifierFirings.CalledTwice` | hcfsrv/src/clock_alarm_notifier.cpp:294-372 | Any plan added alone before the occurrence it names is called for it twice, at the exact point and 750 ms later, both in time |
| `NotifierFirings.LateCallsInOrder` | hcfsrv/src/clock_alarm_notifier.cpp:150-455 | In every run, of any timing and with any additions, a call half a second after its point or later is followed only by calls for later points |
| `NotifierDelays.MissedIff` | hcfsrv/src/clock_alarm_notifier.cpp:86-455 | In every run, of any timing, once the timer is activated after a plan has passed an occurrence, the occurrence has no call if and only if such an activation came before a call and was not the firing for it; until then there is a call or the timer runs |
| `NotifierDelays.LostIsGone` | hcfsrv/src/clock_alarm_notifier.cpp:86-455 | An occurrence so lost is never called for while the plan stays registered |
| `NotifierDelays.InTimeLosesNone` | hcfsrv/src/clock_alarm_notifier.cpp:86-455 | An event in time loses no occurrence |
| `NotifierDelays.FiringLosesIff` | hcfsrv/src/clock_alarm_notifier.cpp:199-215 | However late, a firing for a point loses, of the occurrences promised and not called for, exactly those after that point which their plans have passed |
| `EventReactor.StepKeeps` | hcfcoreapi/src/epoll_event_reactor.cpp:104-263 | Every step of every thread keeps the whole invariant of the protocol |
| `EventReactor.LeaderExclusion` | hcfcoreapi/src/epoll_event_reactor.cpp:201-223 | In every interleaving of any number of threads, at most one is between taking and releasing the leadership, and then the flag is set |
| `EventReactor.PhaseAndCount` | hcfcoreapi/src/epoll_event_reactor.cpp:104-196 | In every interleaving exactly one of NOT_LOOPING, LOOPING and STOPPING holds, the counter is the number of threads inside, and not looping means empty |
| `EventReactor.NoCallbackAfterStop` | hcfcoreapi/src/epoll_event_reactor.cpp:206-263 | A callback starts only while looping, and after a stop never again, even if the loop is run again |
| `EventReactor.CallbackIff` | hcfcoreapi/src/epoll_event_reactor.cpp:231-263 | In every run a callback starts if and only if its thread finds the handler while looping, and then the thread's last poll reported an event |
| `EventReactor.PollPath` | hcfcoreapi/src/epoll_event_reactor.cpp:201-256 | In every interleaving, what a thread does with the result of its poll: it keeps the leadership after a wakeup; else it gives that back, tells one thread, or all after the end, and a result above 0 comes to the callback if and only if the handler is found while looping |
| `EventReactor.WokenIff` | hcfcoreapi/src/epoll_event_reactor.cpp:176-282 | A waiting thread is woken by a broadcast, by the signal that is for it, and by nothing else but spuriously |
| `EventReactor.StopOnce` | hcfcoreapi/src/epoll_event_reactor.cpp:138-166 | A stop of a looping reactor ends LOOPING, signals the wakeup handle and leaves one broadcast to make; another does nothing |
| `EventReactor.FollowerTakesOver` | hcfcoreapi/src/epoll_event_reactor.cpp:171-228 | Before a stop or a failed poll, whenever threads wait there is a leader, or a thread that no callback holds up is about to pass on or take the leadership |
| `EventReactor.WedgedIff` | hcfcoreapi/src/epoll_event_reactor.cpp:204-223 | A step leaves the flag set with nobody leading if and only if a leader sees the wakeup handle signalled or its poll failing while looping, or a loop is run with the flag left over |
| `EventReactor.WedgedStays` | hcfcoreapi/src/epoll_event_reactor.cpp:176-206 | Then no step but a stop ends it |
| `EventReactor.ReopenedIff` | hcfcoreapi/src/epoll_event_reactor.cpp:64-99 | Closing and opening again leaves one phase if and only if nobody was looping or stopping, and the next run is stuck if and only if the flag was left set |
| `EventReactor.DrainStep` | hcfcoreapi/src/epoll_event_reactor.cpp:171-263 | While stopping, runs are rejected, further stops do nothing, and every other step strictly decreases a measure of the threads |
| `EventReactor.DrainEnabled` | hcfcoreapi/src/epoll_event_reactor.cpp:206-263 | While stopping some step is always enabled that needs no I/O event, no spurious wakeup and no further call |
| `EventReactor.StopDrains` | hcfcoreapi/src/epoll_event_reactor.cpp:171-196 | In every interleaving from a stop on the measure bounds the steps left, and the end of stopping is NOT_LOOPING with nobody inside |
| `EventReactor.StopTakesAtMost` | hcfcoreapi/src/epoll_event_reactor.cpp:171-196 | So within the measure's number of steps the reactor is not looping |
| `ThreadSet.ExitMoves` | hcfcoreapi/src/thread_set.cpp:262-285 | Whatever its index, an exit removes one record from the running region and adds one to the join-waiting region, keeping all others, also when the regions touch |
| `ThreadSet.ExitIsOwnIff` | hcfcoreapi/src/thread_set.cpp:262-285 | An exit moves, or drops, exactly the thread's own record if and only if the slot of its index is still its own |
| `ThreadSet.ThreadSet.BeginActivate` | hcfcoreapi/src/thread_set.cpp:31-45 | The refusals of `activate` in order, and the counter it starts with |
| `ThreadSet.ThreadSet.CreateThreads` | hcfcoreapi/src/thread_set.cpp:69-92 | The creation loop comes to all requests if and only if those that do not fail fit between the regions |
| `ThreadSet.ThreadSet.StartThread` | hcfcoreapi/src/thread_set.cpp:240-254 | A new thread takes the first free slot and counts itself |
| `ThreadSet.ThreadSet.EndThread` | hcfcoreapi/src/thread_set.cpp:260-285 | The exit of a thread in place, tied to its specification |
| `ThreadSet.ThreadSet.JoinOrder` | hcfcoreapi/src/thread_set.cpp:139-151 | `join` goes through exactly the records of the two regions |
| `ThreadSetRuns.RegionsNeverOverlap` | hcfcoreapi/src/thread_set.cpp:28-108 | In every interleaving the running region, counting created threads without a slot, ends before the join-waiting one, and no access leaves the array |
| `ThreadSetRuns.OneActivation` | hcfcoreapi/src/thread_set.cpp:31-45 | While one caller activates, other activations and joins are turned away |
| `ThreadSetRuns.RequestAnswered` | hcfcoreapi/src/thread_set.cpp:23-122 | In every run each refusal of `activate` has its own condition on the request, the activation or join under way and the free slots, and a join is let in if and only if neither is under way |
| `ThreadSetRuns.RecallsRun` | hcfcoreapi/src/thread_set.cpp:23-108 | In every run the local variables of `activate`, the flag of `join` and the number of threads are what the events since have made them: requests asked, made and failed |
| `ThreadSetRuns.CallGoesOn` | hcfcoreapi/src/thread_set.cpp:69-94 | `activate` makes a request if and only if not all are made and its count leaves a slot, and goes to wait otherwise |
| `ThreadSetRuns.FinishIff` | hcfcoreapi/src/thread_set.cpp:96-108 | `activate` can return if and only if every created thread has its slot and every request was made or failed |
| `ThreadSetWakeups.NoLostWakeup` | hcfcoreapi/src/thread_set.cpp:103-108 | In every interleaving, a caller that sleeps although `activate` could return has a thread about to signal; awake, it returns exactly then and sleeps again otherwise |
| `ThreadSetWakeups.StaysAwake` | hcfcoreapi/src/thread_set.cpp:103-108 | Woken by a signal when it may return, it stays awake and allowed to until it returns |
| `ThreadSetWakeups.SleepsIff` | hcfcoreapi/src/thread_set.cpp:103-108 | The caller sleeps exactly from its going to sleep to the next signal or spurious wakeup, and no thread signals twice |
| `ThreadSetWakeups.SignalsIff` | hcfcoreapi/src/thread_set.cpp:250-257 | A thread that starts signals if and only if at most one request has then neither failed nor started |
| `ThreadSetRuns.CutShortNeverReturns` | hcfcoreapi/src/thread_set.cpp:81-101 | An activation that ran out of slots never returns |
| `ThreadSetRuns.EndConservesIff` | hcfcoreapi/src/thread_set.cpp:262-285 | An exit keeps every record once in its region if and only if it moves its own |
| `ThreadSetRuns.EndKeepsRightIff` | hcfcoreapi/src/thread_set.cpp:270-278 | An exit keeps the other threads' indices right if and only if no other live thread has the last running slot |
| `ThreadSetRuns.RecordsConserved` | hcfcoreapi/src/thread_set.cpp:230-285 | While no thread ends before a live one in the last slot, in every interleaving each record is once in the region where it belongs |
| `ThreadSetRuns.StaleIndex` | hcfcoreapi/src/thread_set.cpp:238-285 | A thread whose record was moved takes another thread's record at its exit, unless its own is now the last of the running ones |
| `CmdHandler.CmdHandler.CopyFile` | hcfcoreapi/src/utils.cpp:52-100 | Copying overwrites without truncating, and may leave an empty file when it fails half way |
| `CmdHandler.CmdHandler.MoveFile` | hcfcoreapi/src/utils.cpp:102-125 | A rename, or a copy and a removal |
| `CmdHandler.CmdHandler.CreateRules` | hcfsrv/src/ruleset_file_parser.cpp:132-208 | Creates the rules of a document one by one, up to the first failure |
| `CmdHandler.CmdHandler.DeleteRulesOf` | hcfsrv/src/cmd_handler.cpp:569-584 | Deletes the rules of a rule set, up to the first failure or in spite of failures |
| `CmdHandler.CmdHandler.HandleInstall` | hcfsrv/src/cmd_handler.cpp:378-546 | The installation with its rollbacks, tied to its specification |
| `CmdHandler.CmdHandler.HandleDelete` | hcfsrv/src/cmd_handler.cpp:548-627 | The deletion with its half-way exits, tied to its specification |
| `CmdHandler.CmdHandler.HandleUpdate` | hcfsrv/src/cmd_handler.cpp:683-826 | The update with backup and rollback, tied to its specification |
| `CmdHandler.CmdHandler.HandleStartup` | hcfsrv/src/cmd_handler.cpp:278-305 | The installed folder is installed again |
| `RuleSetAnswers.CopyIff` | hcfcoreapi/src/utils.cpp:52-100 | For every store and outcome: a copy works if and only if the file is there and the call works; then the target starts with the text and keeps what was longer, and otherwise it is as before or, half way, empty if it was not there |
| `RuleSetAnswers.RemoveIff` | hcfcoreapi/src/utils.cpp:102-125 | A removal works if and only if the file is there and the call works, and then only that file is gone |
| `RuleSetAnswers.MoveIff` | hcfcoreapi/src/utils.cpp:102-125 | A move works if and only if the file is there and its calls work; then the text is at the target and not at the source, and no other file has changed |
| `RuleSetAnswers.CreationIff` | hcfsrv/src/ruleset_file_parser.cpp:132-208 | For every outcome of every call: all rules are created if and only if none is there already and all calls work; otherwise just those before the first that is refused, and that one only if its targets and its deletion fail |
| `RuleSetAnswers.DeletionIff` | hcfsrv/src/cmd_handler.cpp:569-584 | For every outcome of every call: a deletion deletes the rules before the first failing call, a rollback all whose calls work; it is Ok if and only if none failed or it is a rollback |
| `RuleSetAnswers.InstallAnswered` | hcfsrv/src/cmd_handler.cpp:378-546 | For every store and environment each answer to an installation has its exact condition on the document, the list and the outcome of each call |
| `RuleSetAnswers.DeleteAnswered` | hcfsrv/src/cmd_handler.cpp:548-627 | For every store and environment a deletion is Ok if and only if the identifier is installed, its rules are deleted and both removals work, undefined if and only if it is not installed, and fails by the failing call; the entry goes or stays accordingly |
| `RuleSetAnswers.UpdateAnswered` | hcfsrv/src/cmd_handler.cpp:683-826 | For every store and environment the answer to an update, by how far it gets and which call fails |
| `RuleSetStore.RollbackClearsIff` | hcfsrv/src/cmd_handler.cpp:431-443 | A rollback leaves no rule of the rule set if and only if all its deletions work |
| `RuleSetStore.InstallSoundIff` | hcfsrv/src/cmd_handler.cpp:378-546 | Whatever fails, installing keeps identifiers distinct and every rule's owner installed if and only if the rollback, if any, deletes its rules |
| `RuleSetStore.DeleteSound` | hcfsrv/src/cmd_handler.cpp:548-627 | Deleting keeps both, also when it stops half way |
| `RuleSetStore.UpdateSound` | hcfsrv/src/cmd_handler.cpp:683-826 | Updating keeps both if rollbacks work |
| `RuleSetStore.AlwaysSound` | hcfsrv/src/cmd_handler.cpp:278-826 | In every run of requests and restarts, whatever else fails, identifiers are distinct and owners installed |
| `RuleSetUpdates.UpdateByStage` | hcfsrv/src/cmd_handler.cpp:683-826 | From any list of distinct identifiers, whatever fails and whatever lies in the folders: the other entries stay, and by the stage the update came to the old entry is still there, gone, replaced by the new one, or by the entry of the document that the backup holds |
| `RuleSetUpdates.SucceedsIff` | hcfsrv/src/cmd_handler.cpp:683-826 | An update succeeds if and only if its identifier is not installed, or is with another revision and is deleted with both files, and then the rules are created and the file is copied and removed |
| `RuleSetUpdates.ErasedIff` | hcfsrv/src/cmd_handler.cpp:586-617 | The old entry is gone before the new file is tried if and only if the copy to the deleting folder and the deletion of the rules work and one of the two removals fails |
| `RuleSetUpdates.ErasedByOneFailure` | hcfsrv/src/cmd_handler.cpp:586-617 | There is a store whose only entry an update loses when nothing but removing files fails |
| `RuleSetUpdates.RestoredIff` | hcfsrv/src/cmd_handler.cpp:787-812 | After the new file has failed, the backup is installed if and only if it was made, what it holds over an older backup is a document of no other entry, its rules are created and it is copied back and removed |
| `RuleSetUpdates.UpdateAllOrNothing` | hcfsrv/src/cmd_handler.cpp:697-812 | A failed update leaves the entries as they were if and only if neither removal of the old files failed, the backup, when both had worked, put back the old identifier and revision, and nothing was put where none had been |
| `RuleSetUpdates.PutsBackIff` | hcfsrv/src/cmd_handler.cpp:746-812 | With an installed file that matches its entry and no longer backup in the way, the old entry is put back if and only if the backup is made, the old rules are created and the file is copied back and removed |
| `RuleSetUpdates.BackupIsExactIff` | hcfcoreapi/src/utils.cpp:74-98 | The backup equals the file if and only if no longer backup was lying there |
| `RuleSetUpdates.BackupLeftBehind` | hcfsrv/src/cmd_handler.cpp:734-776 | An update that gives up at the deletion leaves its backup lying there |
| `RuleSetRestart.InstallWorks` | hcfsrv/src/cmd_handler.cpp:378-546 | Without failures a file is installed if and only if its identifier and all its rules are new; otherwise only the incoming file goes |
| `RuleSetRestart.DeleteWorks` | hcfsrv/src/cmd_handler.cpp:548-627 | Without failures a deletion removes the entry, its rules and both files, and reports success if and only if the file to be deleted was in the deleting folder |
| `RuleSetRestart.UpdateWorks` | hcfsrv/src/cmd_handler.cpp:683-826 | Without failures an update replaces the rule set if revision and rules permit and otherwise leaves entries, rules and installed files as they were, if and only if it does not have to go back to a backup that a longer one has spoiled |
| `RuleSetRestart.RestartRebuilds` | hcfsrv/src/cmd_handler.cpp:278-305 | Without failures a restart rebuilds the same entries, the same owners of rules and the same files, in any order of the listing |
| `RuleSetRestart.RestartForgets` | hcfsrv/src/cmd_handler.cpp:278-305 | A restart depends on the files and the names of the rules alone |
| `RuleSetRestart.AlwaysMirrored` | hcfsrv/src/cmd_handler.cpp:278-826 | In every run without failures, with files of any name in the installing folder, the installed folder and the rules mirror the entries |
| `RuleSetRestart.AlwaysRebuilt` | hcfsrv/src/cmd_handler.cpp:278-305 | After any such run a restart gives the same entries, owners of rules and files |
| `RuleSetRestart.AlwaysFree` | hcfsrv/src/cmd_handler.cpp:734-826 | If none of them is put under the name of the backup, nothing is left there after any request |
| `RuleSetRestart.AlwaysAllOrNothing` | hcfsrv/src/cmd_handler.cpp:683-826 | And then every update is all or nothing, with its entries, rules and installed files |
| `ProtocolHandler.DecodeEncode` | hcfinternalapi/src/protocol_handler.cpp:43-52 | `ntohl` undoes `htonl` on the bytes of the buffer |
| `ProtocolHandler.EncodeDecode` | hcfinternalapi/src/protocol_handler.cpp:74-79 | And the other way round |
| `ProtocolHandler.NetworkOrder` | hcfinternalapi/src/protocol_handler.cpp:43-52 | The most significant byte comes first: numbers are ordered as their bytes are, and 0x01020304 is 1, 2, 3, 4 |
| `ProtocolHandler.FrameOnTheWire` | hcfinternalapi/src/protocol_handler.cpp:19-59 | On the wire: four bytes of identifier, four that say how many follow, the string and its terminator, if there is one |
| `ProtocolHandler.RoundTrip` | hcfinternalapi/src/protocol_handler.cpp:19-103 | Unpacking a made primitive gives back identifier and message if and only if there is room for the terminator, and ERR_NOT_ENOUGH_SPACE otherwise |
| `ProtocolHandler.PrefixFree` | hcfinternalapi/src/protocol_handler.cpp:19-59 | Different primitives have different frames, none of which starts another |
| `ProtocolHandler.ReceivePart` | hcfinternalapi/src/protocol_handler.cpp:142-184 | An incomplete frame is not received, wherever it breaks off |
| `ProtocolHandler.StreamSplits` | hcfinternalapi/src/protocol_handler.cpp:132-187 | Repeated receiving splits any stream of primitives into just these frames, and leaves a frame that is not complete |
| `ProtocolHandler.StreamInjective` | hcfinternalapi/src/protocol_handler.cpp:132-187 | So a stream determines the list of primitives |
| `ProtocolHandler.ProtocolHandler.MakePrimitive` | hcfinternalapi/src/protocol_handler.cpp:19-59 | The buffer holds the frame |
| `ProtocolHandler.ProtocolHandler.UnpackPrimitive` | hcfinternalapi/src/protocol_handler.cpp:61-103 | Identifier and message, or the error; the caller's array keeps what lies beyond the message |
| `ProtocolHandler.ProtocolHandler.SendPrimitive` | hcfinternalapi/src/protocol_handler.cpp:105-130 | Success if and only if the whole frame was taken |
| `ProtocolHandler.ProtocolHandler.RecvPrimitive` | hcfinternalapi/src/protocol_handler.cpp:132-187 | Takes exactly one frame off the socket; a short header is left there, a short frame is lost |
| `Iso8601.OrderIsTime` | hcfsrv/src/date_time.h:78-89 | `less_than` is the order of elapsed seconds, and nothing else is equal, on all valid date-times |
| `Iso8601.PrintedDigits` | hcfsrv/src/job_scheduling_policy.cpp:19-28 | Where each digit and separator of the text is |
| `Iso8601.SpaceIsBlank` | hcfsrv/src/job_scheduling_policy.cpp:30-47 | What counts as leading space |
| `Iso8601.RoundTripIff` | hcfsrv/src/job_scheduling_policy.cpp:19-47 | Printing and reading is the identity for every valid date-time up to the year 9999, and a refusal for every later one |
| `Iso8601.PrintParsed` | hcfsrv/src/job_scheduling_policy.cpp:30-47 | A text in the extended format is read if and only if it names a date and a time, and printing gives the text back |
| `Iso8601.PrintsAsReadIff` | hcfsrv/src/job_scheduling_policy.cpp:19-47 | Of all texts, those read to what prints as the text itself are just the texts of valid date-times up to the year 9999 |
| `Iso8601.ReadIff` | hcfsrv/src/job_scheduling_policy.cpp:30-47 | Exactly the texts that are read, and to what: six numbers with their separators, each with leading space, a sign and fewer digits allowed, and anything behind |
| `Iso8601.NegativeYear` | hcfsrv/src/job_scheduling_policy.cpp:30-47 | A signed year is read, checked modulo 2^32 and stored modulo 2^16 |
| `Iso8601.DateTime.SetDateTime` | hcfsrv/src/date_time.cpp:53-69 | The numbers are checked before the fields are cut to their widths; a refusal changes nothing |
| `Iso8601.ConvertDatetimeIntoIso8601Format` | hcfsrv/src/job_scheduling_policy.cpp:19-28 | The text of the date-time |
| `Iso8601.ConvertIso8601FormatIntoDatetime` | hcfsrv/src/job_scheduling_policy.cpp:30-47 | The date-time of the text, or the error with nothing changed |

## Left out

- Daylight saving and time zones: `mktime` and `localtime_r` work at a fixed offset. Clock readings are after the first second of 1970, and plans end before the largest `time_t`.
- The setters of the plans, and the overflow of `tm` fields and of the unsigned sum of weeks and days: field values stay within `int`.
- A calendar plan with an occurrence but no weekday, which `hcfsrv/src/imm_object_hccalendar_event.cpp:283` refuses.
- Failing timer system calls, and two readings of the clock within one operation of the notifier.
- `change_timeplan` is a removal and an addition; handlers run one after the other and do not call the notifier, which refuses them.
- NotifierRuns.NoMissedOccurrence: for runs in which the clock does not go back, a firing is handled within 250 ms and plans are added before the armed instant; `NotifierDelays.MissedIff` says for any run what is missed otherwise, `NotifierRuns.PendingAlarmKept` what an addition does.
- NotifierFirings.ExactlyOnce: while no plan is added and firings are in time after the firing or re-arming removal it starts from; `NotifierFirings.LateCallsInOrder` is the order that additions leave.
- More than 128 plans due at one point, or more than 256 alarmed: the buffers of these sizes would overflow.
- The reactor as an object: its fields are updated in place by concurrent threads, so each such update is a step of a state machine on values, not a method.
- The reactor's handler table, re-arming of descriptors and `handle_close`: whether an event finds its handler is an input of the step.
- `close` of a running reactor under the threads that poll, beyond its effect on the state's bits.
- Threads that end during a `join` keep their records in front, as in the code; the results of `pthread_join` are not modelled.
- The input parameters of rules, the second to fourth startup operations, listing and validation of rule-set files.
- Rule creation fails before or after the rule exists, but not half way inside `create_hcrule`; the parser of documents is a function of the file's text.
- Failing memory allocation and failing system calls of the socket in the framing; a message length that differs from the length of the string.
- `convert_time_string_into_datetime_format` and the other parsers of dates, which add only smaller cases.
- The wrappers of the object store and of the availability framework, tracing, logging, option parsing, daemonising and job execution.
