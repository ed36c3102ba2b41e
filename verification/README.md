# Verified model of the QQ assistant's scheduler, queue, history and tools

A Dafny 4.11 model of the logic of a Go agent server: a calendar-driven scheduler of
reminder tasks, the main agent's todo queue, drain loop and conversation history, and
three supporting algorithms (a backwards history pager, a reverse membership index, a
bilingual word counter). `dafny verify dfyconfig.toml` checks everything.

Instants are integer nanoseconds since the Unix epoch in a fixed UTC+8 zone, days are
integers with 1970-01-01 as day 0, and dates are proleptic Gregorian. Clocks, tickers,
the model's outcomes, the history provider and the Unicode letter tables are parameters.

| file | what it holds |
|---|---|
| `Calendar.dfy` | Gregorian dates, day numbers, local days and minutes |
| `Schedules.dfy`, `NextLaws.dfy` | firing rules, the bounded search `Next`, its horizons, how its answers follow each other |
| `Builder.dfy` | parsing and printing of rules, relative delays with 64-bit wrap-around |
| `Tasks.dfy` | the task store and one undisturbed dispatch, as classes |
| `Ticks.dfy` | the cached next run against the rule "fire iff an occurrence has passed" |
| `Machine.dfy` | dispatcher, clients and channel as atomic steps in any interleaving |
| `Todo.dfy` | the todo queue, as a value and as a class |
| `History.dfy` | clean-up, extension and trimming of the conversation history |
| `Drain.dfy`, `Agent.dfy` | drain loop and polling loop, as functions and as the agent class |
| `Pager.dfy` | the time-range pager over a history provider |
| `Directory.dfy` | the member-to-groups index and its edge count |
| `WordCount.dfy` | the word counter |
| `Text.dfy`, `Sorting.dfy`, `Wrappers.dfy` | numerals, string order and numbered ids, library sort and listings, options |

Each loop of the source is a method proved equal to a function; the laws are lemmas about
those functions. Map iteration order is arbitrary (`Sorting.Enumerate`), so results proved
about listings and indexes hold for every order. In `Machine.dfy` each mutex section and
each channel operation is one step, and every step uses the same functions that the class
methods of `Tasks.dfy` are proved against.

## Where the code and its comments disagree

The model follows the code.

- internal/scheduler/store.go:175-176 says state advances only after the event was sent.
  The code advances first (lines 230-235) and sends afterwards (238-242), so stopping at
  the send loses one event. `Machine.LostIff` says exactly when a run loses an event and
  which, `Machine.EventsConserved` that the scheduler loses nothing else, and
  `Machine.StopLosesOneShot` exhibits the loss. Events that a stop leaves queued are
  beyond this: the consumer runs under the same context and returns without receiving
  them (internal/agent/main/agent.go:134-146).
- internal/scheduler/schedule.go:96-97 allows four years to the next February 29. Across a
  skipped century leap year it is eight, beyond the 1500-day horizon;
  `Schedules.LeapSearchFailsIff` says exactly when, and `Ticks.LeapDayFiresIff` that a
  yearly 02-29 task that fires inside the gap never fires again.
- internal/tool/todo/store.go:52 promises creation order. Within one second the order is
  that of the id strings, so the tenth item precedes the second
  (`Todo.ListVersusAddOrder`, `Todo.TenthBeforeSecond`).
- internal/agent/main/agent.go:280-284 promises to avoid rejection by strict providers. What
  test/agent/main/strict_provider_test.go:136-149 validates is that the message right
  before a tool message calls it; the clean-up only removes tool messages that answer no
  open call. `History.StrictIff` says exactly when the result has the strict order, and
  `History.InterruptedCallKept` gives an input for which it has not. A second answer to
  the same assistant message breaks that order too. `Agent.ModelInputStrict` shows that
  the clean-up and trimming themselves never break it over a whole run.
- internal/scheduler/store.go:106 keeps only the whole seconds of a run time, so a one-shot
  task may fire before its target; `Ticks.OneShotEarlyIff` says exactly when.
- internal/scheduler/schedule.go:111-112 promises the first moment of the day. With
  unordered times it is the first in list order; `Schedules.OrderIsNecessary` shows that
  ordered times are necessary and sufficient for minimality.

## Model

| member | source | states |
|---|---|---|
| Calendar.CivilRoundTrip | internal/scheduler/schedule.go:115 | the date of a day is a valid date and rebuilding a day from it gives the same day |
| Calendar.DayNumberRoundTrip | internal/scheduler/builder.go:204-205 | every valid date is the date of exactly its own day |
| Calendar.CivilSuccessor | internal/scheduler/schedule.go:75 | adding a day to the day number is the calendar's own rule for tomorrow, over month ends and leap years |
| Calendar.DayOverflow | internal/scheduler/schedule.go:75 | running a day of the month over its month counts days on, as AddDate does |
| Calendar.KnownDates | internal/scheduler/store.go:48-55 | the count of days starts at the epoch, January 1, 2024 is a Monday, and the epoch is 8 o'clock of its day in the zone |
| Schedules.Contains | internal/scheduler/schedule.go:123-148 | the scan loop finds a value if and only if it is listed |
| Schedules.NextAtDay | internal/scheduler/schedule.go:113-121 | the loop returns the first listed time of that day after now, through the civil date of the day |
| Schedules.Next | internal/scheduler/schedule.go:63-109 | a one-time rule answers its instant if and only if that lies after now, a relative rule the delay after now, and the day loops compute the search function on which the laws below are proved |
| Schedules.NextIsLeast | internal/scheduler/schedule.go:59-109 | with ordered times the answer is the least occurrence strictly after now over the infinite calendar |
| Schedules.OrderIsNecessary | internal/scheduler/schedule.go:111-121 | for a rule that selects any day, every answer is minimal if and only if the times are ordered |
| Schedules.NextIsLater | internal/scheduler/schedule.go:59-62 | any answer of a repeating rule lies strictly after now and on a whole second |
| Schedules.NextSucceedsIff | internal/scheduler/schedule.go:72-106 | the search succeeds exactly when some occurrence lies inside its 8-, 370- or 1500-day horizon |
| Schedules.DayOfMonthWithin61 | internal/scheduler/schedule.go:84-94 | every day of the month 1 to 31 recurs within 61 days of any day |
| Schedules.DayOfMonthBoundAttained | internal/scheduler/schedule.go:84-94 | the 61 days are attained in every year: after March 31 the next 31st is May 31 |
| Schedules.DateWithin366 | internal/scheduler/schedule.go:95-106 | every month-day other than February 29 recurs within 366 days of any day |
| Schedules.LeapDayGap | internal/scheduler/schedule.go:96-98 | leap days are 1461 days apart, or 2921 across a skipped century year |
| Schedules.LeapSearchFailsIff | internal/scheduler/schedule.go:95-108 | the 02-29 search fails exactly from the firing four years before a skipped century year through January 20 of that year |
| Schedules.LeapGapAfter2096 | internal/scheduler/schedule.go:95-108 | a concrete failure: at the firing on 2096-02-29 there is no next time |
| NextLaws.NextStable | internal/scheduler/schedule.go:59-109 | asking again before the answer is reached gives the same answer and never fails |
| NextLaws.NextMonotone | internal/scheduler/schedule.go:59-109 | a later now never gets an earlier answer |
| NextLaws.NthSkipsNothing | internal/scheduler/schedule.go:59-109 | consecutive answers of the iterated search are ordered occurrences with none between them |
| NextLaws.NthReaches | internal/scheduler/schedule.go:59-109 | every later occurrence is reached by iterating, unless a search before it failed |
| NextLaws.AcceptedNthReaches | internal/scheduler/schedule.go:59-109 | for every accepted rule but 02-29, each later occurrence is reached by iterating, without exception |
| NextLaws.DailyStep | internal/scheduler/schedule.go:20-21 | a daily rule with one time steps exactly one day |
| NextLaws.WeeklyStep | internal/scheduler/schedule.go:22-23 | a weekly rule with one weekday and one time steps exactly seven days |
| Builder.ParseTimeIff | internal/scheduler/builder.go:93-105 | exactly the texts of two numerals around a colon, blanks outside allowed, with an hour below 24 and a minute below 60 are accepted, as that minute |
| Builder.TimeSamples | internal/scheduler/builder.go:93-105 | "12:75" is refused, " 8:05 " and "+8:5" are accepted as 8:05 |
| Builder.ParseMonthDayIff | internal/scheduler/builder.go:129-141 | exactly the texts of two numerals around a hyphen that name a date of a leap year are accepted, as that date |
| Builder.PrintedShape | internal/scheduler/builder.go:163-165 | times and month-days are printed as two digits, a sign and two digits |
| Builder.AcceptedTimeRoundTrip | internal/scheduler/builder.go:93-105 | any accepted time text, printed and parsed again, stands for the same minute |
| Builder.TimeRoundTrip | internal/scheduler/builder.go:163-165 | every minute of the day parses back from its printed form |
| Builder.SurvivesIff | internal/scheduler/builder.go:200-206 | surviving Go's normalisation is the same as being a date of the calendar |
| Builder.MonthDayRoundTrip | internal/scheduler/builder.go:129-141 | any accepted month-day text, printed and parsed again, stands for the same date |
| Builder.DailyMeans | internal/scheduler/builder.go:25-31 | a daily rule is accepted with its time and occurs exactly at that minute of every day |
| Builder.WeeklyMeans | internal/scheduler/builder.go:37-47 | a weekly rule is accepted with its time and a weekday's English name, and occurs exactly whole weeks from the day so named in the week of January 1, 2024 |
| Builder.MonthlyMeans | internal/scheduler/builder.go:50-59 | a monthly rule is accepted with its time and a day from 1 to 31, and occurs exactly on that day of the month |
| Builder.YearlyMeans | internal/scheduler/builder.go:62-72 | a yearly rule is accepted with its date and time, and occurs exactly on that date |
| Builder.DailyAlwaysFires | internal/scheduler/builder.go:25-31 | every accepted daily rule has a next time at every instant |
| Builder.WeeklyAlwaysFires | internal/scheduler/builder.go:37-47 | every accepted weekly rule has a next time at every instant |
| Builder.MonthlyAlwaysFires | internal/scheduler/builder.go:50-59 | every accepted monthly rule has a next time at every instant |
| Builder.YearlyFiresIff | internal/scheduler/builder.go:62-72 | an accepted yearly rule has a next time exactly when it is not 02-29 inside the leap gap |
| Builder.DurationRoundTripIff | internal/scheduler/builder.go:187-198 | reading a printed duration's number and unit gives it back exactly when it is whole seconds |
| Builder.NoSecondsReadBack | internal/scheduler/builder.go:188-190 | a duration that is not whole seconds reads back from no printed number of seconds, however it is rounded |
| Builder.RelativeDelayWraps | internal/tool/schedule/tool.go:117-119 | the stepwise wrapping arithmetic equals the true sum wrapped once to 64 bits |
| Builder.RelativeAcceptedIff | internal/tool/schedule/tool.go:110-120 | a relative task is accepted if and only if no part is negative and the wrapped delay is positive, and gets that delay |
| Builder.RelativeExactIff | internal/tool/schedule/tool.go:110-120 | for non-negative parts, not all zero, the task gets the exact delay if and only if it is below 2^63 ns |
| Builder.OverlongDelayAccepted | internal/tool/schedule/tool.go:110-120 | a concrete overflow: 213504 days are accepted as some 25 minutes |
| Tasks.FiringIsDescribable | internal/scheduler/builder.go:145-161 | a rule that has a next time is described without indexing an empty list |
| Tasks.DescribeSamples | internal/scheduler/builder.go:145-161 | how one rule of each kind reads, letter by letter |
| Tasks.Store.AddAt | internal/scheduler/store.go:87-118 | succeeds exactly when the rule has a next time, for a one-time rule when its instant lies after now; stores one task under a fresh id with the content, reply source, rule, creation time and first run asked for; changes nothing on failure |
| Tasks.Store.List | internal/scheduler/store.go:121-135 | returns exactly the stored tasks, each once, by next run and then by id |
| Tasks.Store.Cancel | internal/scheduler/store.go:138-147 | removes exactly the named task and returns it, or nothing if it is absent |
| Tasks.Store.DueTasks | internal/scheduler/store.go:156-167 | lists exactly the due tasks, each once, by run time, ties in any order |
| Tasks.Store.Capture | internal/scheduler/store.go:223-236 | one mutex section: copies the event if the task is still due, removes a one-shot task or moves a repeating one on in nothing but its run time, and leaves all others |
| Tasks.Scheduler.Dispatch | internal/scheduler/store.go:221-245 | an undisturbed dispatch completes exactly when every send is accepted, having fired every due task once in order with nothing left due; otherwise it ends at the first refused send and loses exactly that event |
| Tasks.Scheduler.Run | internal/scheduler/store.go:199-212 | the loop dispatches at each tick in turn, every event in order, and ends at the first dispatch with a refused send, whose state it describes |
| Tasks.NothingDueAfter | internal/scheduler/store.go:219-245 | after all due tasks have fired at now none is due at now |
| Tasks.SecondPassEmpty | internal/scheduler/store.go:219-245 | a second dispatch at the same now has nothing to fire |
| Tasks.RelativeFirstRun | internal/scheduler/store.go:106 | a relative task first runs its exact delay after creation in whole seconds, and its description reads back as that delay |
| Sorting.ListingUnique | internal/scheduler/store.go:128-133 | there is only one listing of a table, whatever order the map was ranged over in |
| Ticks.DispatchesFollowTicks | internal/scheduler/store.go:199-245 | whole dispatches at any ticks make of each task in the table what the tick-by-tick rule makes of it alone |
| Ticks.CacheAfterTicks | internal/scheduler/store.go:230-235 | over forward ticks the cached run is always the next occurrence after the last tick |
| Ticks.FiresIffOccurrence | internal/scheduler/store.go:221-245 | a stored repeating task fires at a tick if and only if an occurrence lies after the previous tick and at or before this one |
| Ticks.GoneIff | internal/scheduler/store.go:231-233 | a repeating task is gone exactly when it fired at a tick from which the search fails |
| Ticks.ReliableFiresIff | internal/scheduler/store.go:221-245 | for rules whose search never fails the firing rule holds at every tick without exception |
| Ticks.LeapDayTaskDropped | internal/scheduler/store.go:230-233 | a yearly 02-29 task that fires on 2096-02-29 is deleted |
| Ticks.LeapDayFiresIff | internal/scheduler/store.go:221-245 | a yearly 02-29 task fires at a tick if and only if an occurrence has passed since the tick before and it has not yet fired inside the leap gap |
| Ticks.AcceptedFiresIff | internal/scheduler/store.go:221-245 | a task created from any accepted daily, weekly, monthly or yearly rule but 02-29 fires at a tick if and only if an occurrence has passed, at every tick for ever |
| Ticks.OneShotFiresIff | internal/scheduler/store.go:231-232 | a one-shot task fires at the first tick that reaches the second of its run time and at no other |
| Ticks.OnceFiresIff | internal/scheduler/store.go:87-118 | a one-time task created before its instant fires at the first tick whose second reaches that of the instant, and at no other |
| Ticks.OneShotEarlyIff | internal/scheduler/store.go:106 | a one-shot task is due at some instant before its target if and only if the target is not on a whole second |
| Machine.EventsConserved | internal/scheduler/store.go:225-242 | in every interleaving, captured events are those delivered, then queued (at most 256), then at most one in flight or lost by stopping |
| Machine.EventsOrdered | internal/scheduler/store.go:156-167 | one task's events have strictly rising run times, a one-shot task is captured once, a tick's events are in order of run time |
| Machine.DueIffOccurrence | internal/scheduler/store.go:225-232 | in every reachable state a repeating task is due exactly when an occurrence has passed since it was last looked at |
| Machine.VisitCapturesIff | internal/scheduler/store.go:223-229 | in every reachable state a visit captures its task if and only if it is still stored: the second check of the run time never skips one |
| Machine.TickFiresIff | internal/scheduler/store.go:221-245 | under any interleaving that does not cancel it, a completed tick treats a task as if alone, and a repeating one has exactly one event of that tick if an occurrence lies since its last look, else none |
| Machine.InterleavedFiresIff | internal/scheduler/store.go:199-245 | over any number of completed, interleaved ticks from any reachable state, the i-th has exactly one event of a stored task if and only if an occurrence lies after the tick before and at or before it |
| Machine.EventsFollowTicks | internal/scheduler/store.go:199-245 | for every kind of rule, the i-th completed, interleaved tick has exactly one event of a task that is not cancelled if the task, alone, fires at that tick, else none |
| Machine.InterleavedLeapDay | internal/scheduler/store.go:199-245 | likewise for a yearly 02-29 task, as long as none of its earlier events fell into the leap gap |
| Machine.InterleavedOneShot | internal/scheduler/store.go:199-245 | likewise for a one-shot task: its one event comes at the first tick that reaches the second of its run time |
| Machine.InterleavedTarget | internal/scheduler/store.go:199-245 | likewise in terms of the instant or delay its client asked for: the one event comes at the first tick whose second reaches the target's |
| Machine.AddStores | internal/scheduler/store.go:87-118 | at any moment, in the middle of a tick too, adding a rule with a next time stores one new task under an unused id as the call described it and leaves all else; any other rule changes nothing |
| Machine.EventsAsAdded | internal/scheduler/store.go:223-242 | in every run each event captured, queued or delivered carries the content, reply source, rule and creation time of one call, the one that was given its id |
| Machine.LostIff | internal/scheduler/store.go:238-242 | a run ends stopped with a captured event neither delivered nor queued if and only if it was stopped while a send waited, and it is that send's event |
| Machine.StopLosesOneShot | internal/scheduler/store.go:238-242 | a run in which stopping leaves a fired one-shot task neither stored, queued nor delivered |
| Machine.UndisturbedTick | internal/scheduler/store.go:221-245 | without additions and cancellations, but with the consumer receiving at any points, the atomic steps of a tick add up to the whole dispatch, for any number of due tasks |
| Machine.TickFinishes | internal/scheduler/store.go:221-245 | any sequence of steps without a stop, in which the dispatcher takes as many steps as its work is worth, ends the tick in progress, whatever else it contains |
| Machine.NeverStuck | internal/scheduler/store.go:238-242 | the dispatcher can always take a step, at once or after one reception |
| Machine.TickCanFinish | internal/scheduler/store.go:238-242 | from any state that is not stopped, dispatcher and consumer alone can end the tick in progress, however full the channel |
| Machine.CancelledNeverFires | internal/scheduler/store.go:138-147 | after a successful cancellation no continuation captures the task again |
| Machine.IdsNeverReused | internal/scheduler/store.go:99-101 | the next id names no task that is stored or was ever captured |
| Todo.Store.Add | internal/tool/todo/store.go:39-50 | stores and returns the item as given in every field but id and creation time, under an id not in use, stamped by the clock if it has no time |
| Todo.Store.List | internal/tool/todo/store.go:53-68 | returns exactly the stored items, each once, by creation time and then by id |
| Todo.Store.Complete | internal/tool/todo/store.go:71-80 | removes exactly the named item and returns it |
| Todo.Store.IsEmpty | internal/tool/todo/store.go:83-87 | true exactly for the empty queue |
| Todo.RunConsistent | internal/tool/todo/store.go:43-48 | over any run keys are item ids and every id was handed out within 1 to the version |
| Todo.VersionCountsAdds | internal/tool/todo/store.go:89-95 | the version grows by one for each Add call and by nothing else |
| Todo.CompletedStaysGone | internal/tool/todo/store.go:43-48 | an id that was handed out and is gone never names an item again |
| Todo.RunAddOrdered | internal/tool/todo/store.go:45-47 | with store-assigned times and a forward clock, later ids never carry earlier times |
| Todo.ListVersusAddOrder | internal/tool/todo/store.go:61-66 | the list keeps Add order exactly when the times differ or the numerals sort so, always for numerals of equal length |
| Todo.TenthBeforeSecond | internal/tool/todo/store.go:65 | after ten Add calls on an empty queue within one second, item-10 is listed before item-2 |
| History.SanitizeHistory | internal/agent/main/agent.go:285-313 | the loop computes the clean-up function, and every tool message of its result answers a still-unanswered call of the latest assistant message |
| History.OpenMeaning | internal/agent/main/agent.go:287-303 | the pending ids are the still-unanswered calls of the most recent assistant message |
| History.SanitizeFixesIff | internal/agent/main/agent.go:280-313 | the clean-up changes nothing if and only if the sequence is well formed |
| History.SanitizeIdempotent | internal/agent/main/agent.go:280-313 | cleaning twice is cleaning once |
| History.SanitizeSelects | internal/agent/main/agent.go:285-313 | the result is a subsequence that keeps every message that is not a tool message |
| History.SanitizeMaximal | internal/agent/main/agent.go:302-307 | no well-formed subsequence that keeps the other messages keeps more tool messages |
| History.StrictIff | internal/agent/main/agent.go:280-313 | the result has each tool message right after the assistant message that calls it if and only if no answer to an open call came behind anything but unrelated tool messages |
| History.InterruptedCallKept | internal/agent/main/agent.go:280-313 | a concrete failure: a user message between a call and its answer passes the clean-up and breaks the strict order |
| History.SanitizeKeepsUnanswered | internal/agent/main/agent.go:280-313 | exactly the calls that were unanswered before the clean-up are unanswered after it |
| History.SanitizeAppend | internal/agent/main/agent.go:231-275 | cleaning a prefix first makes no difference, and it stays a prefix of the cleaned whole |
| History.CommitExtendsShown | internal/agent/main/agent.go:228-276 | before trimming, a committed history extends exactly what the model was shown, by the whole run if the run is clean |
| History.SanitizeSuffix | internal/agent/main/agent.go:285-329 | cleaning a suffix of a well-formed sequence drops only tool messages before its first assistant message |
| History.TrimThenSanitize | internal/agent/main/agent.go:324-329 | what trimming leaves of a clean history needs only that head clean-up |
| Agent.ModelInput | internal/agent/main/agent.go:227-278 | over any run at most 20 messages are stored and at most 21 shown: the stored ones without orphaned tool messages, then the prompt, well formed |
| Agent.ShowsConversationTail | internal/agent/main/agent.go:227-329 | over any run the model is shown the clean-up of the last part of the whole conversation, then the prompt |
| Agent.ShortConversationKept | internal/agent/main/agent.go:317-329 | a cleaned conversation of up to 20 messages is stored whole |
| Agent.ShownStrictIff | internal/agent/main/agent.go:228-231 | what the model is shown has the strict order if and only if no stored answer to an open call came behind anything but unrelated tool messages |
| Agent.ModelInputStrict | internal/agent/main/agent.go:227-278 | over any run, trimming included, the model is shown the strict order if the messages of every successful round have it |
| Agent.MainAgent.RunOnce | internal/agent/main/agent.go:227-278 | shows the cleaned history and the prompt; a failed round leaves the history alone, a successful one leaves the last 20 messages of the cleaned extension, or all if there are fewer |
| Agent.MainAgent.DrainTodoList | internal/agent/main/agent.go:164-192 | the loop with its two counters computes the drain function on queue, rounds, exit and history |
| Agent.MainAgent.DropHead | internal/agent/main/agent.go:171-174 | removes the first listed item if there is one |
| Agent.MainAgent.Run | internal/agent/main/agent.go:106-130 | the polling loop computes the polling function, commits to the history exactly the rounds of its drains in turn, at most thirty per Add call |
| Drain.DrainStopsFirst | internal/agent/main/agent.go:164-192 | a drain ends at the first round after an empty list, a sixth success or a fifth failure in a row, and only the last removes an item |
| Drain.DrainBound | internal/agent/main/agent.go:28-36 | against any outcomes a drain takes between 1 and 30 rounds |
| Drain.DrainBoundAttained | internal/agent/main/agent.go:164-192 | thirty rounds are reached on any non-empty queue nobody touches |
| Drain.WithoutHeadRemovesOne | internal/agent/main/agent.go:171-172 | giving up on a non-empty queue removes exactly the item no other is listed before |
| Drain.DrainNeedsAdd | internal/agent/main/agent.go:112-126 | after any poll the next one drains only if something was added in between, so a stalled list is not retried |
| Drain.DrainsIffAdd | internal/agent/main/agent.go:112-126 | the pass after any pass drains if and only if it finds the list non-empty and something was added since |
| Drain.VersionCountsAllAdds | internal/tool/todo/store.go:89-95 | over any polls, drains and give-ups included, the version counts the Add calls |
| Drain.RoundsBoundedByAdds | internal/agent/main/agent.go:112-130 | under any producers, drain starts have strictly rising versions, so drains are at most the Add calls and rounds at most thirty times them |
| Pager.FetchInTimeRange | internal/tool/qq/getter.go:100-153 | the paging loop computes the fetch function with at most 500 provider calls and filters by the window |
| Pager.SortsToLogIff | internal/tool/qq/getter.go:175-179 | whatever order a part of the log comes in, the sort restores the order of the log if and only if messages of one second came in it |
| Pager.AnyOrderDelivers | internal/tool/qq/getter.go:175-179 | when no two messages share a second, a lawful provider may answer in any order |
| Pager.FetchFailsIff | internal/tool/qq/getter.go:115-118 | a fetch stops at the first failing call and fails exactly then |
| Pager.StuckProvider | internal/tool/qq/getter.go:139-142 | a provider that keeps giving one answer is asked twice at most |
| Pager.CollectKeeps | internal/tool/qq/getter.go:124-132 | from a page nothing but messages of ids seen before is dropped, and nothing is added |
| Pager.FetchSafety | internal/tool/qq/getter.go:107-152 | for any provider, selected messages lie in the window and no non-zero id appears twice |
| Pager.LawfulFetch | internal/tool/qq/getter.go:97-153 | for a lawful provider, whatever order its pages come in, the selection is exactly the window's messages among the newest 500 of the log at the first call, whatever arrives while paging, and no page is asked for once one goes back past the window |
| Pager.LawfulFetchCompleteIff | internal/tool/qq/getter.go:97-153 | nothing is missed if and only if no message of the window is older than the newest 500 |
| Pager.ShuffledFetch | internal/tool/qq/getter.go:97-153 | for a provider that answers in any order, ties included, the selection holds each message once, all of the log and the window, and misses none if fewer than 500 messages came in |
| Pager.GetMessageHistory | internal/tool/qq/getter.go:47-70 | refuses invalid requests and otherwise shows, for any provider, exactly the messages with text of what it fetched, field by field, times never rising |
| Pager.LawfulHistory | internal/tool/qq/getter.go:45-70 | for a lawful provider every valid request shows, in the order of the log at the first call, exactly the messages with text in the window or among the newest 20 to 100 asked for |
| Pager.ShuffledHistory | internal/tool/qq/getter.go:45-70 | for such a provider a time range that took fewer than 500 messages is answered with exactly its messages with text, each once, times never rising |
| Directory.BuildMemberGroups | internal/adapter/napcat/directory.go:106-129 | a group is listed under a user exactly when the user is listed under the group; entries non-empty, strictly ascending |
| Directory.InverseUnique | internal/adapter/napcat/directory.go:104-129 | there is only one such index, whatever order the maps were ranged over in |
| Directory.EdgesByGroup | internal/adapter/napcat/directory.go:79-88 | the edges counted by member are the distinct members summed over all groups |
| Directory.MemberDirectory.Replace | internal/adapter/napcat/directory.go:32-46 | swaps both contents and marks the directory loaded |
| Directory.MemberDirectory.EdgeCount | internal/adapter/napcat/directory.go:80-88 | the loop counts every position of every entry once |
| Directory.GroupsOfInverse | internal/adapter/napcat/directory.go:56-70 | the copy handed out lists, ascending, exactly the groups that list the user |
| Directory.SyncDirectory | internal/adapter/napcat/napcat_client.go:164-194 | leaves the directory alone unless both lists were fetched; then it is the inverse of the member lists that could be fetched, with their distinct memberships as edges |
| Directory.FetchedMembersOf | internal/adapter/napcat/napcat_client.go:182-190 | with distinct groups, exactly the groups whose member call succeeded are taken over, with that call's list |
| WordCount.CountWords | internal/agent/moderator/word_count.go:22-41 | the nested loops count the words of the fields |
| WordCount.WordsIsScan | internal/agent/moderator/word_count.go:13-21 | counting field by field equals one pass that counts each Han rune and each field's first other letter or digit |
| WordCount.MixedSample | internal/agent/moderator/word_count.go:13-21 | a sample with Han runes, a letter on each side of one, and bare punctuation |
| WordCount.WordsOfConcat | internal/agent/moderator/word_count.go:22-41 | joining two texts adds their counts, less one exactly when the join fuses two fields that both counted a word |
| WordCount.WordsAcrossSpace | internal/agent/moderator/word_count.go:22-41 | white space between two texts keeps their counts apart |
| WordCount.WordsMonotone | internal/agent/moderator/word_count.go:49-55 | appending text never lowers the count, so a comment that passes keeps passing |
| WordCount.ValidateCommentLength | internal/agent/moderator/word_count.go:49-55 | accepts exactly the comments with more than 100 words |

## Left out

- History.StrictIff: the strict order is that of tool messages only; whether a message carries content is not modelled.
- Real time-zone data: Asia/Shanghai is the fixed zone UTC+8, so historical daylight saving is not modelled.
- Machine widths: instants, ids and counters are unbounded integers; 64-bit wrap-around is modelled in the relative-delay arithmetic and in number parsing only.
- Aliasing of task pointers: the task table holds values, and dispatch uses the snapshot's ids as the source does; a caller that keeps a pointer into the table is not modelled.
- Builder.DurationRoundTripIff: rounds sub-minute durations in exact arithmetic where the source rounds a floating-point number of seconds; `Builder.NoSecondsReadBack` shows that the round trip does not depend on the rounding.
- Machine.TickFiresIff: says nothing of a task that is cancelled during the tick; `Machine.VisitCapturesIff` and `Machine.CancelledNeverFires` say what happens then.
- Machine.CancelledNeverFires: says nothing of events that were captured before the cancellation; they are still delivered, as in the source.
- Reading of absolute date-times: `ParseDateTime` wraps the library's parser, so a one-shot rule takes its instant as given.
- WordCount.CountWords: takes the Unicode classes of letters and digits as a parameter; white space and the Han ranges are concrete.
- Pager.LawfulFetch: a lawful provider's log may grow at its head while paging but loses no message, and messages of one second come in the order of the log; `Pager.ShuffledFetch` does without the latter, `Pager.FetchSafety` covers every other provider.
- The model runner, its prompts and its tool calls: a round is an arbitrary outcome with arbitrary messages and queue effects.
- Cancellation of the polling loop and its poll interval: a run is any finite number of polls.
- The reply source kept beside the queue and the text of enqueued scheduled tasks: assignments and formatting without further law.
- Messages to users, HTTP and chat transport, tagging, health, configuration: input and output, or lookups that would add only easy members.
- Liveness: the source does not promise that every queued item is handled, since an item that arrives in a drain's last round is absorbed into the stalled version.
