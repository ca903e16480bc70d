# A verified model of Gatus' stateful core

Gatus is a health monitor. This project models the parts of it that keep state or compute with it, and
proves that each agrees with something much simpler:

- **Alerting** (`Alerting.dfy`, `AlertingHistory.dfy`). Two run-length counters per endpoint and one flag per
  alert, updated in place, against a statement about the whole history of results: an alert is triggered
  exactly when a long enough block of failures was notified and no long enough block of successes came after
  it. Sending is an oracle that may fail at every step.
- **The in-memory store** (`Uptime.dfy`, `Window.dfy`, `Slices.dfy`, `Store.dfy`, `Chart.dfy`, `Paging.dfy`).
  An hourly index with lazy clean-up against counting on all results ever inserted; bounded windows against
  the unbounded history and change log; pages that share arrays with the live windows against snapshots;
  padded chart data against the set of hours it has to show.
- **Suites** (`ContextTree.dfy`, `Gontext.dfy`, `Suite.dfy`). A heap of nested mutable maps addressed by dotted
  paths against plain trees with read and write laws; isolation of that heap from the initial values and from
  copies; the sequential runner against declarative skipping, success and timeout rules; the pairing of
  results with endpoints by position.
- **The path evaluator** (`JsonPath.dfy`, `PathSteps.dfy`, `PathAgreement.dfy`). A walker that splits and edits
  its path again in every call against one split and a fold, and that against looking up names and applying
  indices step by step, and against the context lookup of the same path.
- **Windows and keys** (`Maintenance.dfy`, `Keys.dfy`, `Numerals.dfy`). A calendar window decided from one
  candidate day against the union of all scheduled windows; an encoding of pairs as keys against its decoder,
  and the uniqueness check against pairwise difference.

Times are integers (nanoseconds since the epoch; `Durations.dfy`). Code that changes objects is modelled with classes, arrays
and loops whose `ensures` clauses tie the new state to specification functions; what the program promises is
then proved about those functions for all inputs, runs and histories.

Where the code does not do what a reader of its documentation would expect, the theorems say exactly when:

- Maintenance windows longer than a day minus the minutes of their start lose a tail
  (`Maintenance.CorrectExactlyWhenItFits`, `Maintenance.DecidesExceptInTail`). Validation accepts up to 24 hours.
- With a maximum of one event, the event list is not trimmed until health first changes
  (`Window.EventsAreNewest`).
- Alerting for suites pairs results with endpoints by position, which goes wrong when a skipped endpoint
  precedes an executed one (`Suite.PairedRightExactly`, `Suite.PairingIsSafeExactly`).
- The documentation limits store keys to letters, digits, underscores and hyphens (`gatus/README.md:404`), but
  the code does not check it. With dots allowed, the stored context depends on map iteration order exactly
  when one key is a dotted prefix of another (`Suite.StoreOrderIsIrrelevantExactly`).
- All alerts of an endpoint share one reminder time, so an alert with a short interval can keep one with a
  longer interval from ever being reminded of (`AlertingHistory.RemindedExactly`,
  `AlertingHistory.ShortIntervalStarvesLong`).
- The 30-day chart reads the clock once for its start and again for its query; a clean-up a second or more
  into the next hour can take the first hour away in between (`Chart.LongestPeriodIsKept`, `Chart.PeriodIsLost`).

Also, a suite's timeout is recorded but does not stop the suite: the `break` at `gatus/config/suite/suite.go:142`
leaves the `select`, not the loop. The model follows the code.

## Model

| member | source | states |
|---|---|---|
| `Prelude.JoinSplit` | gatus/config/gontext/gontext.go:40 | splitting a dotted path loses nothing and no piece holds a dot, so different texts are different paths |
| `Prelude.PrefixOfPieces` | gatus/config/gontext/gontext.go:61 | the pieces of one path begin those of another if and only if the text is the same or, followed by a dot, begins the other |
| `Alerting.Alert.ValidateAndSetDefaults` | gatus/alerting/alert/alert.go:76-90 | afterwards both thresholds are at least 1, given ones are kept, and acceptance means reminders are off or at least five minutes apart |
| `Alerting.Endpoint.HandleAlerting` | gatus/watchdog/alerting.go:16-25 | over any sequence of calls the objects are in the state, and the effects are those, of the whole history handled since the endpoint was new; without configuration nothing happens and nothing is counted |
| `Alerting.Endpoint.HandleAlertsToTrigger` | gatus/watchdog/alerting.go:27-81 | a failing step: every alert is decided by the reminder time before the loop, whatever earlier alerts in the list sent |
| `Alerting.Endpoint.HandleAlertToTrigger` | gatus/watchdog/alerting.go:35-80 | one alert: flag, shared reminder time and effects change exactly when a due notification is delivered |
| `Alerting.Endpoint.HandleAlertsToResolve` | gatus/watchdog/alerting.go:83-118 | a successful step: alerts with enough successes are resolved even when the send fails, the others are persisted again |
| `Alerting.Endpoint.HandleAlertToResolve` | gatus/watchdog/alerting.go:85-116 | one alert: resolved and forgotten exactly when the success threshold is reached, then sent as resolved; persisted again below it |
| `AlertingHistory.CountersAreRunLengths` | gatus/watchdog/alerting.go:28-29 | at every point of every history the two counters are the lengths of the run of failures and of successes at its end |
| `AlertingHistory.BlockIsRunLength` | gatus/watchdog/alerting.go:37 | comparing a counter with a threshold asks whether the history ends in a block of that many equal results |
| `AlertingHistory.TriggeredExactlyWhenRaised` | gatus/watchdog/alerting.go:27-118 | for every history and every pattern of failed sends: triggered if and only if enabled and some block of failures of threshold length ended in a delivered send, with no block of successes of threshold length since |
| `AlertingHistory.TriggeredWithReliableProvider` | gatus/watchdog/alerting.go:27-118 | with a provider that never fails, triggered if and only if some threshold block of failures is followed by no threshold block of successes |
| `AlertingHistory.ThresholdsAreMonotone` | gatus/watchdog/alerting.go:36-39 | at every point of two runs over the same results, an enabled alert with a lower failure and a higher success threshold, whose sends go through whenever the other's do, is triggered whenever the other is |
| `AlertingHistory.NotificationsBalance` | gatus/watchdog/alerting.go:68-75 | over any history, delivered initial notifications minus resolutions is 1 if the alert is triggered and 0 if not, and a store obeying the persist and forget calls remembers exactly the triggered alerts |
| `AlertingHistory.KindOfNotification` | gatus/watchdog/alerting.go:40-48 | reminders are attempted only while triggered, initial notifications only while not, both only for enabled alerts on failures; resolve notifications only for triggered alerts that ask for them |
| `AlertingHistory.OneNotificationPerStep` | gatus/watchdog/alerting.go:35-80 | one step attempts at most one notification per alert |
| `AlertingHistory.LastReminderIsNewest` | gatus/watchdog/alerting.go:72 | under a clock that does not go back, the shared reminder time is never earlier than any delivered notification |
| `AlertingHistory.RemindersAreSpaced` | gatus/watchdog/alerting.go:30-43 | a reminder comes at least its alert's minimum interval after every notification delivered in an earlier step, for any order of the alerts |
| `AlertingHistory.LastReminderIsLastDelivered` | gatus/watchdog/alerting.go:72 | for any clock, the shared reminder time is that of the last notification delivered for any alert of the endpoint |
| `AlertingHistory.TriggeredWasNotified` | gatus/watchdog/alerting.go:68-72 | an alert is never triggered without some notification having been delivered |
| `AlertingHistory.RemindedExactly` | gatus/watchdog/alerting.go:36-50 | a reminder is attempted if and only if the step ends a block of failures of threshold length, the alert is enabled, triggered and has reminders, its provider is configured, and its interval has passed since the last notification delivered for any alert |
| `AlertingHistory.AskedBySuccess` | gatus/watchdog/alerting.go:83-118 | for every history, the exact effects of a successful step for an alert, in order: none unless it is raised and unresolved; persisted again below its success threshold; from there on forgotten and, if it sends on resolved and its provider is configured, the resolution, delivered or not |
| `AlertingHistory.AskedByFailure` | gatus/watchdog/alerting.go:27-81 | for every history, the exact effects of a failing step for an alert, in order: an initial notification if it is enabled, at its failure threshold and not raised; a reminder if it is raised and that is due; persisted after each delivered one; otherwise none |
| `AlertingHistory.ResolutionSentExactly` | gatus/watchdog/alerting.go:102-112 | a resolution is sent if and only if the step completes a block of successes of threshold length, the alert is raised and unresolved, it sends on resolved and its provider is configured; it is delivered if and only if the provider takes it |
| `AlertingHistory.InitialSentExactly` | gatus/watchdog/alerting.go:48-80 | an initial notification, delivered or failed, is sent if and only if the step ends a block of failures of threshold length, the alert is enabled and not raised, and its provider is configured; it carries the time read when it was sent |
| `AlertingHistory.ReminderSentExactly` | gatus/watchdog/alerting.go:42-80 | the same for reminders, delivered or failed: the alert is raised and its interval has passed since the last notification delivered for any alert |
| `AlertingHistory.PersistedExactly` | gatus/watchdog/alerting.go:73-91 | an alert is persisted if and only if it was notified successfully in this step, or a success leaves it below its success threshold |
| `AlertingHistory.ForgottenExactly` | gatus/watchdog/alerting.go:97-101 | a raised alert is forgotten if and only if the step completes a block of successes of threshold length, whatever becomes of the send |
| `AlertingHistory.AskedInListOrder` | gatus/watchdog/alerting.go:35-85 | one step deals with the alerts in the order of the list, and with no others |
| `AlertingHistory.ShortIntervalStarvesLong` | gatus/watchdog/alerting.go:34-43 | for any alerts and any history of failures in which from each send to the next check it takes at least the interval of one alert and less than that of another: the first is reminded of in every step but the initial one, the second in none |
| `Uptime.TallySplits` | gatus/storage/store/memory/memory.go:117-129 | counting directly on the history is additive over adjacent spans of hours |
| `Uptime.TallyCounts` | gatus/storage/store/memory/uptime.go:26-30 | the tally of a span of hours is the number of inserts with a result stamped in it, the number of those that succeeded, and the sum of their milliseconds |
| `Uptime.LookupInserted` | gatus/storage/store/memory/uptime.go:20-30 | inserting a result adds it to its own hour and leaves every other hour as it is |
| `Uptime.LookupKept` | gatus/storage/store/memory/uptime.go:35-42 | clean-up does not change what is known about hours from the cut-off on |
| `Uptime.IndexAgreesWithHistory` | gatus/storage/store/memory/uptime.go:16-43 | for every sequence of inserts under a non-decreasing clock, the index and the raw history agree on every hour a clean-up so far keeps |
| `Uptime.AlignedHoursAreFew` | gatus/storage/store/memory/uptime.go:37-41 | a set of whole hours within a span of n hours has at most n members |
| `Uptime.IndexStaysSmall` | gatus/storage/store/memory/uptime.go:9-12 | under a non-decreasing clock, with no result stamped later than it, there are at most 768 hours after every insert, and at most 722 after a clean-up |
| `Uptime.WalkStep` | gatus/storage/store/memory/memory.go:119-120 | the i-th turn of a query loop looks at the i-th hour after that of `from`, so no hour is looked at twice |
| `Uptime.WalkCoversTheRange` | gatus/storage/store/memory/memory.go:118-129 | the hours looked at are those from `from` through `to`, except that the last is left out exactly when `from` lies later within its hour than `to` |
| `Uptime.SpanOfQuery` | gatus/storage/store/memory/memory.go:117-129 | in time, the hours of a query are those from the full hour before `from` to the end of the last hour looked at |
| `Uptime.WalkSumIsTally` | gatus/storage/store/memory/memory.go:116-129 | where index and history agree hour by hour, what a query adds up is the tally of the raw results |
| `Uptime.QueriedHoursAreKept` | gatus/storage/store/memory/uptime.go:36 | a query that starts at most 30 days ago reads no hour that any clean-up removes |
| `Uptime.RangeQueryIsExact` | gatus/storage/store/memory/memory.go:106-134 | hence a query whose first hour clean-up keeps adds up all results ever inserted in the hours it walks |
| `Uptime.RecentRangeQueryIsExact` | gatus/storage/store/memory/memory.go:106-134 | so does every query that starts at most 30 days ago |
| `Uptime.HourlyAveragesAreExact` | gatus/storage/store/memory/memory.go:166-190 | the hourly averages are those of the raw history, with an entry exactly for the hours that have results |
| `Uptime.AveragesCount` | gatus/storage/store/memory/memory.go:177-189 | on the inserts themselves: an hour has an average exactly if some result is stamped in it, and it is the sum of their milliseconds over their number |
| `Uptime.OverallAverageIsBetween` | gatus/storage/store/memory/memory.go:137-190 | over the same hours the overall average lies between the smallest and the largest hourly average, in spite of truncating division |
| `Uptime.Uptime.ProcessUptimeAfterResult` | gatus/storage/store/memory/uptime.go:16-43 | the whole new index in terms of the old one: one more result in its hour, then clean-up if there are too many hours |
| `Uptime.Uptime.CleanUp` | gatus/storage/store/memory/uptime.go:37-41 | deleting while ranging over the map, in any order, leaves exactly the hours from the cut-off on |
| `Uptime.Uptime.GetUptime` | gatus/storage/store/memory/memory.go:116-133 | the loop gives successes over total of the sum over the hours walked |
| `Uptime.Uptime.GetAverageResponseTime` | gatus/storage/store/memory/memory.go:147-163 | the loop gives the average of the sum over the hours walked, 0 without data |
| `Uptime.Uptime.GetHourlyAverageResponseTimes` | gatus/storage/store/memory/memory.go:177-189 | the loop gives the average of every hour with data in the range, and nothing else |
| `Window.ResultsAreNewest` | gatus/storage/store/memory/util.go:100-106 | the results kept are the newest of all results ever added, as many as the maximum allows |
| `Window.EventsAreNewestOrUntrimmed` | gatus/storage/store/memory/util.go:85-99 | for every positive maximum: the exact event list in terms of the full change log |
| `Window.EventsAreNewest` | gatus/storage/store/memory/util.go:85-99 | the event list is the newest part of the change log if and only if the maximum is at least 2 or health has changed since the first result |
| `Window.ChangeLogAlternates` | gatus/storage/store/memory/memory.go:196-202 | the change log starts with the start event, neighbours differ, and its last event is healthy if the newest result succeeded and unhealthy if not |
| `Window.EventsAlternate` | gatus/storage/store/memory/util.go:87-94 | the same of the events actually kept, whatever the maxima |
| `Window.ChangeLogTells` | gatus/storage/store/memory/util.go:85-99 | besides the start, the change log holds one event for each result whose health differs from that before it, in order, with that result's time, and healthy exactly if it succeeded |
| `Window.PageIsWithin` | gatus/storage/store/memory/util.go:62-77 | unless it is no page at all, a page is a well-formed part of the list, so slicing never fails |
| `Window.PageHolds` | gatus/storage/store/memory/util.go:62-77 | the exact page: counted back from the newest element, cut off at the oldest, and nothing for a page below 1 or a negative size |
| `Window.PagesAreSuffix` | gatus/storage/store/memory/util.go:66-75 | pages n down to 1, one after the other, are the newest n times page size elements, none lost or repeated |
| `Window.PagesRebuildTheList` | gatus/storage/store/memory/util.go:62-77 | they are the whole list if and only if they are long enough |
| `Slices.Append` | gatus/storage/store/memory/util.go:88 | an append writes nothing but the one element behind the view, or moves to a new array |
| `Slices.AppendTrimmed` | gatus/storage/store/memory/util.go:100-106 | append and trim keep the newest elements and change nothing any earlier view can see |
| `Store.Status.AddResult` | gatus/storage/store/memory/util.go:81-108 | results, events and uptime index move on by one insert, the trace of what was held so far grows by exactly that, and nothing below the old end of either array changes |
| `Store.TraceEndsWithHistory` | gatus/storage/store/memory/util.go:81-108 | such a trace ends with the windows and the index that the specification gives for the whole history |
| `Store.Status.TellsHistory` | gatus/storage/store/memory/util.go:81-108 | at any time the windows and the index held are those that all inserts so far lead to |
| `Store.Status.AddEvent` | gatus/storage/store/memory/util.go:85-99 | an event is added for the first result and for each change of health, and trimmed only on a change |
| `Store.ShallowCopyEndpointStatus` | gatus/storage/store/memory/util.go:11-38 | the copy shows the requested pages, as views of part of the live slices or new empty ones |
| `Store.ShownByParams` | gatus/storage/store/memory/util.go:17-36 | without page numbers a copy shows all; otherwise results and events are each cut by their own page and size |
| `Store.Perform` | gatus/storage/store/memory/util.go:11-38 | one addition or copy, with any growth of the arrays, changes nothing any earlier copy shows |
| `Store.CopiesStayAsTheyWere` | gatus/storage/store/memory/util.go:11-38 | after any sequence of additions and copies, every copy still shows what it showed when it was handed out |
| `Store.SuiteStatus.InsertSuiteResult` | gatus/storage/store/memory/memory.go:211-235 | a suite keeps the newest of all results ever inserted, and earlier views of them stay as they were |
| `Store.ShallowCopySuiteStatus` | gatus/storage/store/memory/util.go:42-60 | the copy shows the requested page of the newest of all results ever inserted |
| `Store.SuiteShownByParams` | gatus/storage/store/memory/util.go:50-58 | the same for the results of a suite |
| `Store.InsertBesideSuiteCopies` | gatus/storage/store/memory/memory.go:224-232 | a later result, with any growth of the array, changes nothing any earlier copy of the suite shows |
| `Store.AddAmong` | gatus/storage/store/memory/memory.go:204 | adding to one status of many leaves every other one valid and apart |
| `Store.AddBesideCopies` | gatus/storage/store/memory/memory.go:204 | an addition to one status of many changes nothing that any copy of any of them shows |
| `Store.CopyAmong` | gatus/storage/store/memory/util.go:11-38 | a copy of one status of many is out of reach of additions to all of them |
| `Store.Store.InsertBesideCopies` | gatus/storage/store/memory/memory.go:193-208 | whatever copies of any keys the store handed out before, an insert under any key, known or new, leaves them as they were and out of reach of the next |
| `Store.Serve` | gatus/storage/store/memory/memory.go:84-208 | any request to a store, insert or read, under any key, in terms of the starts and inserts of all keys alone: what they are then, and what is handed out; every copy handed out before goes on showing what it showed |
| `Store.QueryCounts` | gatus/storage/store/memory/memory.go:116-163 | as far back as clean-up keeps the first hour, what a query of a status adds up is the number, the successes and the milliseconds of its inserts stamped in the hours walked |
| `Store.Store.InsertEndpointResult` | gatus/storage/store/memory/memory.go:193-208 | an insert is recorded under its key, other keys keep their statuses and histories, the whole store stays consistent, and no view of the arrays in use sees a change |
| `Store.Store.GetUptimeByKey` | gatus/storage/store/memory/memory.go:106-134 | the error for each bad request; otherwise always what the index of all inserts adds up to, and, as far back as clean-up keeps the first hour, the number of inserts in the hours walked that succeeded over the number of all of them |
| `Store.Store.GetAverageResponseTimeByKey` | gatus/storage/store/memory/memory.go:137-164 | the same for the milliseconds of those inserts over their number |
| `Store.Store.GetHourlyAverageResponseTimeByKey` | gatus/storage/store/memory/memory.go:167-190 | the same hour by hour: an entry exactly for the hours with results, their milliseconds over their number |
| `Store.Store.GetEndpointStatusByKey` | gatus/storage/store/memory/memory.go:84-92 | the page of the windows that the whole history leads to, out of reach of later inserts, or nothing for an unknown key |
| `Chart.CollectHours` | gatus/api/chart.go:163-170 | in any order of the map: all hours with data, each once, and the earliest of them |
| `Chart.PadBack` | gatus/api/chart.go:171-174 | stepping back from the earliest hour lands exactly on the start, adding each hour before the first data point once |
| `Chart.PadAndSort` | gatus/api/chart.go:163-183 | the output increases strictly, consists of exactly the wanted hours, and pairs each with its average or 0 |
| `Chart.ShowHistory` | gatus/api/chart.go:157-187 | for any averages: nothing without data, and otherwise the padded hours in milliseconds next to their averages |
| `Chart.HistorySays` | gatus/api/chart.go:157-187 | what such an answer says: strictly increasing times, exactly the hours with an average and those from the start up to the first of them, each with its average or 0 |
| `Chart.SortedDistinctIncreases` | gatus/api/chart.go:175 | sorting hours of which none occurs twice gives a strictly increasing list of the same hours |
| `Chart.ResponseTimeHistory` | gatus/api/chart.go:130-188 | the error for an unknown period, an undecodable key and an unknown endpoint; otherwise an answer that is gap-free from the start of the period up to the first data point and complete for the data, and whose averages are those of all results ever inserted unless clean-up may have run too late |
| `Chart.PeriodStartsAtAnHour` | gatus/api/chart.go:133-139 | periods start on the hour, so padding and data use the same grid |
| `Chart.PeriodStartsDaysAgo` | gatus/api/chart.go:133-139 | the start of a period is the full hour at or before the moment 30 days, 7 days or one day ago |
| `Chart.PeriodIsKept` | gatus/api/chart.go:134-135 | a clean-up keeps the first hour of a period if and only if it runs less than 30 days, an hour and a second after the period's start |
| `Chart.LongestPeriodIsKept` | gatus/api/chart.go:134-135 | for the 30-day period: if and only if it runs before the first second of the next hour is over |
| `Chart.PeriodCanBeLost` | gatus/api/chart.go:134-147 | asked for just before any full hour and cleaned up a second after it, the 30-day period has lost its first hour |
| `Chart.FirstHourIsTaken` | gatus/storage/store/memory/uptime.go:35-42 | any insert at that moment that cleans up takes the first hour of the period out of the index |
| `Chart.PeriodIsLost` | gatus/api/chart.go:134-147 | a concrete history, one result in each of 769 hours, after which the averages of the period are not those of the history |
| `ContextTree.GetAfterSet` | gatus/config/gontext/gontext.go:37-88 | reading at any path after writing at any other: below it the written value, beside it what was there, above it the old value with the write inside |
| `ContextTree.SetsCommute` | gatus/config/gontext/gontext.go:58-88 | writes at paths of which neither extends the other commute, also when they overwrite scalars on the way |
| `ContextTree.SetsCommuteExactly` | gatus/config/gontext/gontext.go:58-88 | two writes of scalars commute if and only if the paths are incomparable or the writes are equal |
| `ContextTree.EmptyMapOnTheWay` | gatus/config/gontext/gontext.go:69-83 | creating intermediate maps one by one does not change what the final write leads to |
| `ContextTree.GetAfterAll` | gatus/config/suite/suite.go:180-192 | after any order of pairwise incomparable writes, each of them can be read |
| `ContextTree.OrderIsIrrelevant` | gatus/config/suite/suite.go:180-192 | any two orders of pairwise incomparable writes give the same context |
| `ContextTree.ComparableWritesDisagree` | gatus/config/suite/suite.go:180-192 | two writes of which one path extends the other give different contexts in the two orders |
| `ContextTree.SomeOrdersDisagree` | gatus/config/suite/suite.go:180-192 | one pair of comparable writes among any others is enough for two orders to disagree |
| `ContextTree.OrderIsIrrelevantExactly` | gatus/config/suite/suite.go:180-192 | all orders of a set of writes to different paths agree if and only if no path is a prefix of another |
| `Gontext.DeepCopyValue` | gatus/config/gontext/gontext.go:103-121 | a copy stands for the same tree and consists of new objects only, none of them shared within it |
| `Gontext.CopyEntries` | gatus/config/gontext/gontext.go:106-110 | the same for a map, copied entry by entry in any order |
| `Gontext.CopyItems` | gatus/config/gontext/gontext.go:111-116 | the same for a slice |
| `Gontext.MatchesJoins` | gatus/config/gontext/gontext.go:65-86 | replacing the map at a path in the heap is replacing it in the tree, since nothing is shared |
| `Gontext.EraseReplace` | gatus/config/gontext/gontext.go:86 | storing one entry in the map at a path is the write of the tree model at the longer path |
| `Gontext.PutBelow` | gatus/config/gontext/gontext.go:65-86 | putting an entry into a nested map keeps the whole free of sharing and is the write of the tree model |
| `Gontext.Gontext.constructor` | gatus/config/gontext/gontext.go:22-34 | a new context stands for the same tree as the initial values and shares nothing with them |
| `Gontext.Gontext.Get` | gatus/config/gontext/gontext.go:37-55 | the lookup loop finds a value exactly when the tree has one at the dotted path, and it is that value |
| `Gontext.Gontext.Set` | gatus/config/gontext/gontext.go:58-88 | writing any value in place is the write of the tree model, touches only the context's own objects, and keeps it free of sharing |
| `Gontext.Gontext.Descend` | gatus/config/gontext/gontext.go:67-84 | one step towards the target: the map found or made there, without changing where the write leads |
| `Gontext.Gontext.PutAt` | gatus/config/gontext/gontext.go:75-86 | assigning one entry of a nested map changes the tree at exactly that path |
| `Gontext.Gontext.GetAll` | gatus/config/gontext/gontext.go:91-100 | the result stands for the same tree and shares nothing with the context |
| `Gontext.ReadTree` | gatus/config/gontext/gontext.go:37-55 | reading a whole value off the heap gives the tree it stands for |
| `Suite.RunsExactly` | gatus/config/suite/suite.go:132-136 | an endpoint is executed if and only if it always runs or every endpoint executed before it succeeded |
| `Suite.FailedExactly` | gatus/config/suite/suite.go:162-165 | the suite counts as failed if and only if some executed endpoint failed |
| `Suite.TimedOutExactly` | gatus/config/suite/suite.go:138-144 | a timeout is recorded if and only if it had expired when some executed endpoint was about to start |
| `Suite.ResultsExactly` | gatus/config/suite/suite.go:147-165 | one result for each executed endpoint, in order, with its name, the success of its evaluation, and a storing error if and only if some placeholder of its mapping resolves to nothing |
| `Suite.Result.CalculateSuccess` | gatus/config/suite/result.go:42-55 | success if and only if all results succeeded and no error was recorded |
| `Suite.Result.AddError` | gatus/config/suite/result.go:37-39 | errors are only ever added at the end |
| `Suite.AllSucceededExactly` | gatus/config/suite/suite.go:162-169 | recomputing success from the results agrees with the flag kept while running |
| `Suite.StoreResultValues` | gatus/config/suite/suite.go:174-198 | in any iteration order: every value that resolves is written, unresolved ones are reported, and the context is that of some order of exactly those writes |
| `Suite.StoredIsRead` | gatus/config/suite/suite.go:174-198 | unless a key is a dotted prefix of another, every value that was stored is read back under its key in any iteration order, and paths beside the keys are unchanged |
| `Suite.StoreOrdersDisagree` | gatus/config/suite/suite.go:180-192 | whatever a key and a dotted extension of it resolve to, two iteration orders give different contexts |
| `Suite.StoreOrderIsIrrelevantExactly` | gatus/config/suite/suite.go:180-192 | for any mapping: all iteration orders give the same context, whatever the placeholders resolve to, if and only if no key is a dotted prefix of another |
| `Suite.ContextIsDetermined` | gatus/config/suite/suite.go:131-167 | two runs of the same evaluator, which may read the context, evaluate alike and end in the same context, for all iteration orders, if no endpoint of one of them stores at a path and at an extension of it |
| `Suite.RunIsDetermined` | gatus/config/suite/suite.go:131-167 | so for a configuration without dotted prefixes among the keys of an endpoint, all results, the timeout and the final context are determined |
| `Suite.Execute` | gatus/config/suite/suite.go:116-171 | every endpoint is evaluated in the context that those before it left; results of exactly the executed endpoints in order, success if and only if all succeeded and nothing timed out, at most one timeout error and no endpoint stopped by it, and a context made of fresh objects; the initial context is untouched |
| `Suite.WritesStayInside` | gatus/config/gontext/gontext.go:22-34 | after any writes, the initial values and a copy taken on the way are what they were |
| `Suite.EveryRunStartsAlike` | gatus/config/suite/suite.go:119 | two executions one after the other, with evaluations that may read the context, start from the same initial tree, and unless some endpoint stores ambiguously have equal results, success and final context |
| `Suite.PairForAlerting` | gatus/watchdog/suite.go:56-59 | result number i is taken for endpoint number i |
| `Suite.PairedRightExactly` | gatus/watchdog/suite.go:56-59 | in one run, every pair handed to alerting is an endpoint with its own result if and only if no skipped endpoint precedes an executed one |
| `Suite.PairingIsSafeExactly` | gatus/watchdog/suite.go:56-59 | for a configuration, every run pairs right if and only if no always-run endpoint follows one, other than the first, that is not |
| `JsonPath.FirstKey` | gatus/jsonpath/jsonpath.go:34-42 | a path starts with its first key and a dot, and what follows has exactly the remaining keys |
| `JsonPath.SplitKeys` | gatus/jsonpath/jsonpath.go:25-41 | the scanning loop with its bracket depth computes the keys of a path, and `PathSteps.KeysOfPath` says what those are |
| `JsonPath.FindIndex` | gatus/jsonpath/jsonpath.go:72-88 | the loop finds the first closed bracket and what is written in it, and whether another follows |
| `JsonPath.ExtractValue` | gatus/jsonpath/jsonpath.go:69-131 | the recursive method terminates, on ever shorter keys, with the specified extraction, for every key and value, panics included |
| `JsonPath.ExtractAnyIndexed` | gatus/jsonpath/jsonpath.go:69-117 | a name with any number of any bracketed texts: indexing step by step, with null for a text that is no number or too large an index, and a panic for a negative one |
| `JsonPath.ExtractIndexed` | gatus/jsonpath/jsonpath.go:69-117 | a name with any number of indices of any size gives the element reached by indexing step by step, null exactly when a step fails or that element is null, and a panic exactly for a name with a readable index looked up in a scalar or array |
| `JsonPath.RemoveFirst` | gatus/jsonpath/jsonpath.go:45 | what replacing the first occurrence does |
| `JsonPath.RemovingTheFirstKey` | gatus/jsonpath/jsonpath.go:45-53 | dropping the first occurrence of the first key and its dot leaves exactly the other keys, and leaves the path unchanged exactly when there are none |
| `JsonPath.Walk` | gatus/jsonpath/jsonpath.go:24-67 | the walker terminates and equals one split of the path followed by a fold over the keys |
| `PathSteps.KeysOfPath` | gatus/jsonpath/jsonpath.go:25-41 | a path made of names without dots and brackets, each with any number of bracketed texts, joined by dots, is split into exactly those |
| `PathSteps.WalkIsStepwise` | gatus/jsonpath/jsonpath.go:24-67 | from any value, walking such a path is looking up its names and applying its indices one after the other; texts may only come last, and numbers, booleans and arrays end the walk |
| `PathSteps.WalkFindsExactly` | gatus/jsonpath/jsonpath.go:24-67 | from an object, with decimal indices of any size, the walk never panics, and it reaches a value if and only if all steps lead to it, or the first of them lead to it and it is a number, boolean or array |
| `PathSteps.WalkFromOther` | gatus/jsonpath/jsonpath.go:90-131 | from anything but an object, what each form of the first step leads to, and the panic exactly for a name with a readable index on a value that is not null |
| `PathAgreement.KeysWithoutBrackets` | gatus/jsonpath/jsonpath.go:27-41 | on paths without brackets both path languages split alike |
| `PathAgreement.WalkAgreesWithGet` | gatus/jsonpath/jsonpath.go:24-67 | on such paths over nested objects of texts, the walker reaches a value exactly when the context lookup does, and the same one |
| `Numerals.TwoDigitsRoundTrip` | gatus/config/maintenance/maintenance.go:146-148 | two digits are read as the number they write |
| `Numerals.AtoiRoundTrip` | gatus/jsonpath/jsonpath.go:89-92 | every number written out, with either sign or none, is read as itself if 64 bits can hold it, and refused otherwise |
| `Numerals.AtoiRefuses` | gatus/jsonpath/jsonpath.go:89-92 | only an optional sign and at least one digit is read as a number |
| `Maintenance.HhmmRoundTrip` | gatus/config/maintenance/maintenance.go:127-144 | every time of day, written out, is read as itself |
| `Maintenance.AcceptedExactly` | gatus/config/maintenance/maintenance.go:68-97 | a window is accepted if and only if its days are names of weekdays, its start is a time of day, its duration more than nothing and at most 24 hours, and its zone known |
| `Maintenance.StartsAt` | gatus/config/maintenance/maintenance.go:127-144 | an accepted start is read as its hours and minutes, with or without leading zeros |
| `Maintenance.WeekdayNames` | gatus/config/maintenance/maintenance.go:116 | the days carry the names of the week in order, the epoch being a Thursday |
| `Maintenance.WindowStartsTodayOrYesterday` | gatus/config/maintenance/maintenance.go:108-112 | a validated window can cover a moment only from today's or yesterday's start |
| `Maintenance.DecidesExceptInTail` | gatus/config/maintenance/maintenance.go:108-124 | at every moment, looking at one candidate day says yes exactly inside the window of a scheduled day, except in a tail within the hour of the start |
| `Maintenance.CorrectExactlyWhenItFits` | gatus/config/maintenance/maintenance.go:100-125 | a validated window is decided right at all moments if and only if its duration plus the minutes of its start is at most 24 hours |
| `Maintenance.Config.ValidateAndSetDefaults` | gatus/config/maintenance/maintenance.go:68-97 | which error comes first, and that an accepted window has valid days, start, duration and zone |
| `Maintenance.Config.IsUnderMaintenance` | gatus/config/maintenance/maintenance.go:100-125 | in the window's zone: enabled, inside the window of some scheduled day and not in the lost tail; without the last condition for windows that fit |
| `Keys.SanitizeIsClean` | gatus/config/key/key.go:10-21 | a sanitised text holds none of the replaced characters and no upper case, and white space at neither end |
| `Keys.SanitizeExactly` | gatus/config/key/key.go:10-21 | white space is taken off both ends and each character between is replaced by a hyphen, its lower case, or itself |
| `Keys.CleanIsFixed` | gatus/config/key/key.go:10-21 | such a text is sanitised to itself, so sanitising twice is sanitising once |
| `Keys.KeyDecodes` | gatus/config/key/key.go:6-8 | a key has one underscore and decodes to the sanitised pair |
| `Keys.KeyIsInjective` | gatus/config/key/key.go:6-8 | two keys are equal if and only if group and name agree after sanitising |
| `Keys.DecodedKeyIsSameKey` | gatus/config/key/key.go:6-8 | making a key of a decoded key gives it back |
| `Keys.Register` | gatus/config/config.go:542-548 | the map always holds exactly the keys before this one, and the first repetition stops the check |
| `Keys.ValidateUniqueKeys` | gatus/config/config.go:539-574 | accepts if and only if no two of the endpoints, external endpoints, suites and suite endpoints (with their suite's group) agree in sanitised group and name; otherwise reports the first repeated key and what it conflicts with |
| `Keys.RegisterSuite` | gatus/config/config.go:559-573 | a suite's own key and those of its endpoints, with its group, are checked in that order |
| `Keys.SuiteEndpointsAreFree` | gatus/config/config.go:566-572 | in an accepted configuration the name of a suite's endpoint, with the suite's group, is that of no endpoint, external endpoint or suite, and of no other suite endpoint |
| `Paging.ExtractPageAndPageSizeFromRequest` | gatus/api/util.go:17-46 | a readable positive page counts, otherwise 1; on page 1 the size asked for, or 50, is at most the maximum, and on other pages as asked; 50 stands for anything below 1 |
| `Paging.ClampingKeepsThePage` | gatus/api/util.go:38-41 | clamping page 1 to the maximum drops no element of a list that respects it |
| `Paging.RequestedPage` | gatus/api/util.go:17-46 | so a request shows exactly the page it means |

## Left out

- Alert providers: a send is an oracle that is not configured, fails or is delivered.
- Probes, conditions and placeholders: the outcome of an evaluation, and what a stored placeholder resolves to, are any function of the endpoint and the context at its turn. The parsing of a resolved text into a number or boolean is part of that oracle.
- Persistence in SQL, reloading triggered alerts at start-up, and the failure of persist or forget calls, which the code only logs.
- External endpoints' reminder spacing: their conversion does not carry the time of the last reminder (`gatus/config/endpoint/external_endpoint.go:90-101`), so the spacing theorem is about endpoints only.
- Locks, the monitoring semaphore, tickers and shutdown: operations are atomic.
- The connectivity check and maintenance windows as filters in front of alerting (`gatus/watchdog/suite.go:42-69`): histories consist of the results that reach the state machine.
- JSON and YAML parsing, the text a walker's result is rendered as, and its length: the walk ends with the value it reaches.
- Texts outside ASCII: lower-casing and trimming of keys is modelled for ASCII.
- Time-zone data and shifts of the clock: a zone is a constant offset.
- Integer overflow of counters, sums, page numbers and hour arithmetic: integers are unbounded. Durations of results are not negative.
- Floating point: an uptime is a real number, and the truncated quotient of two floats is integer division, the same below 2 to the 53rd.
- The cache's own eviction and the deletion of statuses not in the configuration.
- Suite validation, and the timestamps and durations of suite results.
- Badges, chart rendering, the web application, metrics and security: presentation and plumbing.
- Gontext.Gontext.Set: the value must share nothing with the context, and belongs to it from then on; aliasing of values that a caller goes on using is not modelled. Suites only ever store scalars.
- Store.ShallowCopyEndpointStatus: the name, group and key of the copy, and its empty uptime, are not modelled.
- Store.ShallowCopySuiteStatus: the name, group and key of the copy are not modelled.
- Store.Serve: states one request. It ensures what it requires, so it applies to request after request; the fold over a sequence is spelled out for one status only (`Store.CopiesStayAsTheyWere`).
- Store.SuiteStatus.InsertSuiteResult: the look-up and creation of the status under the suite's key is not modelled; endpoints have it.
- Maintenance.Config.ValidateAndSetDefaults: a missing configuration, which the code accepts, is not modelled.
- Suite.PairForAlerting: the maintenance filters between a pair and alerting are not modelled.
- JsonPath.Walk: ends with the value reached; the text it is rendered as and that text's length are not modelled.
- JsonPath.ExtractIndexed: arrays are no longer than an integer can count, as in the program.
- Chart.ResponseTimeHistory: asks for a period that starts after the epoch, because the code uses 0 for "no hour seen yet". Hours without data after the first data point are not shown, as in the code.
- Chart.SortInts: an insertion sort stands in for the library's.
- Store.Store.GetUptimeByKey: agrees with the raw history only under a clock that does not go back and as far back as clean-up keeps hours; before that it is what the index still holds.
- Store.Store.GetAverageResponseTimeByKey: the same.
- Store.Store.GetHourlyAverageResponseTimeByKey: the same.
- AlertingHistory.RemindersAreSpaced: needs clock readings that do not go back within and across steps.
- Gontext.Gontext.Get: the two ways of not finding a path give the same error in the code and are one outcome here.
