# T1D tracker: tap classifier, event log and adherence status

A Dafny model of the logic inside the `App` class of a browser-based type-1
diabetes tracker. The user taps a virtual bracelet. After a 300 ms pause, a
single tap logs a meal and a burst of two or more taps logs one insulin dose.
Events go into a newest-first log. The app then rates adherence:

- `neutral`: no meal has been logged yet;
- `good`: some insulin dose is strictly later than the last meal;
- `warning`: the configured insulin interval has not yet run out;
- `alert`: the interval has run out.

Modules:

- `Optional` (`optional.dfy`): the `Option` type. It stands for a `find` result and for a value that may be missing from the store.
- `EventLog` (`event_log.dfy`): `Event` and `EventKind`, plus the read-only queries over the log. These are `Find` (JavaScript's `Array.prototype.find`), the last-of-kind lookups of `updateStats`, and the today filter of `renderChart`.
- `Adherence` (`adherence.dfy`): `Settings`, `Status` and their defaults, plus `HealthStatus` (`checkHealthStatus`) and the lemmas about it. `HealthStatus` is specified against reference predicates written straight over the log: `IsLastMeal`, `NoMeal`, `InsulinAfter` and `VerdictAfterMeal`.
- `TrackerApp` (`app.dfy`): the class `App`, whose fields are `events`, `settings`, `tapCount` and `pending`. Its methods are the source's handlers. A pending debounce timer is the flag `pending`. `Tap` cancels and reschedules the flag. `Expire` is the timer firing. The invariant `Valid()` says a timer is pending exactly while taps are being counted. Two client methods state properties that span several handler calls.

Time is in whole milliseconds. The test `(now - meal) / 60000 > insulinInterval` on real numbers is written as `now - meal > insulinInterval * 60000` on integers. `Math.floor` of the elapsed minutes is Dafny's `/` by the positive divisor 60000. What the `alert` payload satisfies is stated as the floor property: `minutes * 60000 <= elapsed < (minutes + 1) * 60000`.

## Model

| member | source | states |
|---|---|---|
| `EventLog.Find` | js/app.js:373-375 | the result is absent exactly when no element matches; otherwise it is the element at the first matching index of the log |
| `EventLog.LastOfKind` | js/app.js:336-337 | absent iff the log has no event of that kind; otherwise an event of that kind with no event of that kind before it (the newest one) |
| `EventLog.LastOfKindAfterPrepend` | js/app.js:214 | after an event is put at the front of the log, the lookup for its kind returns it, and the lookup for the other kind is unchanged |
| `EventLog.TodaysEvents` | js/app.js:230-231 | an order-preserving subsequence of the log; every kept event is on the same local day as now; each same-day event is kept as often as it occurs and no other event is kept |
| `Adherence.LoadSettings` | js/app.js:5-8 | no stored settings gives mealInterval 4 and insulinInterval 15; stored settings are used as they are |
| `Adherence.HealthStatus` | js/app.js:360-391 | neutral iff the log holds no meal; otherwise, for the last meal: good iff some insulin is strictly later than it; else alert carrying the floor of the elapsed minutes when more than the interval has passed; else warning carrying the interval |
| `Adherence.LastMealExists` | js/app.js:361 | a log holding some meal has a first meal, the one the evaluator calls the last meal |
| `Adherence.StatusIgnoresMealInterval` | js/app.js:360-391 | changing mealInterval never changes the status |
| `Adherence.GoodIgnoresElapsedTime` | js/app.js:373-390 | a good status stays good whatever the current instant and the settings |
| `Adherence.AlertIffOverdue` | js/app.js:377-387 | with no later insulin: alert iff elapsed time exceeds the interval, warning iff it does not (equality gives warning); an alert's minutes are at least the interval |
| `Adherence.SimultaneousInsulinIsNotAfter` | js/app.js:373-375 | insulin that is not strictly later than the last meal, one with an equal timestamp included, never makes the status good |
| `Adherence.InsulinAfterLastMealIsGood` | js/app.js:373-390 | logging insulin later than the last meal makes the status good |
| `Adherence.MealRestartsWait` | js/app.js:361-387 | logging a meal no earlier than every logged event gives warning within the interval and alert with the elapsed minutes after it |
| `Adherence.Scenarios` | js/app.js:360-391 | worked cases: empty log is neutral; meal plus 10 min is warning 15; plus 15 min is warning; plus 20 min is alert 20; insulin at +5 is good at +30; insulin an hour before the meal is ignored |
| `TrackerApp.App.constructor` | js/app.js:2-11 | events and settings come from the store, or are empty and the defaults; no taps counted and no timer pending |
| `TrackerApp.App.CheckHealthStatus` | js/app.js:360-391 | returns the status of the current log and settings at now and changes nothing |
| `TrackerApp.App.LogEvent` | js/app.js:207-219 | the log becomes the new event followed by the old log unchanged; length grows by one; other fields unchanged; returns the re-evaluated status |
| `TrackerApp.App.Tap` | js/app.js:167-177 | tapCount grows by exactly one; exactly one timer is pending afterwards; log and settings unchanged |
| `TrackerApp.App.Expire` | js/app.js:177-187 | a count of one prepends exactly one meal; two or more prepend exactly one insulin; afterwards tapCount is 0 and no timer is pending |
| `TrackerApp.App.UpdateStats` | js/app.js:335-337 | returns the last meal and the last insulin of the log |
| `TrackerApp.App.RenderChart` | js/app.js:229-231 | returns today's events of the log |
| `TrackerApp.App.ChangeMealInterval` | js/app.js:85-89 | only mealInterval changes; the re-evaluated status equals the status before the change |
| `TrackerApp.App.ChangeInsulinInterval` | js/app.js:91-95 | only insulinInterval changes; the re-evaluation uses the new interval |
| `TrackerApp.TapBurst` | js/app.js:167-188 | n >= 1 taps followed by one expiry log exactly one event, a meal iff n is 1, and leave the classifier idle |
| `TrackerApp.RecordThree` | js/app.js:214 | three events logged in turn appear newest first, ahead of the old log |

## Left out

- All DOM and presentation work: element lookup, listener wiring, ripples, the gesture feedback text, the feedback panel's HTML and icons, view switching, profile editing and the auth overlay. None of it affects the log, the settings or the status.
- The chart's option building and the split of today's events into meal and insulin series handed to ApexCharts, a foreign library. Only the today filter is modelled.
- Login, logout and the profile save/load. These are mock forms and free text with no logic.
- `localStorage` and JSON. A stored value is an `Option` input to the constructor, and every save is omitted. `JSON.parse` throws on malformed data, so the source does not fail soft there and the model claims nothing about it. A stored settings object with missing fields is not modelled.
- The real timers. `setTimeout` and `clearTimeout` become the `pending` flag, with `Tap` and `Expire` as explicit steps, so the 300 ms window itself is not modelled. The 60-second `setInterval` re-evaluation is the caller calling `CheckHealthStatus`.
- The clock. Each operation takes one caller-supplied instant `now`. The source reads the clock separately for the event id, the timestamp and the re-evaluation. Id uniqueness is not claimed, because `Date.now()` does not guarantee it.
- The local time zone. `setHours(0, 0, 0, 0)` is the function parameter `dayOf`.
- `parseInt` on the settings inputs, which can yield `NaN`. The handlers take integers.
- Floating point. `minsSinceMeal` is a real-valued quotient in the source. The model uses exact integer milliseconds and ignores rounding of very large timestamps.
- The exact message strings. A status is its kind plus the one number its message shows.
