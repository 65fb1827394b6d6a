/** The `App` object: the tap-burst classifier, the in-memory event log and
    the settings, with the handlers that change them. The browser timer is an
    explicit `pending` flag: `Tap` (re)schedules it and `Expire` is its firing. */
module TrackerApp {
  import opened Optional
  import opened EventLog
  import opened Adherence

  class App {
    var events: seq<Event>
    var settings: Settings
    var tapCount: nat
    var pending: bool

    /** A debounce timer is pending exactly while a burst is being counted. */
    ghost predicate Valid()
      reads this
    {
      pending <==> tapCount > 0
    }

    /** Starts from what the store holds: no events and the default settings
        when nothing is stored. */
    constructor (storedEvents: Option<seq<Event>>, storedSettings: Option<Settings>)
      ensures Valid()
      ensures storedEvents.None? ==> events == []
      ensures storedEvents.Some? ==> events == storedEvents.value
      ensures settings == LoadSettings(storedSettings)
      ensures tapCount == 0 && !pending
    {
      events := storedEvents.GetOr([]);
      settings := LoadSettings(storedSettings);
      tapCount := 0;
      pending := false;
    }

    /** `checkHealthStatus`: the status the feedback panel shows at `now`. */
    method CheckHealthStatus(now: int) returns (st: Status)
      ensures st == HealthStatus(events, settings, now)
    {
      st := HealthStatus(events, settings, now);
    }

    /** `logEvent`: puts a new record at the front of the log and re-evaluates. */
    method LogEvent(kind: EventKind, now: int) returns (st: Status)
      modifies this
      ensures events == [Event(now, kind, now)] + old(events)
      ensures |events| == |old(events)| + 1 && events[1..] == old(events)
      ensures settings == old(settings) && tapCount == old(tapCount) && pending == old(pending)
      ensures st == HealthStatus(events, settings, now)
    {
      var event := Event(now, kind, now);
      events := [event] + events;
      st := CheckHealthStatus(now);
    }

    /** `handleTap`: counts the tap, cancels the pending timer if any and
        schedules a fresh one. */
    method Tap()
      requires Valid()
      modifies this
      ensures Valid()
      ensures tapCount == old(tapCount) + 1 && pending
      ensures events == old(events) && settings == old(settings)
    {
      tapCount := tapCount + 1;
      if pending {
        pending := false;
      }
      pending := true;
    }

    /** The debounce timer fires: one tap logs a meal, two or more log one
        insulin dose; the classifier then returns to idle. */
    method Expire(now: int) returns (st: Option<Status>)
      requires Valid() && pending
      modifies this
      ensures Valid() && tapCount == 0 && !pending
      ensures settings == old(settings)
      ensures old(tapCount) == 1 ==> events == [Event(now, Meal, now)] + old(events)
      ensures old(tapCount) >= 2 ==> events == [Event(now, Insulin, now)] + old(events)
      ensures st == Some(HealthStatus(events, settings, now))
    {
      if tapCount == 1 {
        var s := LogEvent(Meal, now);
        st := Some(s);
      } else if tapCount >= 2 {
        var s := LogEvent(Insulin, now);
        st := Some(s);
      } else {
        st := None;
      }
      tapCount := 0;
      pending := false;
    }

    /** `updateStats`: the most recent meal and the most recent insulin dose. */
    method UpdateStats() returns (lastMeal: Option<Event>, lastInsulin: Option<Event>)
      ensures lastMeal == LastOfKind(events, Meal)
      ensures lastInsulin == LastOfKind(events, Insulin)
    {
      lastMeal := LastOfKind(events, Meal);
      lastInsulin := LastOfKind(events, Insulin);
    }

    /** The events `renderChart` plots: those of the current local day. */
    method RenderChart(dayOf: int -> int, now: int) returns (today: seq<Event>)
      ensures today == TodaysEvents(events, dayOf, now)
    {
      today := TodaysEvents(events, dayOf, now);
    }

    /** The meal-interval `change` handler. */
    method ChangeMealInterval(hours: int, now: int) returns (st: Status)
      modifies this
      ensures settings == old(settings).(mealInterval := hours)
      ensures events == old(events) && tapCount == old(tapCount) && pending == old(pending)
      ensures st == HealthStatus(events, settings, now)
      ensures st == HealthStatus(old(events), old(settings), now)
    {
      settings := settings.(mealInterval := hours);
      st := CheckHealthStatus(now);
      StatusIgnoresMealInterval(events, old(settings), hours, now);
    }

    /** The insulin-interval `change` handler: the re-evaluation uses the new value. */
    method ChangeInsulinInterval(minutes: int, now: int) returns (st: Status)
      modifies this
      ensures settings == old(settings).(insulinInterval := minutes)
      ensures events == old(events) && tapCount == old(tapCount) && pending == old(pending)
      ensures st == HealthStatus(events, Settings(old(settings).mealInterval, minutes), now)
    {
      settings := settings.(insulinInterval := minutes);
      st := CheckHealthStatus(now);
    }
  }

  /** A burst of `n` taps followed by the timer firing once logs exactly one
      event: a meal for a single tap, one insulin dose for any larger burst. */
  method TapBurst(app: App, n: nat, now: int) returns (st: Option<Status>)
    requires app.Valid() && !app.pending && n >= 1
    modifies app
    ensures app.Valid() && !app.pending && app.tapCount == 0
    ensures app.events == [Event(now, if n == 1 then Meal else Insulin, now)] + old(app.events)
    ensures app.settings == old(app.settings)
    ensures st == Some(HealthStatus(app.events, app.settings, now))
  {
    var i := 0;
    while i < n
      invariant 0 <= i <= n
      invariant app.Valid() && app.tapCount == i
      invariant app.events == old(app.events) && app.settings == old(app.settings)
    {
      app.Tap();
      i := i + 1;
    }
    st := app.Expire(now);
  }

  /** Events recorded at increasing instants are listed newest first. */
  method RecordThree(app: App, k1: EventKind, t1: int, k2: EventKind, t2: int, k3: EventKind, t3: int)
    modifies app
    ensures app.events == [Event(t3, k3, t3), Event(t2, k2, t2), Event(t1, k1, t1)] + old(app.events)
  {
    var _ := app.LogEvent(k1, t1);
    var _ := app.LogEvent(k2, t2);
    var _ := app.LogEvent(k3, t3);
  }
}
