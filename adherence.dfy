/** The adherence evaluator: a status derived from the event log, the
    configured insulin interval and the current instant, and nothing else. */
module Adherence {
  import opened Optional
  import opened EventLog

  const MillisPerMinute: int := 1000 * 60

  /** `mealInterval` is in hours, `insulinInterval` in minutes. */
  datatype Settings = Settings(mealInterval: int, insulinInterval: int)

  /** The settings used when none are stored. */
  const DefaultSettings: Settings := Settings(4, 15)

  /** `Warning` carries the configured interval, `Alert` the whole minutes
      elapsed since the meal, as the two messages display them. */
  datatype Status = Neutral | Good | Warning(interval: int) | Alert(minutes: int)

  /** The settings the app starts with, given what the store holds. */
  function LoadSettings(stored: Option<Settings>): (r: Settings)
    ensures stored.None? ==> r.mealInterval == 4 && r.insulinInterval == 15
    ensures stored.Some? ==> r == stored.value
  {
    stored.GetOr(DefaultSettings)
  }

  // ----- Reference definitions, stated directly over the log -----

  /** Index `m` holds the last meal: the first `Meal` of the newest-first log. */
  ghost predicate IsLastMeal(events: seq<Event>, m: int)
  {
    0 <= m < |events| && events[m].kind == Meal &&
    forall j :: 0 <= j < m ==> events[j].kind != Meal
  }

  ghost predicate NoMeal(events: seq<Event>)
  {
    forall i :: 0 <= i < |events| ==> events[i].kind != Meal
  }

  /** Some insulin dose anywhere in the log is strictly later than `mealTime`. */
  ghost predicate InsulinAfter(events: seq<Event>, mealTime: int)
  {
    exists j :: 0 <= j < |events| && events[j].kind == Insulin && events[j].timestamp > mealTime
  }

  /** The verdict once the last meal is known to be at `mealTime`. */
  ghost predicate VerdictAfterMeal(events: seq<Event>, mealTime: int, interval: int, now: int, r: Status)
  {
    var elapsed := now - mealTime;
    if InsulinAfter(events, mealTime) then r == Good
    else if elapsed > interval * MillisPerMinute then
      r.Alert? && r.minutes * MillisPerMinute <= elapsed < (r.minutes + 1) * MillisPerMinute
    else r == Warning(interval)
  }

  // ----- The evaluator -----

  predicate IsInsulinLaterThan(e: Event, t: int)
  {
    e.kind == Insulin && e.timestamp > t
  }

  /** `checkHealthStatus`: `neutral` with no meal; `good` if some insulin is
      strictly later than the last meal; otherwise `alert` once more than
      `insulinInterval` minutes have passed, else `warning`. */
  function HealthStatus(events: seq<Event>, settings: Settings, now: int): (r: Status)
    ensures r.Neutral? <==> NoMeal(events)
    ensures forall m :: IsLastMeal(events, m) ==>
                          VerdictAfterMeal(events, events[m].timestamp, settings.insulinInterval, now, r)
  {
    match LastOfKind(events, Meal)
    case None => Neutral
    case Some(meal) =>
      var elapsed := now - meal.timestamp;
      var insulinAfterMeal := Find(events, e => IsInsulinLaterThan(e, meal.timestamp));
      assert insulinAfterMeal.Some? <==> InsulinAfter(events, meal.timestamp) by {
        if insulinAfterMeal.None? {
          assert forall j :: 0 <= j < |events| ==> !IsInsulinLaterThan(events[j], meal.timestamp);
        } else {
          var j :| IsFirstMatch(events, e => IsInsulinLaterThan(e, meal.timestamp), j);
          assert events[j].kind == Insulin && events[j].timestamp > meal.timestamp;
        }
      }
      if insulinAfterMeal.Some? then Good
      else if elapsed > settings.insulinInterval * MillisPerMinute then Alert(elapsed / MillisPerMinute)
      else Warning(settings.insulinInterval)
  }

  // ----- Properties of the evaluator -----

  /** A log holding a meal has a last meal. */
  lemma {:induction false} LastMealExists(events: seq<Event>)
    requires !NoMeal(events)
    ensures exists m :: IsLastMeal(events, m)
  {
    if events[0].kind == Meal {
      assert IsLastMeal(events, 0);
    } else {
      var i :| 0 <= i < |events| && events[i].kind == Meal;
      assert events[1..][i - 1] == events[i];
      LastMealExists(events[1..]);
      var m :| IsLastMeal(events[1..], m);
      assert IsLastMeal(events, m + 1);
    }
  }

  /** `mealInterval` is never read: changing it cannot change the status. */
  lemma StatusIgnoresMealInterval(events: seq<Event>, settings: Settings, mealInterval: int, now: int)
    ensures HealthStatus(events, settings.(mealInterval := mealInterval), now) == HealthStatus(events, settings, now)
  {
  }

  /** Once insulin follows the last meal the status is `good` at every instant
      and for every interval. */
  lemma GoodIgnoresElapsedTime(events: seq<Event>, settings: Settings, now: int, settings': Settings, now': int)
    requires HealthStatus(events, settings, now).Good?
    ensures HealthStatus(events, settings', now').Good?
  {
  }

  /** Without a later insulin dose the status is `alert` exactly when more than
      the interval has passed, and an alert always reports at least the interval. */
  lemma AlertIffOverdue(events: seq<Event>, settings: Settings, now: int, m: int)
    requires IsLastMeal(events, m) && !InsulinAfter(events, events[m].timestamp)
    ensures HealthStatus(events, settings, now).Alert? <==>
              now - events[m].timestamp > settings.insulinInterval * MillisPerMinute
    ensures HealthStatus(events, settings, now).Warning? <==>
              now - events[m].timestamp <= settings.insulinInterval * MillisPerMinute
    ensures HealthStatus(events, settings, now).Alert? ==>
              HealthStatus(events, settings, now).minutes >= settings.insulinInterval
  {
    var r := HealthStatus(events, settings, now);
    assert VerdictAfterMeal(events, events[m].timestamp, settings.insulinInterval, now, r);
    if r.Alert? {
      assert settings.insulinInterval * MillisPerMinute < (r.minutes + 1) * MillisPerMinute;
    }
  }

  /** An insulin dose with the same timestamp as the last meal does not count
      as taken after it. */
  lemma SimultaneousInsulinIsNotAfter(events: seq<Event>, settings: Settings, now: int, m: int)
    requires IsLastMeal(events, m)
    requires forall j :: 0 <= j < |events| && events[j].kind == Insulin ==> events[j].timestamp <= events[m].timestamp
    ensures !HealthStatus(events, settings, now).Good?
  {
  }

  /** Logging insulin later than the last meal makes the status `good`. */
  lemma InsulinAfterLastMealIsGood(events: seq<Event>, id: int, t: int, settings: Settings, now: int)
    requires LastOfKind(events, Meal).Some? && LastOfKind(events, Meal).value.timestamp < t
    ensures HealthStatus([Event(id, Insulin, t)] + events, settings, now) == Good
  {
  }

  /** Logging a meal no earlier than anything in the log restarts the wait for
      insulin: `warning` within the interval, `alert` after it. */
  lemma MealRestartsWait(events: seq<Event>, id: int, t: int, settings: Settings, now: int)
    requires forall i :: 0 <= i < |events| ==> events[i].timestamp <= t
    ensures var r := HealthStatus([Event(id, Meal, t)] + events, settings, now);
            if now - t > settings.insulinInterval * MillisPerMinute then r == Alert((now - t) / MillisPerMinute)
            else r == Warning(settings.insulinInterval)
  {
  }

  /** Worked cases with a 15-minute interval; `t` is 09:00 of some day. */
  lemma Scenarios(t: int)
    ensures HealthStatus([], DefaultSettings, t) == Neutral
    ensures HealthStatus([Event(t, Meal, t)], DefaultSettings, t + 10 * MillisPerMinute) == Warning(15)
    ensures HealthStatus([Event(t, Meal, t)], DefaultSettings, t + 20 * MillisPerMinute) == Alert(20)
    ensures HealthStatus([Event(t, Meal, t)], DefaultSettings, t + 15 * MillisPerMinute) == Warning(15)
    ensures HealthStatus([Event(t + 5 * MillisPerMinute, Insulin, t + 5 * MillisPerMinute), Event(t, Meal, t)],
                         DefaultSettings, t + 30 * MillisPerMinute) == Good
    ensures HealthStatus([Event(t, Meal, t), Event(t - 60 * MillisPerMinute, Insulin, t - 60 * MillisPerMinute)],
                         DefaultSettings, t + MillisPerMinute) == Warning(15)
  {
  }
}
