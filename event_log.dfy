/** The event log of the tracker: a newest-first sequence of immutable
    meal / insulin records, and the read-only queries the app runs over it. */
module EventLog {
  import opened Optional

  datatype EventKind = Meal | Insulin

  /** One logged action; `id` and `timestamp` are milliseconds since the epoch. */
  datatype Event = Event(id: int, kind: EventKind, timestamp: int)

  /** `i` is the index of the first element of `s` that satisfies `p`. */
  ghost predicate IsFirstMatch(s: seq<Event>, p: Event -> bool, i: int)
  {
    0 <= i < |s| && p(s[i]) && forall j :: 0 <= j < i ==> !p(s[j])
  }

  /** `Array.prototype.find`: the first element satisfying `p`, scanning from
      the front (the newest entry) of the log. */
  function Find(s: seq<Event>, p: Event -> bool): (r: Option<Event>)
    ensures r.None? <==> forall i :: 0 <= i < |s| ==> !p(s[i])
    ensures r.Some? ==> exists i :: IsFirstMatch(s, p, i) && s[i] == r.value
  {
    if s == [] then None
    else if p(s[0]) then
      assert IsFirstMatch(s, p, 0);
      Some(s[0])
    else
      var r := Find(s[1..], p);
      assert r.Some? ==> exists i :: IsFirstMatch(s, p, i) && s[i] == r.value by {
        if r.Some? {
          var k :| IsFirstMatch(s[1..], p, k) && s[1..][k] == r.value;
          assert IsFirstMatch(s, p, k + 1);
        }
      }
      r
  }

  predicate IsKind(e: Event, k: EventKind)
  {
    e.kind == k
  }

  /** The most recent event of kind `k`: `events.find(e => e.type === k)`. */
  function LastOfKind(events: seq<Event>, k: EventKind): (r: Option<Event>)
    ensures r.None? <==> forall i :: 0 <= i < |events| ==> events[i].kind != k
    ensures r.Some? ==> r.value.kind == k
    ensures r.Some? ==> exists i :: 0 <= i < |events| && events[i] == r.value &&
                                    forall j :: 0 <= j < i ==> events[j].kind != k
  {
    var r := Find(events, e => IsKind(e, k));
    assert r.Some? ==> exists i :: IsFirstMatch(events, e => IsKind(e, k), i) && events[i] == r.value;
    r
  }

  /** After an event is put at the front of the log, the lookup for its own
      kind returns it and the lookup for the other kind is unchanged. */
  lemma LastOfKindAfterPrepend(e: Event, events: seq<Event>, k: EventKind)
    ensures LastOfKind([e] + events, k) == if e.kind == k then Some(e) else LastOfKind(events, k)
  {
  }

  /** `a` is obtained from `b` by deleting elements, keeping the order of the rest. */
  ghost predicate IsSubsequence<T>(a: seq<T>, b: seq<T>)
    decreases |b|
  {
    if a == [] then true
    else if b == [] then false
    else (a[0] == b[0] && IsSubsequence(a[1..], b[1..])) || IsSubsequence(a, b[1..])
  }

  /** The events recorded on the same local calendar day as `now`; `dayOf`
      maps an instant to its local midnight. */
  function TodaysEvents(events: seq<Event>, dayOf: int -> int, now: int): (r: seq<Event>)
    ensures IsSubsequence(r, events)
    ensures forall i :: 0 <= i < |r| ==> dayOf(r[i].timestamp) == dayOf(now)
    ensures forall e :: multiset(r)[e] == if dayOf(e.timestamp) == dayOf(now) then multiset(events)[e] else 0
  {
    if events == [] then []
    else
      var rest := TodaysEvents(events[1..], dayOf, now);
      assert events == [events[0]] + events[1..];
      if dayOf(events[0].timestamp) == dayOf(now) then [events[0]] + rest else rest
  }
}
