// The two pieces of dispositivos/views.py that change or fold state: the
// guarded resolution of one alert event, and the weekly tally of events by
// severity on the dashboard.
module Views {
  import opened CoreModels
  import opened Models
  import opened Services

  // ---------------------------------------------------------------------
  // Resolving one event
  // ---------------------------------------------------------------------

  datatype ResolveOutcome = NotFound | Resolved | AlreadyResolved

  /** The event table after `resolve_event` on `pk` at `now`: a live,
      unresolved event becomes resolved at `now` and is updated now; any
      other table is left as it is. */
  function AfterResolve(events: map<nat, Record<ProductAlertEvent>>, pk: nat, now: Time): (after: map<nat, Record<ProductAlertEvent>>)
    ensures after.Keys == events.Keys
    ensures forall k :: k in events && k != pk ==> after[k] == events[k]
    ensures pk in events && IsAlive(events[pk]) && !events[pk].data.isResolved ==>
              after[pk].data == events[pk].data.(isResolved := true, resolvedAt := Some(now))
              && after[pk].meta == events[pk].meta.(updatedAt := now)
    ensures !(pk in events && IsAlive(events[pk]) && !events[pk].data.isResolved) ==> after == events
  {
    if pk in events && IsAlive(events[pk]) && !events[pk].data.isResolved then
      var e := events[pk];
      events[pk := Record(e.meta.(updatedAt := now), e.data.(isResolved := true, resolvedAt := Some(now)))]
    else events
  }

  /** Resolving twice is resolving once: the second request finds the event
      resolved and keeps the first timestamp. */
  lemma ResolveIdempotent(events: map<nat, Record<ProductAlertEvent>>, pk: nat, first: Time, second: Time)
    ensures AfterResolve(AfterResolve(events, pk, first), pk, second) == AfterResolve(events, pk, first)
    ensures pk in events && IsAlive(events[pk]) ==>
              AfterResolve(events, pk, first)[pk].data.isResolved
  {
  }

  /** Resolving keeps the event live and linked to the same rule and
      measurement, so at most one live event per pair still holds. */
  lemma ResolvePreservesUniqueness(events: map<nat, Record<ProductAlertEvent>>, pk: nat, now: Time)
    requires EventsUnique(events)
    ensures EventsUnique(AfterResolve(events, pk, now))
  {
    var after := AfterResolve(events, pk, now);
    assert forall k :: k in after ==> IsAlive(after[k]) == IsAlive(events[k])
                                      && after[k].data.productAlert == events[k].data.productAlert
                                      && after[k].data.measurement == events[k].data.measurement;
  }

  /** `resolve_event`: the live event `pk` (404 otherwise); when it is not
      resolved yet it is marked resolved now and saved with `updated_at`. */
  method ResolveEvent(events: Table<ProductAlertEvent>, pk: nat, now: Time) returns (outcome: ResolveOutcome)
    requires events.Valid()
    modifies events
    ensures events.Valid()
    ensures outcome == NotFound <==> pk !in old(events.Objects())
    ensures outcome == AlreadyResolved <==>
              pk in old(events.rows) && IsAlive(old(events.rows)[pk]) && old(events.rows)[pk].data.isResolved
    ensures events.rows == AfterResolve(old(events.rows), pk, now)
  {
    if !(pk in events.rows && IsAlive(events.rows[pk])) {
      return NotFound;
    }
    var e := events.rows[pk].data;
    if e.isResolved {
      return AlreadyResolved;
    }
    events.Save(pk, e.(isResolved := true, resolvedAt := Some(now)), now);
    outcome := Resolved;
  }

  // ---------------------------------------------------------------------
  // The weekly severity tally
  // ---------------------------------------------------------------------

  /** Seven days, with instants counted in seconds. */
  const WEEK: int := 7 * 24 * 60 * 60

  /** `timezone.now() - timedelta(days=7)`. */
  function WeekStart(now: Time): (since: Time)
    ensures since < now && now - since == WEEK
  {
    now - WEEK
  }

  /** The severity an event reaches through its rule and the rule's alert;
      none when a link is missing (the inner join drops the event). */
  function EventSeverity(e: ProductAlertEvent, rules: map<nat, Record<ProductAlert>>,
                         alerts: map<nat, Record<Alert>>): Option<string>
  {
    if e.productAlert in rules && rules[e.productAlert].data.alert in alerts
    then Some(alerts[rules[e.productAlert].data.alert].data.severity)
    else None
  }

  /** The live events created at or after `since` whose severity is `sev`. */
  function WeeklyEvents(events: map<nat, Record<ProductAlertEvent>>, rules: map<nat, Record<ProductAlert>>,
                        alerts: map<nat, Record<Alert>>, sev: string, since: Time): (es: set<nat>)
    ensures forall k :: k in es <==> k in events && IsAlive(events[k]) && events[k].meta.createdAt >= since
                                     && EventSeverity(events[k].data, rules, alerts) == Some(sev)
  {
    set k | k in events && IsAlive(events[k]) && events[k].meta.createdAt >= since
            && EventSeverity(events[k].data, rules, alerts) == Some(sev)
  }

  /** One row of the grouped query: a severity and its number of events. */
  datatype SeverityRow = SeverityRow(severity: string, n: nat)

  /** What the grouped query returns, in any order: one row per severity
      that has events in the window, with its count. */
  predicate GroupedRows(rows: seq<SeverityRow>, events: map<nat, Record<ProductAlertEvent>>,
                        rules: map<nat, Record<ProductAlert>>, alerts: map<nat, Record<Alert>>, since: Time)
  {
    && (forall i, j :: 0 <= i < |rows| && 0 <= j < |rows| && i != j ==> rows[i].severity != rows[j].severity)
    && (forall i :: 0 <= i < |rows| ==> rows[i].n == |WeeklyEvents(events, rules, alerts, rows[i].severity, since)|)
    && (forall i :: 0 <= i < |rows| ==> rows[i].n > 0)
  }

  /** The count the loop leaves for `sev`: the last row of that severity, 0 without one. */
  function LastCount(rows: seq<SeverityRow>, sev: string): nat
  {
    if rows == [] then 0
    else if rows[|rows| - 1].severity == sev then rows[|rows| - 1].n
    else LastCount(rows[..|rows| - 1], sev)
  }

  /** The dashboard's `sev_map`: starts at 0 for the three severities and
      takes the count of every row whose severity is one of them; rows of
      any other severity are ignored. */
  method SeverityTally(rows: seq<SeverityRow>) returns (sevMap: map<string, nat>)
    ensures sevMap.Keys == {GRAVE, ALTO, MEDIANO}
    ensures forall k :: k in sevMap ==> sevMap[k] == LastCount(rows, k)
  {
    sevMap := map[GRAVE := 0, ALTO := 0, MEDIANO := 0];
    for i := 0 to |rows|
      invariant sevMap.Keys == {GRAVE, ALTO, MEDIANO}
      invariant forall k :: k in sevMap ==> sevMap[k] == LastCount(rows[..i], k)
    {
      assert rows[..i + 1][..i] == rows[..i];
      var sev := rows[i].severity;
      if sev in sevMap {
        sevMap := sevMap[sev := rows[i].n];
      }
    }
    assert rows[..|rows|] == rows;
  }

  lemma {:induction false} LastCountAbsent(rows: seq<SeverityRow>, sev: string)
    requires forall i :: 0 <= i < |rows| ==> rows[i].severity != sev
    ensures LastCount(rows, sev) == 0
  {
    if rows != [] {
      LastCountAbsent(rows[..|rows| - 1], sev);
    }
  }

  lemma {:induction false} LastCountUnique(rows: seq<SeverityRow>, sev: string, i: nat)
    requires i < |rows| && rows[i].severity == sev
    requires forall j :: 0 <= j < |rows| && j != i ==> rows[j].severity != sev
    ensures LastCount(rows, sev) == rows[i].n
  {
    if i < |rows| - 1 {
      LastCountUnique(rows[..|rows| - 1], sev, i);
    }
  }

  /** Over the rows of the grouped query, each of the three tallies is the
      number of live events of that severity created in the window. */
  lemma TallyIsWeeklyCount(rows: seq<SeverityRow>, events: map<nat, Record<ProductAlertEvent>>,
                           rules: map<nat, Record<ProductAlert>>, alerts: map<nat, Record<Alert>>,
                           since: Time, sev: string)
    requires GroupedRows(rows, events, rules, alerts, since)
    requires forall s :: |WeeklyEvents(events, rules, alerts, s, since)| > 0 ==> exists i :: 0 <= i < |rows| && rows[i].severity == s
    ensures LastCount(rows, sev) == |WeeklyEvents(events, rules, alerts, sev, since)|
  {
    if exists i :: 0 <= i < |rows| && rows[i].severity == sev {
      var i :| 0 <= i < |rows| && rows[i].severity == sev;
      LastCountUnique(rows, sev, i);
    } else {
      LastCountAbsent(rows, sev);
    }
  }
}
