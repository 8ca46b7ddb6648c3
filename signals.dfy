// The creation hook on measurements (dispositivos/signals.py): a
// measurement written for the first time is evaluated against the rules of
// its product; a later save of the same row is not.
module Signals {
  import opened CoreModels
  import opened Models
  import opened Services

  /** `measurement_post_save`: runs the evaluator on the saved instance only
      when the save inserted it. */
  method MeasurementPostSave(events: Table<ProductAlertEvent>, rules: Table<ProductAlert>,
                             mPk: nat, m: Measurement, created: bool, now: Time)
    requires events.Valid() && EventsUnique(events.rows)
    modifies events
    ensures events.Valid() && EventsUnique(events.rows)
    ensures created ==> exists evts :: IsEvaluation(old(events.rows), events.rows, rules.rows, mPk, m, now, evts)
    ensures !created ==> events.rows == old(events.rows)
  {
    if created {
      var evts := GenerateAlertEvents(events, rules, mPk, m, now);
    }
  }

  /** `Measurement.objects.create(...)`: the insert fires the hook with
      `created` set, so every firing rule of the new measurement has its live
      event afterwards. The key is new, so no earlier event refers to it. The
      product column is NOT NULL, so a reading without a product is never
      stored. */
  method CreateMeasurement(measurements: Table<Measurement>, events: Table<ProductAlertEvent>,
                           rules: Table<ProductAlert>, m: Measurement, now: Time)
    returns (pk: nat)
    requires m.product.Some?
    requires measurements.Valid() && events.Valid() && EventsUnique(events.rows)
    requires EventMeasurementsExist(events.rows, measurements.rows)
    modifies measurements, events
    ensures measurements.Valid() && events.Valid() && EventsUnique(events.rows)
    ensures EventMeasurementsExist(events.rows, measurements.rows)
    ensures pk !in old(measurements.rows)
    ensures forall k :: k in old(events.rows) ==> old(events.rows)[k].data.measurement != pk
    ensures measurements.rows == old(measurements.rows)[pk := Record(NewMeta(now), m)]
    ensures exists evts :: IsEvaluation(old(events.rows), events.rows, rules.rows, pk, m, now, evts)
    ensures forall r :: r in FiringRules(rules.rows, m) ==> AliveEventsFor(events.rows, r, pk) != {}
  {
    pk := measurements.Create(m, now);
    MeasurementPostSave(events, rules, pk, m, true, now);
  }

  /** The path of the high-reading test: with the three bands of a product
      in place, creating an 85 °C reading of it leaves exactly one live event
      for the new measurement, and that event is for the ALTO rule. */
  method HighReadingOnCreate(measurements: Table<Measurement>, events: Table<ProductAlertEvent>,
                             rules: Table<ProductAlert>, alerts: map<nat, Record<Alert>>,
                             p: nat, aM: nat, aH: nat, aG: nat, t: Time, now: Time)
    returns (pk: nat)
    requires measurements.Valid() && events.Valid() && EventsUnique(events.rows)
    requires EventMeasurementsExist(events.rows, measurements.rows)
    requires rules.rows == ThreeBands(p, aM, aH, aG, t)
    requires aH in alerts && alerts[aH].data.severity == ALTO
    modifies measurements, events
    ensures exists e :: (set k | k in events.rows && IsAlive(events.rows[k]) && events.rows[k].data.measurement == pk) == {e}
                        && events.rows[e].data == NewEvent(1, pk)
                        && alerts[rules.rows[events.rows[e].data.productAlert].data.alert].data.severity == ALTO
  {
    var m := Measurement(85.0, "°C", t, Some(p));
    pk := CreateMeasurement(measurements, events, rules, m, now);
    ghost var created :| IsEvaluation(old(events.rows), events.rows, rules.rows, pk, m, now, created);
    HighReadingScenario(old(events.rows), events.rows, alerts, p, aM, aH, aG, t, pk, now, created);
  }

  /** `measurement.save()` of an existing row: the hook runs with `created`
      unset, so no event is created or changed. */
  method UpdateMeasurement(measurements: Table<Measurement>, events: Table<ProductAlertEvent>,
                           rules: Table<ProductAlert>, pk: nat, m: Measurement, now: Time)
    requires m.product.Some?
    requires measurements.Valid() && pk in measurements.rows
    requires events.Valid() && EventsUnique(events.rows)
    modifies measurements, events
    ensures measurements.Valid() && events.Valid()
    ensures measurements.rows.Keys == old(measurements.rows).Keys
    ensures measurements.rows == old(measurements.rows)[pk := Record(old(measurements.rows[pk].meta).(updatedAt := now), m)]
    ensures events.rows == old(events.rows)
  {
    measurements.Save(pk, m, now);
    MeasurementPostSave(events, rules, pk, m, false, now);
  }
}
