// The administration site of dispositivos/admin.py: the device admin's
// product synchronisation, the bulk "mark as resolved" action and the
// display helpers of the measurement and event lists.
module Admin {
  import opened CoreModels
  import opened Models
  import opened DeviceProducts

  /** `DeviceAdmin.save_model`, after the device row is written: the same two
      updates as the device form, but inside the admin's transaction, so a
      refused update leaves the products exactly as they were. */
  method DeviceAdminSaveModel(products: Table<Product>, device: nat, selected: set<nat>) returns (ok: bool)
    requires products.Valid()
    modifies products
    ensures products.Valid()
    ensures ProductSerialsUnique(old(products.rows)) ==> ProductSerialsUnique(products.rows)
    ensures ok <==> ProductSerialsUnique(SetDevice(old(products.rows), ToDetach(old(products.rows), device, selected), None))
                    && ProductSerialsUnique(Synced(old(products.rows), device, selected))
    ensures ok ==> products.rows == Synced(old(products.rows), device, selected)
    ensures !ok ==> products.rows == old(products.rows)
  {
    var saved := products.rows;
    ok := UpdateDevice(products, ToDetach(products.rows, device, selected), None);
    if ok {
      ok := UpdateDevice(products, ToAttach(products.rows, selected), Some(device));
    }
    if !ok {
      products.rows := saved;
    }
  }

  /** The rows the action updates: the selected events the admin list shows,
      that is, the live ones. */
  function Selected(events: map<nat, Record<ProductAlertEvent>>, pks: set<nat>): (sel: set<nat>)
    ensures forall k :: k in sel <==> k in pks && k in events && IsAlive(events[k])
  {
    set k | k in pks && k in events && IsAlive(events[k])
  }

  /** One `queryset.update(is_resolved=True, resolved_at=now)`: every row of
      `sel` is resolved at `now`, whether it was resolved before or not, and
      `updated_at` is not touched. */
  function MarkedResolved(events: map<nat, Record<ProductAlertEvent>>, sel: set<nat>, now: Time): (after: map<nat, Record<ProductAlertEvent>>)
    ensures after.Keys == events.Keys
    ensures forall k :: k in after && k in sel ==>
              after[k].meta == events[k].meta && after[k].data == events[k].data.(isResolved := true, resolvedAt := Some(now))
    ensures forall k :: k in after && k !in sel ==> after[k] == events[k]
  {
    map k | k in events :: if k in sel then events[k].(data := events[k].data.(isResolved := true, resolvedAt := Some(now))) else events[k]
  }

  /** Running the action again keeps only the later timestamp: unlike the
      guarded resolution of one event, the bulk action overwrites it. */
  lemma MarkedResolvedOverwrites(events: map<nat, Record<ProductAlertEvent>>, sel: set<nat>, first: Time, second: Time)
    ensures MarkedResolved(MarkedResolved(events, sel, first), sel, second) == MarkedResolved(events, sel, second)
  {
    var once := MarkedResolved(events, sel, first);
    var twice := MarkedResolved(once, sel, second);
    var direct := MarkedResolved(events, sel, second);
    assert forall k :: k in twice ==> twice[k] == direct[k];
  }

  /** `marcar_resueltas`: resolves the selected live events and reports how
      many rows the update matched. */
  method MarcarResueltas(events: Table<ProductAlertEvent>, pks: set<nat>, now: Time) returns (updated: nat)
    requires events.Valid()
    modifies events
    ensures events.Valid()
    ensures events.rows == MarkedResolved(old(events.rows), Selected(old(events.rows), pks), now)
    ensures updated == |Selected(old(events.rows), pks)|
    ensures EventsUnique(old(events.rows)) ==> EventsUnique(events.rows)
  {
    var sel := Selected(events.rows, pks);
    assert sel * events.rows.Keys == sel;
    updated := events.Update(sel, (r: Record<ProductAlertEvent>) => r.(data := r.data.(isResolved := true, resolvedAt := Some(now))));
  }

  /** The summed length of `parts`. */
  function TotalLength(parts: seq<string>): nat
  {
    if parts == [] then 0 else |parts[0]| + TotalLength(parts[1..])
  }

  /** `", ".join(parts)`: the parts in order with one separator between
      each two of them. */
  function Join(parts: seq<string>, sep: string): (text: string)
    ensures parts == [] ==> text == ""
    ensures |parts| > 0 ==> |text| == TotalLength(parts) + (|parts| - 1) * |sep|
    ensures |parts| > 0 ==> |text| >= |parts[0]| && text[..|parts[0]|] == parts[0]
    ensures |parts| > 0 ==> |text| >= |parts[|parts| - 1]| && text[|text| - |parts[|parts| - 1]|..] == parts[|parts| - 1]
  {
    if parts == [] then ""
    else if |parts| == 1 then parts[0]
    else
      assert (|parts| - 1) * |sep| == (|parts[1..]| - 1) * |sep| + |sep|;
      parts[0] + sep + Join(parts[1..], sep)
  }

  /** `triggered_alerts`: a dash for a measurement without events,
      otherwise the display text of each event's severity, in the order the
      events come, joined by ", ". */
  function TriggeredAlerts(severities: seq<string>): (text: string)
    ensures severities == [] ==> text == "—"
    ensures severities != [] ==> text == Join(seq(|severities|, i requires 0 <= i < |severities| => SeverityDisplay(severities[i])), ", ")
  {
    if severities == [] then "—"
    else Join(seq(|severities|, i requires 0 <= i < |severities| => SeverityDisplay(severities[i])), ", ")
  }

  /** With events of the three proper severities the list never shows the
      dash, and it starts with the text of the first event's severity. */
  lemma TriggeredAlertsShowsFirst(severities: seq<string>)
    requires severities != [] && IsSeverity(severities[0])
    ensures TriggeredAlerts(severities) != "—"
    ensures |TriggeredAlerts(severities)| >= |SeverityDisplay(severities[0])|
    ensures TriggeredAlerts(severities)[..|SeverityDisplay(severities[0])|] == SeverityDisplay(severities[0])
  {
    var texts := seq(|severities|, i requires 0 <= i < |severities| => SeverityDisplay(severities[i]));
    assert texts[0] == SeverityDisplay(severities[0]);
    var text := TriggeredAlerts(severities);
    assert text[0] == texts[0][0];
  }

  /** `device_name`: the device's name, a dash for a product without one. */
  function DeviceName(device: Option<Device>): (text: string)
    ensures device.None? ==> text == "—"
    ensures device.Some? ==> text == device.value.name
  {
    if device.None? then "—" else device.value.name
  }

  /** `value_with_unit`: the printed value, a blank and the unit. The
      printing of the number itself is taken as given. */
  function ValueWithUnit(valueText: string, unit: string): (text: string)
    ensures |text| == |valueText| + 1 + |unit|
    ensures text[..|valueText|] == valueText && text[|valueText|] == ' ' && text[|valueText| + 1..] == unit
  {
    valueText + " " + unit
  }
}
