// The entities of the monitoring application (dispositivos/models.py): their
// fields, the defaults of a new alert event, the severity labels, the
// uniqueness constraints the database enforces and the cascades of a
// physical delete.
module Models {
  import opened CoreModels

  datatype Zone = Zone(name: string, organization: nat)

  datatype Category = Category(name: string)

  datatype Device = Device(
    name: string,
    serialNumber: Option<string>,
    installedAt: Option<Time>,
    zone: nat,
    organization: nat)

  datatype Product = Product(
    name: string,
    model: Option<string>,
    serialNumber: Option<string>,
    device: Option<nat>,
    category: nat)

  /** A reading. The `product` column is NOT NULL; it is optional here only
      so that the evaluator's guard for a missing product can be stated as
      written. The operations that store a measurement require a product. */
  datatype Measurement = Measurement(value: real, unit: string, measuredAt: Time, product: Option<nat>)

  datatype Alert = Alert(severity: string, message: string)

  /** A threshold rule binding a product to an alert level with an inclusive range and a unit. */
  datatype ProductAlert = ProductAlert(product: nat, alert: nat, rangeMin: real, rangeMax: real, unit: string)

  /** One rule satisfied by one measurement. */
  datatype ProductAlertEvent = ProductAlertEvent(
    productAlert: nat,
    measurement: nat,
    isResolved: bool,
    resolvedAt: Option<Time>)

  const GRAVE: string := "GRAVE"
  const ALTO: string := "ALTO"
  const MEDIANO: string := "MEDIANO"

  /** The three choices of `Alert.severity`. The column itself stores any string. */
  predicate IsSeverity(s: string)
  {
    s == GRAVE || s == ALTO || s == MEDIANO
  }

  /** `get_severity_display()`: the human text of a choice, the raw value otherwise. */
  function SeverityDisplay(s: string): (text: string)
    ensures s == GRAVE ==> text == "Grave"
    ensures s == ALTO ==> text == "Alto"
    ensures s == MEDIANO ==> text == "Mediano"
    ensures !IsSeverity(s) ==> text == s
  {
    if s == GRAVE then "Grave"
    else if s == ALTO then "Alto"
    else if s == MEDIANO then "Mediano"
    else s
  }

  /** The form-level validator of a measurement: the value is never negative. */
  predicate ValidMeasurement(m: Measurement)
  {
    m.value >= 0.0
  }

  /** The event a rule and a measurement produce, with the column defaults. */
  function NewEvent(rule: nat, measurement: nat): (e: ProductAlertEvent)
    ensures e.productAlert == rule && e.measurement == measurement
    ensures !e.isResolved && e.resolvedAt == None
  {
    ProductAlertEvent(rule, measurement, false, None)
  }

  /** `Product.__str__`: the bare name without a device, "name (device)" with one. */
  function ProductLabel(p: Product, device: Option<Device>): (text: string)
    requires p.device.Some? <==> device.Some?
    ensures |text| >= |p.name| && text[..|p.name|] == p.name
    ensures device.None? ==> text == p.name
    ensures device.Some? ==> text[|p.name|..] == " (" + device.value.name + ")"
  {
    if device.None? then p.name else p.name + " (" + device.value.name + ")"
  }

  /** `unique_together (organization, name)` on zones. */
  predicate ZoneNamesUnique(zones: map<nat, Record<Zone>>)
  {
    forall a, b :: a in zones && b in zones && a != b && zones[a].data.organization == zones[b].data.organization
      ==> zones[a].data.name != zones[b].data.name
  }

  /** `unique_together (organization, serial_number)` on devices; as in SQL,
      a missing serial number never collides. */
  predicate DeviceSerialsUnique(devices: map<nat, Record<Device>>)
  {
    forall a, b :: a in devices && b in devices && a != b && devices[a].data.organization == devices[b].data.organization
      && devices[a].data.serialNumber.Some?
      ==> devices[a].data.serialNumber != devices[b].data.serialNumber
  }

  /** The two partial unique constraints on products: a serial number is
      unique per device among attached products, and globally among products
      without a device. Both say: two rows with the same serial number do not
      have the same device (both absent counts as the same). */
  predicate ProductSerialsUnique(products: map<nat, Record<Product>>)
  {
    forall a, b :: a in products && b in products && a != b && products[a].data.serialNumber.Some?
      && products[a].data.serialNumber == products[b].data.serialNumber
      ==> products[a].data.device != products[b].data.device
  }

  /** `unique_together (product, alert)` on rules. */
  predicate RuleLinksUnique(rules: map<nat, Record<ProductAlert>>)
  {
    forall a, b :: a in rules && b in rules && a != b && rules[a].data.product == rules[b].data.product
      ==> rules[a].data.alert != rules[b].data.alert
  }

  /** At most one live event per (rule, measurement) pair. No storage
      constraint says so; every operation that writes events keeps it. */
  ghost predicate EventsUnique(events: map<nat, Record<ProductAlertEvent>>)
  {
    forall a, b :: a in events && b in events && a != b && IsAlive(events[a]) && IsAlive(events[b])
      && events[a].data.measurement == events[b].data.measurement
      ==> events[a].data.productAlert != events[b].data.productAlert
  }

  /** The foreign key of events on measurements: every event refers to a
      measurement that exists, deleted or not. */
  predicate EventMeasurementsExist(events: map<nat, Record<ProductAlertEvent>>, measurements: map<nat, Record<Measurement>>)
  {
    forall k :: k in events ==> events[k].data.measurement in measurements
  }

  /** Inserting a zone: the database refuses a second zone of the same name
      in one organization, deleted rows included. */
  method CreateZone(zones: Table<Zone>, z: Zone, now: Time) returns (pk: Option<nat>)
    requires zones.Valid()
    modifies zones
    ensures zones.Valid()
    ensures pk.None? <==> exists k :: k in old(zones.rows) && old(zones.rows)[k].data.organization == z.organization
                                                   && old(zones.rows)[k].data.name == z.name
    ensures pk.None? ==> zones.rows == old(zones.rows)
    ensures pk.Some? ==> pk.value !in old(zones.rows) && zones.rows == old(zones.rows)[pk.value := Record(NewMeta(now), z)]
    ensures ZoneNamesUnique(old(zones.rows)) ==> ZoneNamesUnique(zones.rows)
  {
    var clash := set k | k in zones.rows && zones.rows[k].data.organization == z.organization && zones.rows[k].data.name == z.name;
    if clash != {} {
      return None;
    }
    assert forall k :: k in zones.rows && zones.rows[k].data.organization == z.organization && zones.rows[k].data.name == z.name ==> k in clash;
    var id := zones.Create(z, now);
    pk := Some(id);
  }

  /** Two devices of one organization with the same serial number. */
  predicate SameSerial(a: Device, b: Device)
  {
    a.organization == b.organization && a.serialNumber == b.serialNumber
  }

  /** Inserting a device: a serial number is unique within an organization. */
  method CreateDevice(devices: Table<Device>, d: Device, now: Time) returns (pk: Option<nat>)
    requires devices.Valid()
    modifies devices
    ensures devices.Valid()
    ensures pk.None? <==> d.serialNumber.Some? && exists k :: k in old(devices.rows) && SameSerial(old(devices.rows)[k].data, d)
    ensures pk.None? ==> devices.rows == old(devices.rows)
    ensures pk.Some? ==> pk.value !in old(devices.rows) && devices.rows == old(devices.rows)[pk.value := Record(NewMeta(now), d)]
    ensures DeviceSerialsUnique(old(devices.rows)) ==> DeviceSerialsUnique(devices.rows)
  {
    var clash := set k | k in devices.rows && SameSerial(devices.rows[k].data, d);
    if d.serialNumber.Some? && clash != {} {
      return None;
    }
    assert forall k :: k in devices.rows && SameSerial(devices.rows[k].data, d) ==> k in clash;
    var id := devices.Create(d, now);
    pk := Some(id);
  }

  /** Inserting a rule: at most one rule per (product, alert) pair. */
  method CreateRule(rules: Table<ProductAlert>, r: ProductAlert, now: Time) returns (pk: Option<nat>)
    requires rules.Valid()
    modifies rules
    ensures rules.Valid()
    ensures pk.None? <==> exists k :: k in old(rules.rows) && old(rules.rows)[k].data.product == r.product
                                                   && old(rules.rows)[k].data.alert == r.alert
    ensures pk.None? ==> rules.rows == old(rules.rows)
    ensures pk.Some? ==> pk.value !in old(rules.rows) && rules.rows == old(rules.rows)[pk.value := Record(NewMeta(now), r)]
    ensures RuleLinksUnique(old(rules.rows)) ==> RuleLinksUnique(rules.rows)
  {
    var clash := set k | k in rules.rows && rules.rows[k].data.product == r.product && rules.rows[k].data.alert == r.alert;
    if clash != {} {
      return None;
    }
    assert forall k :: k in rules.rows && rules.rows[k].data.product == r.product && rules.rows[k].data.alert == r.alert ==> k in clash;
    var id := rules.Create(r, now);
    pk := Some(id);
  }

  /** The events that refer to a rule (`ON DELETE CASCADE` on `product_alert`). */
  function EventsOfRule(events: map<nat, Record<ProductAlertEvent>>, rule: nat): set<nat>
  {
    set k | k in events && events[k].data.productAlert == rule
  }

  /** The events that refer to a measurement (`ON DELETE CASCADE` on `measurement`). */
  function EventsOfMeasurement(events: map<nat, Record<ProductAlertEvent>>, measurement: nat): set<nat>
  {
    set k | k in events && events[k].data.measurement == measurement
  }

  /** Physically removing a rule removes every event it produced, deleted or
      not, and no other event. */
  method HardDeleteRule(rules: Table<ProductAlert>, events: Table<ProductAlertEvent>, pk: nat)
    requires rules.Valid() && events.Valid()
    modifies rules, events
    ensures rules.Valid() && events.Valid()
    ensures rules.rows == old(rules.rows) - {pk}
    ensures forall k :: k in events.rows <==> k in old(events.rows) && old(events.rows)[k].data.productAlert != pk
    ensures forall k :: k in events.rows ==> events.rows[k] == old(events.rows)[k]
    ensures EventsUnique(old(events.rows)) ==> EventsUnique(events.rows)
  {
    var doomed := EventsOfRule(events.rows, pk);
    events.HardDelete(doomed);
    rules.HardDelete({pk});
  }

  /** Physically removing a measurement removes every event it triggered and no other event. */
  method HardDeleteMeasurement(measurements: Table<Measurement>, events: Table<ProductAlertEvent>, pk: nat)
    requires measurements.Valid() && events.Valid()
    modifies measurements, events
    ensures measurements.Valid() && events.Valid()
    ensures measurements.rows == old(measurements.rows) - {pk}
    ensures forall k :: k in events.rows <==> k in old(events.rows) && old(events.rows)[k].data.measurement != pk
    ensures forall k :: k in events.rows ==> events.rows[k] == old(events.rows)[k]
    ensures EventsUnique(old(events.rows)) ==> EventsUnique(events.rows)
    ensures EventMeasurementsExist(old(events.rows), old(measurements.rows)) ==> EventMeasurementsExist(events.rows, measurements.rows)
  {
    var doomed := EventsOfMeasurement(events.rows, pk);
    events.HardDelete(doomed);
    measurements.HardDelete({pk});
  }
}
