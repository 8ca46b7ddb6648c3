// The saving forms of dispositivos/forms.py: the device form with its
// product selector, the product form with an optional device, and the
// measurement form, which leaves evaluation to the creation hook.
module Forms {
  import opened CoreModels
  import opened Models
  import opened Services
  import opened Signals
  import opened DeviceProducts

  datatype SyncOutcome = Synchronised | DetachRefused | AttachRefused

  /** `DeviceForm.save`, after the device row is written: the unselected
      products of the device are detached, then the selected ones are
      attached. The two updates run in sequence without a surrounding
      transaction, so when the second is refused the first stays done. */
  method DeviceFormSave(products: Table<Product>, device: nat, selected: set<nat>) returns (outcome: SyncOutcome)
    requires products.Valid()
    modifies products
    ensures products.Valid()
    ensures ProductSerialsUnique(old(products.rows)) ==> ProductSerialsUnique(products.rows)
    ensures outcome == DetachRefused <==>
              !ProductSerialsUnique(SetDevice(old(products.rows), ToDetach(old(products.rows), device, selected), None))
    ensures outcome == Synchronised <==>
              ProductSerialsUnique(SetDevice(old(products.rows), ToDetach(old(products.rows), device, selected), None))
              && ProductSerialsUnique(Synced(old(products.rows), device, selected))
    ensures outcome == Synchronised ==> products.rows == Synced(old(products.rows), device, selected)
    ensures outcome == DetachRefused ==> products.rows == old(products.rows)
    ensures outcome == AttachRefused ==>
              products.rows == SetDevice(old(products.rows), ToDetach(old(products.rows), device, selected), None)
  {
    var ok := UpdateDevice(products, ToDetach(products.rows, device, selected), None);
    if !ok {
      return DetachRefused;
    }
    ok := UpdateDevice(products, ToAttach(products.rows, selected), Some(device));
    if !ok {
      return AttachRefused;
    }
    outcome := Synchronised;
  }

  datatype ProductRejection = UnknownDevice | UnknownCategory | SerialTaken

  datatype ProductSave = ProductSaved(pk: nat) | ProductRejected(reason: ProductRejection)

  /** Another row than `except` with the same serial number and the same
      device as `p`: the row one of the two partial constraints forbids. */
  predicate SerialClash(products: map<nat, Record<Product>>, except: Option<nat>, p: Product)
  {
    p.serialNumber.Some? && exists k :: k in products && Some(k) != except && products[k].data.serialNumber == p.serialNumber
                                        && products[k].data.device == p.device
  }

  /** The result a product form gives for `data`: a device, when one is
      chosen, must be a live device; the category must be a live category;
      the serial number must not collide. No device at all is accepted. */
  function ProductCheck(products: map<nat, Record<Product>>, devices: map<nat, Record<Device>>,
                        categories: map<nat, Record<Category>>, except: Option<nat>, data: Product): (r: Option<ProductRejection>)
    ensures r == Some(UnknownDevice) <==> data.device.Some? && !(data.device.value in devices && IsAlive(devices[data.device.value]))
    ensures r.None? <==> (data.device.None? || (data.device.value in devices && IsAlive(devices[data.device.value])))
                         && data.category in categories && IsAlive(categories[data.category])
                         && !SerialClash(products, except, data)
  {
    if data.device.Some? && !(data.device.value in devices && IsAlive(devices[data.device.value])) then Some(UnknownDevice)
    else if !(data.category in categories && IsAlive(categories[data.category])) then Some(UnknownCategory)
    else if SerialClash(products, except, data) then Some(SerialTaken)
    else None
  }

  /** A product without a device is accepted whenever its category is live
      and its serial number, if it has one, is free among device-less
      products: without a serial number it never collides. */
  lemma DeviceIsOptional(products: map<nat, Record<Product>>, devices: map<nat, Record<Device>>,
                         categories: map<nat, Record<Category>>, except: Option<nat>, data: Product)
    requires data.device.None? && data.category in categories && IsAlive(categories[data.category])
    requires data.serialNumber.Some? ==>
               forall k :: k in products && Some(k) != except && products[k].data.device.None? ==>
                 products[k].data.serialNumber != data.serialNumber
    ensures ProductCheck(products, devices, categories, except, data).None?
  {
  }

  /** `ProductForm.save` for a new product (`instance` none) or the live
      product `instance`. */
  method ProductFormSave(products: Table<Product>, devices: map<nat, Record<Device>>,
                         categories: map<nat, Record<Category>>, instance: Option<nat>, data: Product, now: Time)
    returns (result: ProductSave)
    requires products.Valid()
    requires instance.Some? ==> instance.value in products.rows && IsAlive(products.rows[instance.value])
    modifies products
    ensures products.Valid()
    ensures result.ProductRejected? <==> ProductCheck(old(products.rows), devices, categories, instance, data).Some?
    ensures result.ProductRejected? ==> products.rows == old(products.rows)
    ensures result.ProductSaved? && instance.None? ==>
              result.pk !in old(products.rows) && products.rows == old(products.rows)[result.pk := Record(NewMeta(now), data)]
    ensures result.ProductSaved? && instance.Some? ==>
              result.pk == instance.value
              && products.rows == old(products.rows)[result.pk := Record(old(products.rows)[result.pk].meta.(updatedAt := now), data)]
    ensures ProductSerialsUnique(old(products.rows)) ==> ProductSerialsUnique(products.rows)
  {
    var check := ProductCheck(products.rows, devices, categories, instance, data);
    if check.Some? {
      return ProductRejected(check.value);
    }
    ghost var prev := products.rows;
    assert forall k ::
             (k in prev && Some(k) != instance && prev[k].data.serialNumber.Some? && prev[k].data.serialNumber == data.serialNumber)
             ==> prev[k].data.device != data.device;
    if instance.None? {
      var pk := products.Create(data, now);
      result := ProductSaved(pk);
    } else {
      products.Save(instance.value, data, now);
      result := ProductSaved(instance.value);
    }
  }

  datatype MeasurementSave = MeasurementInvalid | MeasurementUnsaved | MeasurementSaved(pk: nat)

  /** The validation of a measurement form: a value that is not negative
      and a live product. */
  predicate MeasurementAcceptable(products: map<nat, Record<Product>>, data: Measurement)
  {
    ValidMeasurement(data) && data.product.Some? && data.product.value in products && IsAlive(products[data.product.value])
  }

  /** `MeasurementForm.save`: the row is written when `commit` is set, and
      the events come only from the creation hook that the write fires: a
      new measurement is evaluated once, an edited one not at all. */
  method MeasurementFormSave(measurements: Table<Measurement>, events: Table<ProductAlertEvent>,
                             rules: Table<ProductAlert>, products: map<nat, Record<Product>>,
                             instance: Option<nat>, data: Measurement, commit: bool, now: Time)
    returns (result: MeasurementSave)
    requires measurements.Valid() && events.Valid() && EventsUnique(events.rows)
    requires instance.Some? ==> instance.value in measurements.rows
    requires EventMeasurementsExist(events.rows, measurements.rows)
    modifies measurements, events
    ensures measurements.Valid() && events.Valid() && EventsUnique(events.rows)
    ensures EventMeasurementsExist(events.rows, measurements.rows)
    ensures result == MeasurementInvalid <==> !MeasurementAcceptable(products, data)
    ensures result == MeasurementUnsaved <==> MeasurementAcceptable(products, data) && !commit
    ensures !result.MeasurementSaved? ==> measurements.rows == old(measurements.rows) && events.rows == old(events.rows)
    ensures result.MeasurementSaved? && instance.None? ==>
              result.pk !in old(measurements.rows)
              && measurements.rows == old(measurements.rows)[result.pk := Record(NewMeta(now), data)]
              && exists evts :: IsEvaluation(old(events.rows), events.rows, rules.rows, result.pk, data, now, evts)
    ensures result.MeasurementSaved? && instance.Some? ==>
              result.pk == instance.value && events.rows == old(events.rows)
              && measurements.rows == old(measurements.rows)[result.pk := Record(old(measurements.rows)[result.pk].meta.(updatedAt := now), data)]
  {
    if !MeasurementAcceptable(products, data) {
      return MeasurementInvalid;
    }
    if !commit {
      return MeasurementUnsaved;
    }
    if instance.None? {
      var pk := CreateMeasurement(measurements, events, rules, data, now);
      result := MeasurementSaved(pk);
    } else {
      UpdateMeasurement(measurements, events, rules, instance.value, data, now);
      result := MeasurementSaved(instance.value);
    }
  }
}
