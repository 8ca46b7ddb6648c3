// Re-assigning products to a device, as the device form
// (dispositivos/forms.py) and the device admin (dispositivos/admin.py) both
// do it: which products may be chosen, which are pre-selected, and what the
// two bulk updates that detach the unselected products and attach the
// selected ones leave behind.
module DeviceProducts {
  import opened CoreModels
  import opened Models

  /** The choices of the products field: live products without a device,
      and, when the device already exists, also the live products attached
      to it. */
  function Candidates(products: map<nat, Record<Product>>, device: Option<nat>): (cs: set<nat>)
    ensures device.None? ==> forall k :: k in cs <==> k in products && IsAlive(products[k]) && products[k].data.device.None?
    ensures device.Some? ==> forall k :: k in cs <==> k in products && IsAlive(products[k])
                                                      && (products[k].data.device.None? || products[k].data.device == device)
  {
    set k | k in products && IsAlive(products[k]) && (products[k].data.device.None? || products[k].data.device == device)
  }

  /** The initial value of the field for an existing device: its live products. */
  function InitialSelection(products: map<nat, Record<Product>>, device: nat): (sel: set<nat>)
    ensures forall k :: k in sel <==> k in products && IsAlive(products[k]) && products[k].data.device == Some(device)
  {
    set k | k in products && IsAlive(products[k]) && products[k].data.device == Some(device)
  }

  /** The pre-selected products are among the choices, and the choices of
      a new device are a subset of those of any existing one. */
  lemma InitialWithinCandidates(products: map<nat, Record<Product>>, device: nat)
    ensures InitialSelection(products, device) <= Candidates(products, Some(device))
    ensures Candidates(products, None) <= Candidates(products, Some(device))
    ensures Candidates(products, Some(device)) == Candidates(products, None) + InitialSelection(products, device)
  {
  }

  /** `queryset.update(device=...)` over the rows `pks`: only the device
      column changes; `updated_at` is not touched. */
  function SetDevice(products: map<nat, Record<Product>>, pks: set<nat>, device: Option<nat>): (after: map<nat, Record<Product>>)
    ensures after.Keys == products.Keys
    ensures forall k :: k in after && k in pks ==> after[k].meta == products[k].meta
                                                   && after[k].data == products[k].data.(device := device)
    ensures forall k :: k in after && k !in pks ==> after[k] == products[k]
  {
    map k | k in products :: if k in pks then products[k].(data := products[k].data.(device := device)) else products[k]
  }

  /** The first update: the live products of the device that were not selected. */
  function ToDetach(products: map<nat, Record<Product>>, device: nat, selected: set<nat>): set<nat>
  {
    set k | k in products && IsAlive(products[k]) && products[k].data.device == Some(device) && k !in selected
  }

  /** The second update: the live products that were selected. */
  function ToAttach(products: map<nat, Record<Product>>, selected: set<nat>): set<nat>
  {
    set k | k in products && IsAlive(products[k]) && k in selected
  }

  /** The product table after both updates. */
  function Synced(products: map<nat, Record<Product>>, device: nat, selected: set<nat>): map<nat, Record<Product>>
  {
    var detached := SetDevice(products, ToDetach(products, device, selected), None);
    SetDevice(detached, ToAttach(detached, selected), Some(device))
  }

  /** The three outcomes of a synchronisation: every selected live product
      is attached, every live product of the device that was not selected is
      detached, and every other row is exactly as it was. */
  lemma SyncedEffect(products: map<nat, Record<Product>>, device: nat, selected: set<nat>)
    ensures Synced(products, device, selected).Keys == products.Keys
    ensures forall k :: k in products && IsAlive(products[k]) && k in selected ==>
              Synced(products, device, selected)[k].data == products[k].data.(device := Some(device))
    ensures forall k :: k in products && IsAlive(products[k]) && k !in selected && products[k].data.device == Some(device) ==>
              Synced(products, device, selected)[k].data == products[k].data.(device := None)
    ensures forall k :: k in products && !(IsAlive(products[k]) && (k in selected || products[k].data.device == Some(device))) ==>
              Synced(products, device, selected)[k] == products[k]
    ensures forall k :: k in products ==> Synced(products, device, selected)[k].meta == products[k].meta
  {
    var detach := ToDetach(products, device, selected);
    var detached := SetDevice(products, detach, None);
    var attach := ToAttach(detached, selected);
    assert forall k :: k in detached ==> IsAlive(detached[k]) == IsAlive(products[k]);
    assert forall k :: k in products ==> (k in attach <==> IsAlive(products[k]) && k in selected);
    assert forall k :: k in products ==> (k in detach <==> IsAlive(products[k]) && products[k].data.device == Some(device) && k !in selected);
  }

  /** After a synchronisation over choices the form offered, the device's
      pre-selection is exactly what was chosen. */
  lemma SyncedSelection(products: map<nat, Record<Product>>, device: nat, selected: set<nat>)
    requires selected <= Candidates(products, Some(device))
    ensures InitialSelection(Synced(products, device, selected), device) == selected
  {
    SyncedEffect(products, device, selected);
    var after := Synced(products, device, selected);
    assert forall k :: k in after ==> IsAlive(after[k]) == IsAlive(products[k]);
  }

  /** Submitting the same choice again changes nothing. */
  lemma SyncedIdempotent(products: map<nat, Record<Product>>, device: nat, selected: set<nat>)
    ensures Synced(Synced(products, device, selected), device, selected) == Synced(products, device, selected)
  {
    var once := Synced(products, device, selected);
    var twice := Synced(once, device, selected);
    SyncedEffect(products, device, selected);
    SyncedEffect(once, device, selected);
    assert forall k :: k in once ==> IsAlive(once[k]) == IsAlive(products[k]);
    assert forall k :: k in twice ==> twice[k] == once[k];
  }

  /** One `queryset.update(device=...)` statement: it is refused as a whole
      when the new rows would break one of the serial-number constraints. */
  method UpdateDevice(products: Table<Product>, pks: set<nat>, device: Option<nat>) returns (ok: bool)
    requires products.Valid()
    modifies products
    ensures products.Valid() && products.nextPk == old(products.nextPk)
    ensures ok <==> ProductSerialsUnique(SetDevice(old(products.rows), pks, device))
    ensures ok ==> products.rows == SetDevice(old(products.rows), pks, device) && ProductSerialsUnique(products.rows)
    ensures !ok ==> products.rows == old(products.rows)
  {
    var after := SetDevice(products.rows, pks, device);
    if !ProductSerialsUnique(after) {
      return false;
    }
    var _ := products.Update(pks, (r: Record<Product>) => r.(data := r.data.(device := device)));
    ok := true;
  }
}
