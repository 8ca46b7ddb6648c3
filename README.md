# EcoEnergy-IC alert pipeline, in Dafny

A model of the monitoring core of the EcoEnergy-IC Django application and
proofs about it. It covers:

- measurements of products evaluated against threshold rules (`ProductAlert`);
- alert events (`ProductAlertEvent`) created at most once per rule and measurement;
- the hook that evaluates a measurement when it is first created;
- the guarded resolution of one event, and the admin's bulk resolution;
- the weekly tally of events by severity on the dashboard;
- moving products between devices from the device form and the device admin;
- the soft-delete bookkeeping every record carries;
- sign-up validation and the creation of an organization and its first user.

The database is a set of in-memory tables. `CoreModels.Table<T>` is a class
whose `rows` map primary keys to records. A record holds the common columns
(`estado`, `created_at`, `updated_at`, `deleted_at`) and the entity's own
fields. The default manager (`objects`) sees only live rows, those without a
deletion timestamp. `all_objects` and `with_deleted()` see every row.
Operations that write the store are methods on these tables. Most methods'
`ensures` give the new table as a function of the old one. The evaluator
(`Services.GenerateAlertEvents`) and the operations that run it
(`Signals.MeasurementPostSave`, `Signals.CreateMeasurement`,
`Forms.MeasurementFormSave`) are stated by a relation instead,
`Services.IsEvaluation`. It fixes every existing row and the content of
every new row, but not the primary keys the new rows get. Pure parts
(the unit normalizer, the matching policy, the display helpers, the
validation of the sign-up form) are functions with lemmas.

The clock is always a parameter (`now`). Instants are integers in seconds.

Files, one module each: `core_models.dfy` (core/models.py), `models.dfy`
(dispositivos/models.py), `services.dfy` (dispositivos/services.py),
`signals.dfy` (dispositivos/signals.py), `views.dfy` (dispositivos/views.py),
`device_products.dfy` (shared by dispositivos/forms.py and
dispositivos/admin.py), `forms.dfy` (dispositivos/forms.py), `admin.dfy`
(dispositivos/admin.py) and `signup.dfy` (usuarios/forms.py).

Where the code and its description differ, the model follows the code:

- The evaluator's comment says the rule query applies no status filter, and
  that is true: no `estado` filter is applied. But the query goes through
  `ProductAlert.objects`, the soft-delete manager, so soft-deleted rules are
  not evaluated. `Services.RulesOf` keeps live rules only.
- `get_or_create` looks events up through the same manager. So the evaluator
  keeps "at most one LIVE event per (rule, measurement)". A soft-deleted
  event does not stop a new one from being created.
- The sign-up form refuses a name only when it matches a live organization,
  ignoring case (`name__iexact`; `Signup.EqualsIgnoringCase` folds ASCII
  letters only). The `name` column is unique over all rows, deleted or not.
  The model assumes the database compares names case-sensitively, as
  PostgreSQL and SQLite do by default; the database backend is not part of
  this model, and under a case-insensitive collation (MySQL's default) the
  constraint would refuse other spellings too. So the exact name of a
  soft-deleted organization passes validation, and the save is then refused
  (`Signup.DeletedNamePassesCleanButNotSave`). The model returns that refusal
  as a result.

## Model

| member | source | states |
|---|---|---|
| CoreModels.NewMeta | core/models.py:52-55 | a new row is ACTIVO, not deleted, created and updated now |
| CoreModels.Alive | core/models.py:17-18 | the rows of the default manager and `alive()`: exactly those with no deletion timestamp, unchanged |
| CoreModels.Dead | core/models.py:20-21 | the rows of `dead()`/`only_deleted()`: exactly those with a deletion timestamp |
| CoreModels.AliveDeadPartition | core/models.py:17-43 | live and dead rows are disjoint, and together they are every row, which is what `with_deleted()` and `all_objects` return |
| CoreModels.SoftDeleteMeta | core/models.py:65-70 | deleting a live record sets the deletion time to now, sets INACTIVO and updates now; a record already deleted is returned as it is |
| CoreModels.SoftDeleteIdempotent | core/models.py:65-70 | a second delete, at any time, changes nothing and keeps the first deletion timestamp |
| CoreModels.BulkDeletedRow | core/models.py:9-11 | a bulk delete marks the row INACTIVO and deleted now, keeps its data, and does not touch `updated_at` |
| CoreModels.Table.Create | core/models.py:52-55 | an insert adds exactly one ACTIVO row under a key not used before |
| CoreModels.Table.Save | core/models.py:54 | saving a row writes its fields and sets `updated_at` to now; other rows are unchanged |
| CoreModels.Table.Update | core/models.py:11 | a queryset update rewrites exactly the rows of the set and returns how many it matched |
| CoreModels.Table.Delete | core/models.py:65-70 | the instance delete soft-deletes one row; on a deleted row it is a no-op |
| CoreModels.Table.BulkDelete | core/models.py:9-11 | the queryset delete marks every row of the set deleted, removes none, and returns the number updated |
| CoreModels.Table.HardDelete | core/models.py:13-15 | the physical delete removes exactly the rows of the set; no other row changes |
| Models.SeverityDisplay | dispositivos/models.py:117-123 | the display text of each of the three severities; any other stored value is shown as it is |
| Models.NewEvent | dispositivos/models.py:142-145 | a new event is linked to its rule and measurement, unresolved, with no resolution time |
| Models.ProductLabel | dispositivos/models.py:99-100 | the bare name without a device; the name followed by " (device name)" with one |
| Models.CreateZone | dispositivos/models.py:17 | a zone is refused exactly when its organization already has a zone of that name, deleted rows included; uniqueness is preserved |
| Models.CreateDevice | dispositivos/models.py:54 | a device with a serial number is refused exactly when its organization already has that serial; a missing serial never collides |
| Models.CreateRule | dispositivos/models.py:135 | a rule is refused exactly when the (product, alert) pair exists; at most one rule per pair is preserved |
| Models.HardDeleteRule | dispositivos/models.py:142 | physically removing a rule removes every event that refers to it, and no other event; at most one live event per pair still holds |
| Models.HardDeleteMeasurement | dispositivos/models.py:143 | physically removing a measurement removes every event that refers to it, and no other event; at most one live event per pair still holds, and every event still refers to an existing measurement |
| Services.NormUnit | dispositivos/services.py:8-15 | a missing or empty unit gives the empty key; the key is never longer than the label and holds only lower-case alphanumerics |
| Services.NormUnitIsFilter | dispositivos/services.py:15 | stripping changes nothing: the key is the alphanumeric characters of the lower-cased label, in order |
| Services.NormUnitIgnoresNonAlnum | dispositivos/services.py:15 | a symbol or a blank anywhere in the label does not change the key |
| Services.NormUnitIdempotent | dispositivos/services.py:15 | a key normalizes to itself |
| Services.NormUnitOfLetter | dispositivos/services.py:15 | the key of a one-letter label is that letter in lower case |
| Services.CelsiusSpellings | dispositivos/services.py:9-12 | "°C", "C", "c" and " C " all give the key "c", so they match each other |
| Services.DegreeSpelling | dispositivos/services.py:9-12 | "°C" and "C" have the same key |
| Services.PaddedSpelling | dispositivos/services.py:15 | " C " and "C" have the same key |
| Services.FiringPolicy | dispositivos/services.py:48-53 | an empty rule unit matches any unit; a different non-empty unit never fires; the bounds are inclusive; a rule with min > max never fires |
| Services.RulesOf | dispositivos/services.py:41-45 | the rules read are exactly the live rules of the measurement's product, whatever their status |
| Services.FiringRules | dispositivos/services.py:33-35 | a measurement without a product fires nothing (the guard as written; see "## Left out"); otherwise exactly the rules of its product that match unit and range |
| Services.GetOrCreateEvent | dispositivos/services.py:54-58 | creates an event exactly when the pair has no live event, otherwise returns the existing one and changes nothing |
| Services.GenerateAlertEvents | dispositivos/services.py:19-62 | existing rows are kept; the returned list holds each new row once; each new row is an unresolved event of this measurement for a firing rule that had none; afterwards every firing rule has a live event, and at most one live event per pair still holds |
| Services.NoProductNoEvents | dispositivos/services.py:33-35 | the guard as written: a measurement without a product creates no event and leaves the table as it was (unreachable in the source, see "## Left out") |
| Services.EvaluationIdempotent | dispositivos/services.py:54-60 | evaluating the same measurement again returns the empty list and leaves the event table unchanged |
| Services.EachMissingRuleGetsOneEvent | dispositivos/services.py:47-60 | every firing rule that had no live event appears in the returned list exactly once |
| Services.HighReadingScenario | dispositivos/test.py:19-27 | bands MEDIANO [70,80], ALTO [81,90], GRAVE [91,9999999] in °C and a reading of 85 °C give exactly one event, for ALTO, and it is the only live event of the measurement |
| Signals.MeasurementPostSave | dispositivos/signals.py:6-10 | the evaluator runs exactly when the save created the row; an update save leaves the events unchanged |
| Signals.CreateMeasurement | dispositivos/signals.py:9-10 | creating a measurement of a product inserts it under a key no earlier event refers to and evaluates it once, so every firing rule has a live event for it afterwards; every event still refers to an existing measurement |
| Signals.HighReadingOnCreate | dispositivos/test.py:19-27 | creating an 85 °C reading against the three bands leaves exactly one live event for it, for the ALTO rule |
| Signals.UpdateMeasurement | dispositivos/signals.py:9 | saving an existing measurement of a product rewrites it and creates or changes no event |
| Views.AfterResolve | dispositivos/views.py:337-342 | a live unresolved event becomes resolved at now with `updated_at` now; any other event table, and every other event, is unchanged |
| Views.ResolveIdempotent | dispositivos/views.py:339 | resolving a second time changes nothing, the first resolution time included |
| Views.ResolvePreservesUniqueness | dispositivos/views.py:338-342 | resolving keeps at most one live event per (rule, measurement) |
| Views.ResolveEvent | dispositivos/views.py:337-344 | not found exactly when no live event has the key; already resolved exactly when the live event is resolved; the new table is the one described above |
| Views.WeekStart | dispositivos/views.py:34 | the window starts seven days before now |
| Views.WeeklyEvents | dispositivos/views.py:37-41 | exactly the live events created at or after the start whose rule's alert has the given severity |
| Views.SeverityTally | dispositivos/views.py:43-47 | the map has exactly the keys GRAVE, ALTO and MEDIANO; each holds the count of its row, 0 without one; rows of other severities are ignored |
| Views.TallyIsWeeklyCount | dispositivos/views.py:34-47 | over the rows of the grouped query, each tally is the number of live events of that severity in the window |
| DeviceProducts.Candidates | dispositivos/forms.py:42-51 | for an existing device, the live products with no device or with this one; for a new device, only the live products without a device |
| DeviceProducts.InitialSelection | dispositivos/forms.py:47 | the pre-selection is exactly the live products attached to the device |
| DeviceProducts.InitialWithinCandidates | dispositivos/admin.py:29-38 | the pre-selection is among the choices; the choices of an existing device are those of a new one plus its own products |
| DeviceProducts.SetDevice | dispositivos/forms.py:61-62 | a bulk update changes only the device of the rows in the set, and leaves their other columns, `updated_at` included, and every other row alone |
| DeviceProducts.SyncedEffect | dispositivos/admin.py:64-69 | after both updates, every selected live product is attached, every unselected live product of the device is detached, and every other row is unchanged |
| DeviceProducts.SyncedSelection | dispositivos/forms.py:58-62 | after saving a choice the form offered, the device's pre-selection is exactly that choice |
| DeviceProducts.SyncedIdempotent | dispositivos/forms.py:58-62 | submitting the same choice again changes nothing |
| DeviceProducts.UpdateDevice | dispositivos/models.py:86-97 | one update statement is refused as a whole exactly when its result would break a serial-number constraint |
| Forms.DeviceFormSave | dispositivos/forms.py:53-64 | detach, then attach; synchronised exactly when both updates keep the serial constraints, and then the table is the synchronised one; when the attach is refused the detach stays done |
| Forms.ProductCheck | dispositivos/forms.py:68-83 | a chosen device must be live, the category must be live, the serial number must be free; no device at all is accepted |
| Forms.DeviceIsOptional | dispositivos/forms.py:81 | a product without a device passes when its category is live and it has no serial number, or one that is free among device-less products |
| Forms.ProductFormSave | dispositivos/forms.py:68-83 | rejected exactly when the check fails, with nothing written; otherwise the product is created or rewritten, and the serial constraints still hold |
| Forms.MeasurementFormSave | dispositivos/forms.py:92-96 | an invalid form writes nothing; `commit` off writes nothing; a new measurement is evaluated once by the hook, an edited one not at all |
| Admin.DeviceAdminSaveModel | dispositivos/admin.py:60-69 | the same synchronisation inside a transaction: it succeeds exactly when both updates keep the serial constraints, and then the table is synchronised; on refusal nothing changes |
| Admin.MarkedResolved | dispositivos/admin.py:160 | every selected row becomes resolved at now, already-resolved ones included; `updated_at` and every other row are untouched |
| Admin.MarkedResolvedOverwrites | dispositivos/admin.py:160 | running the action twice leaves the second timestamp |
| Admin.MarcarResueltas | dispositivos/admin.py:158-161 | the selected live events are resolved at now, and the count is the number of rows matched; at most one live event per pair still holds |
| Admin.TriggeredAlerts | dispositivos/admin.py:114-119 | a dash without events; otherwise the severity texts joined by ", " |
| Admin.TriggeredAlertsShowsFirst | dispositivos/admin.py:114-119 | with events of proper severities the column is never the dash and starts with the first severity's text |
| Admin.Join | dispositivos/admin.py:119 | the joined text is as long as the parts plus one separator between each two; it starts with the first part and ends with the last |
| Admin.DeviceName | dispositivos/admin.py:140-143 | the device's name, a dash without a device |
| Admin.ValueWithUnit | dispositivos/admin.py:149-152 | the value text, one blank, the unit |
| Signup.Clean | usuarios/forms.py:17-28 | a mismatch error exactly when both passwords are given and differ; a duplicate error exactly when the name is given and a live organization has it, ignoring case |
| Signup.DeletedOrganizationsIgnored | usuarios/forms.py:26 | validation gives the same errors when the deleted organizations are removed |
| Signup.CleanIgnoresCase | usuarios/forms.py:26 | a name and its lower-case spelling get the same errors |
| Signup.UsernameFor | usuarios/forms.py:37 | the username is the given one, or the email when it is empty |
| Signup.Save | usuarios/forms.py:30-44 | the organization is created under the name, then with `commit` the user with the fallback username, the email and that organization; a refused insert rolls both back |
| Signup.DeletedNamePassesCleanButNotSave | usuarios/forms.py:25-33 | the exact name of a deleted organization, with no live match, passes validation and is refused at save |

## Left out

- Unicode: `str.lower`, `str.isalnum` and `str.isspace` are modelled on ASCII only (`str.isspace` as blank, 0x09-0x0D and 0x1C-0x1F). Other letters and digits, such as accented letters, count as symbols.
- Floating point: values and bounds are exact reals, so rounding and NaN are not modelled.
- Concurrency: the evaluator's transaction and races between concurrent get-or-create calls are out. Per-pair uniqueness of live events is an invariant that every modelled operation writing events keeps (creation, resolution, the bulk action, the cascades); no storage constraint enforces it.
- The event admin's default add and change forms (`ProductAlertEventAdmin`, a plain `ModelAdmin` with `deleted_at` editable) are not modelled. They can write a second live event for a (rule, measurement) pair, after which the evaluator's `get_or_create` raises `MultipleObjectsReturned`; that error path is not modelled either.
- Services.NoProductNoEvents: the model states the guard of dispositivos/services.py:34-35 as written, but the source cannot reach it. The `product` column is NOT NULL, so no product-less row is stored (`Signals.CreateMeasurement` and `Signals.UpdateMeasurement` require a product), and reading `measurement.product` at line 33 on an unsaved product-less instance raises `RelatedObjectDoesNotExist` rather than returning. Those two errors are not modelled.
- Querysets and rendering: dashboard counts other than the tally, listings, search filters, pagination, messages, redirects and templates. `alerts_active_count` on the product page is out too.
- The grouped dashboard query: `Views.SeverityTally` takes its rows, and `Views.GroupedRows` says what they hold.
- The writing of the device row in `DeviceForm.save` and `DeviceAdmin.save_model` is the framework's model save. The product synchronisation starts from the device's key.
- The `"products" in cleaned_data` guard: a valid form always holds the field, so the synchronisation always runs.
- `DeviceForm.save(commit=False)` and `ProductForm.save(commit=False)` are not modelled. No transaction is assumed around the device form's two updates.
- Forms.ProductFormSave: the form's own uniqueness check and the database constraint are merged into one rejection. The model does not say which of the two refuses.
- Field validation other than the checks named above: lengths, email syntax, choices of `severity`. The zone, category and alert forms only pick fields and are out.
- Admin.TriggeredAlerts takes the severities of the measurement's events in the order they come. That order is not specified.
- Admin.ValueWithUnit takes the printed value as given. Python's float printing is not modelled.
- Password hashing (`set_password`) and the user's other columns.
- CoreModels.Table.HardDelete: the pair of counts that Django's `delete()` returns (a total including cascaded rows, and one count per model) is not modelled; nothing in the core reads it.
- Foreign keys: only the link from events to measurements is stated as an invariant (`Models.EventMeasurementsExist`); the other foreign keys (event to rule, rule to product and alert, product to device and category) are not.
- Cascades of physical deletes other than from rules and measurements to events. `PROTECT` on zones and categories is also out.
- Checking a device's serial number when an existing device is edited.
- The stale `Organization` and `BaseModel` of usuarios/models.py. Only the user's uniqueness of `username` is used.
- The HTTP layer: login, the `POST` requirement and the referrer redirect of `resolve_event`.
