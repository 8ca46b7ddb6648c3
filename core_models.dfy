// Records with timestamps and soft delete, and the tables that hold them
// (core/models.py). Every entity of the application inherits the same
// bookkeeping: a status, creation/update timestamps and a deletion timestamp
// whose presence marks the record as deleted.
module CoreModels {

  /** Instants are abstract integers; the clock is always passed in. */
  type Time = int

  datatype Option<T> = None | Some(value: T)

  /** The two values of the `estado` column. */
  datatype Estado = Activo | Inactivo

  /** The columns every record carries besides its own data. */
  datatype Meta = Meta(estado: Estado, createdAt: Time, updatedAt: Time, deletedAt: Option<Time>)

  /** One row of a table: its bookkeeping and the entity's own fields. */
  datatype Record<T> = Record(meta: Meta, data: T)

  /** The bookkeeping of a freshly inserted row. */
  function NewMeta(now: Time): (m: Meta)
    ensures m.estado == Activo && m.deletedAt == None
    ensures m.createdAt == now && m.updatedAt == now
  {
    Meta(Activo, now, now, None)
  }

  /** A row is alive while it has no deletion timestamp. */
  predicate IsAlive<T>(r: Record<T>)
  {
    r.meta.deletedAt.None?
  }

  /** The rows the default manager and `alive()` return. */
  function Alive<T>(rows: map<nat, Record<T>>): (a: map<nat, Record<T>>)
    ensures forall k :: k in a <==> k in rows && IsAlive(rows[k])
    ensures forall k :: k in a ==> a[k] == rows[k]
  {
    map k | k in rows && IsAlive(rows[k]) :: rows[k]
  }

  /** The rows `dead()` and `only_deleted()` return. */
  function Dead<T>(rows: map<nat, Record<T>>): (d: map<nat, Record<T>>)
    ensures forall k :: k in d <==> k in rows && !IsAlive(rows[k])
    ensures forall k :: k in d ==> d[k] == rows[k]
  {
    map k | k in rows && !IsAlive(rows[k]) :: rows[k]
  }

  /** Alive and dead rows are disjoint and together they are the whole table,
      which is what `with_deleted()` and `all_objects` return. */
  lemma AliveDeadPartition<T>(rows: map<nat, Record<T>>)
    ensures Alive(rows).Keys !! Dead(rows).Keys
    ensures Alive(rows).Keys + Dead(rows).Keys == rows.Keys
    ensures Alive(rows) + Dead(rows) == rows
  {
    var u := Alive(rows) + Dead(rows);
    assert u.Keys == rows.Keys;
    forall k | k in rows ensures u[k] == rows[k] {
      if IsAlive(rows[k]) {
        assert k !in Dead(rows);
      }
    }
  }

  /** The soft delete of one record: a live record gets its deletion
      timestamp, becomes INACTIVO and is updated now; a deleted record is
      left exactly as it is. */
  function SoftDeleteMeta(m: Meta, now: Time): (r: Meta)
    ensures m.deletedAt.Some? ==> r == m
    ensures m.deletedAt.None? ==> r == Meta(Inactivo, m.createdAt, now, Some(now))
  {
    if m.deletedAt.Some? then m else Meta(Inactivo, m.createdAt, now, Some(now))
  }

  /** Deleting twice is deleting once, whatever the second clock reading. */
  lemma SoftDeleteIdempotent(m: Meta, first: Time, second: Time)
    ensures SoftDeleteMeta(SoftDeleteMeta(m, first), second) == SoftDeleteMeta(m, first)
    ensures SoftDeleteMeta(m, first).deletedAt.Some?
  {
  }

  /** The row written by the bulk soft delete of a queryset: it is an SQL
      UPDATE, so every row of the queryset gets the new timestamp, deleted or
      not, and `updated_at` is not touched. */
  function BulkDeletedRow<T>(r: Record<T>, now: Time): (d: Record<T>)
    ensures d.data == r.data && !IsAlive(d)
    ensures d.meta == Meta(Inactivo, r.meta.createdAt, r.meta.updatedAt, Some(now))
  {
    r.(meta := r.meta.(estado := Inactivo, deletedAt := Some(now)))
  }

  // ASCII character classes and case folding, shared by the unit
  // normalizer and the sign-up form's case-insensitive name check.

  /** ASCII stand-in for `str.isalnum`. */
  predicate IsAlnum(c: char)
  {
    'a' <= c <= 'z' || 'A' <= c <= 'Z' || '0' <= c <= '9'
  }

  predicate IsUpper(c: char)
  {
    'A' <= c <= 'Z'
  }

  /** ASCII stand-in for the per-character effect of `str.lower`. */
  function Lower(c: char): (l: char)
    ensures !IsUpper(l)
    ensures IsAlnum(l) <==> IsAlnum(c)
    ensures !IsUpper(c) ==> l == c
  {
    if IsUpper(c) then (c as int + 32) as char else c
  }

  function LowerStr(s: string): (r: string)
    ensures |r| == |s|
    ensures forall i :: 0 <= i < |s| ==> r[i] == Lower(s[i])
    ensures forall c :: c in r ==> !IsUpper(c)
  {
    seq(|s|, i requires 0 <= i < |s| => Lower(s[i]))
  }

  /** An organization; its name is unique over all rows, deleted or not. */
  datatype Organization = Organization(name: string, email: Option<string>)

  /** One table of the relational store, keyed by primary key. */
  class Table<T> {
    var rows: map<nat, Record<T>>
    var nextPk: nat

    ghost predicate Valid()
      reads this
    {
      forall k :: k in rows ==> k < nextPk
    }

    constructor ()
      ensures Valid() && rows == map[]
    {
      rows := map[];
      nextPk := 0;
    }

    /** `objects`: the default manager sees only live rows. */
    function Objects(): map<nat, Record<T>>
      reads this
    {
      Alive(rows)
    }

    /** `objects.create(...)`: a new ACTIVO row under a primary key not used before. */
    method Create(data: T, now: Time) returns (pk: nat)
      requires Valid()
      modifies this
      ensures Valid() && nextPk > old(nextPk)
      ensures pk !in old(rows)
      ensures rows == old(rows)[pk := Record(NewMeta(now), data)]
    {
      pk := nextPk;
      rows := rows[pk := Record(NewMeta(now), data)];
      nextPk := nextPk + 1;
    }

    /** `instance.save()` of an existing row: its fields are written and
        `updated_at` (auto_now) becomes now. */
    method Save(pk: nat, data: T, now: Time)
      requires Valid() && pk in rows
      modifies this
      ensures Valid() && nextPk == old(nextPk)
      ensures rows == old(rows)[pk := Record(old(rows[pk].meta).(updatedAt := now), data)]
    {
      rows := rows[pk := Record(rows[pk].meta.(updatedAt := now), data)];
    }

    /** `queryset.update(...)`: one SQL UPDATE over the rows whose keys are in
        `pks`; it returns how many rows it matched and leaves `updated_at`
        alone unless `f` sets it. */
    method Update(pks: set<nat>, f: Record<T> -> Record<T>) returns (n: nat)
      requires Valid()
      modifies this
      ensures Valid() && nextPk == old(nextPk)
      ensures rows.Keys == old(rows).Keys
      ensures forall k :: k in rows ==> rows[k] == if k in pks then f(old(rows)[k]) else old(rows)[k]
      ensures n == |pks * old(rows).Keys|
    {
      n := |pks * rows.Keys|;
      rows := map k | k in rows :: if k in pks then f(rows[k]) else rows[k];
    }

    /** `BaseModel.delete()`: the soft delete of one row; a no-op on a row
        already deleted. */
    method Delete(pk: nat, now: Time)
      requires Valid() && pk in rows
      modifies this
      ensures Valid() && nextPk == old(nextPk)
      ensures rows == old(rows)[pk := old(rows[pk]).(meta := SoftDeleteMeta(old(rows[pk].meta), now))]
      ensures !old(IsAlive(rows[pk])) ==> rows == old(rows)
    {
      if rows[pk].meta.deletedAt.Some? {
        return;
      }
      rows := rows[pk := rows[pk].(meta := SoftDeleteMeta(rows[pk].meta, now))];
    }

    /** `SoftDeleteQuerySet.delete()`: marks every row of the queryset deleted
        now, removes none and reports how many it updated. */
    method BulkDelete(pks: set<nat>, now: Time) returns (n: nat)
      requires Valid()
      modifies this
      ensures Valid() && nextPk == old(nextPk)
      ensures rows.Keys == old(rows).Keys
      ensures forall k :: k in rows ==> rows[k] == if k in pks then BulkDeletedRow(old(rows)[k], now) else old(rows)[k]
      ensures n == |pks * old(rows).Keys|
    {
      n := Update(pks, r => BulkDeletedRow(r, now));
    }

    /** `hard_delete()` on an instance or a queryset: the rows are physically
        removed. The counts the framework reports are not modelled. */
    method HardDelete(pks: set<nat>)
      requires Valid()
      modifies this
      ensures Valid() && nextPk == old(nextPk)
      ensures rows == old(rows) - pks
    {
      rows := rows - pks;
    }
  }
}
