/**
 * The relational store as the handlers see it through the ORM: every table is a
 * map from a surrogate integer id to a row, with an auto-increment counter that
 * hands out the next id on insert.  Ids start at 1, as a serial primary key does.
 */
module Store {

  datatype Option<T> = None | Some(value: T)

  /** One table: its rows by primary key, and the next id the sequence hands out. */
  datatype Table<T> = Table(rows: map<nat, T>, nextId: nat) {

    /** Every stored id was handed out by the sequence, so the next one is fresh. */
    ghost predicate Valid() {
      0 < nextId && forall k :: k in rows ==> 0 < k < nextId
    }

    /** `db.Create(&row)`: stores the row under a fresh id and returns that id. */
    function Insert(row: T): (r: (nat, Table<T>))
      requires Valid()
      ensures r.0 !in rows && r.0 > 0
      ensures r.1.Valid() && r.1.rows == rows[r.0 := row]
      ensures r.0 == nextId && r.1.nextId == nextId + 1
    {
      (nextId, Table(rows[nextId := row], nextId + 1))
    }

    /** `db.Save(&row)` on a row that was read before: overwrites it in place. */
    function Update(id: nat, row: T): (r: Table<T>)
      requires Valid() && id in rows
      ensures r.Valid() && r.nextId == nextId
      ensures r.rows.Keys == rows.Keys && r.rows[id] == row
      ensures forall k :: k in rows && k != id ==> r.rows[k] == rows[k]
    {
      Table(rows[id := row], nextId)
    }

    /** `db.Delete(&row)` on a row that was read before: removes it by primary key. */
    function Remove(id: nat): (r: Table<T>)
      requires Valid()
      ensures r.Valid() && r.nextId == nextId
      ensures r.rows == rows - {id}
    {
      Table(rows - {id}, nextId)
    }

    /** `db.Where(cond).Delete(..)`: removes every row that satisfies the condition. */
    function DeleteWhere(p: T -> bool): (r: Table<T>)
      requires Valid()
      ensures r.Valid() && r.nextId == nextId
      ensures forall k :: k in r.rows <==> k in rows && !p(rows[k])
      ensures forall k :: k in r.rows ==> r.rows[k] == rows[k]
    {
      Table(map k | k in rows && !p(rows[k]) :: rows[k], nextId)
    }

    /**
     * `db.Where(cond).First(&row)`: the row with the lowest id that satisfies the
     * condition (GORM orders `First` by primary key), or None when there is none.
     */
    function FirstWhere(p: T -> bool): (r: Option<nat>)
      requires Valid()
      ensures r.Some? ==> r.value in rows && p(rows[r.value])
      ensures r.Some? ==> forall k :: k in rows && k < r.value ==> !p(rows[k])
      ensures r.None? <==> forall k :: k in rows ==> !p(rows[k])
    {
      ScanFrom(p, 1)
    }

    /** The scan behind FirstWhere: the lowest matching id that is at least `from`. */
    function ScanFrom(p: T -> bool, from: nat): (r: Option<nat>)
      requires Valid()
      ensures r.Some? ==> from <= r.value && r.value in rows && p(rows[r.value])
      ensures r.Some? ==> forall k :: k in rows && from <= k < r.value ==> !p(rows[k])
      ensures r.None? <==> forall k :: k in rows && from <= k ==> !p(rows[k])
      decreases nextId - from
    {
      if from >= nextId then None
      else if from in rows && p(rows[from]) then Some(from)
      else ScanFrom(p, from + 1)
    }
  }

  /** A table with no rows, as a freshly migrated schema has it. */
  function EmptyTable<T>(): (r: Table<T>)
    ensures r.Valid() && r.rows == map[]
  {
    Table(map[], 1)
  }
}
