/** The `patients` table of app.py as an abstract row store: the rows in
    insertion order and the largest id ever handed out, which is what SQLite
    keeps for an `AUTOINCREMENT` key. The app only ever creates the table and
    appends to it. */
module PatientStore {
  import opened Wrappers

  /** A row of `patients`: the `INTEGER PRIMARY KEY AUTOINCREMENT` id and the
      four `TEXT NOT NULL` columns. */
  datatype Row = Row(id: int, firstName: string, lastName: string, dob: string, therapist: string)

  /** The largest rowid SQLite can assign, 2^63 - 1. */
  const MaxRowId: int := 0x7FFF_FFFF_FFFF_FFFF

  /** How an `INSERT` into `patients` can fail here: the table was never
      created ("no such table"), or the largest rowid was already used, so an
      `AUTOINCREMENT` key has nowhere to go ("database or disk is full"). */
  datatype StorageError = NoSuchTable | DatabaseFull

  /** Ids grow strictly in insertion order. */
  predicate IdsAscending(rows: seq<Row>) {
    forall i, j :: 0 <= i < j < |rows| ==> rows[i].id < rows[j].id
  }

  class PatientsDb {
    var hasTable: bool
    var rows: seq<Row>
    /** The largest id assigned so far (SQLite's `sqlite_sequence` entry), 0 before the first. */
    var lastId: int

    ghost predicate Valid()
      reads this
    {
      && 0 <= lastId <= MaxRowId
      && (!hasTable ==> rows == [] && lastId == 0)
      && IdsAscending(rows)
      && (forall i :: 0 <= i < |rows| ==> 1 <= rows[i].id <= lastId)
    }

    /** A database file that `sqlite3.connect` has just created: no tables yet. */
    constructor ()
      ensures Valid() && !hasTable && rows == [] && lastId == 0
    {
      hasTable, rows, lastId := false, [], 0;
    }

    /** `init_db()`: `CREATE TABLE IF NOT EXISTS patients (...)`. Creates the
        empty table when it is missing and leaves an existing one as it is. */
    method InitDb()
      requires Valid()
      modifies this
      ensures Valid() && hasTable
      ensures rows == old(rows) && lastId == old(lastId)
    {
      if !hasTable {
        hasTable := true;
      }
    }

    /** `INSERT INTO patients (first_name, last_name, dob, therapist) VALUES (?, ?, ?, ?)`
        followed by `commit()`: appends one row whose id is one more than the
        largest id ever assigned, or fails and changes nothing. */
    method Insert(firstName: string, lastName: string, dob: string, therapist: string)
      returns (result: Result<int, StorageError>)
      requires Valid()
      modifies this
      ensures Valid() && hasTable == old(hasTable)
      ensures !old(hasTable) ==> result == Err(NoSuchTable)
      ensures old(hasTable) && old(lastId) == MaxRowId ==> result == Err(DatabaseFull)
      ensures old(hasTable) && old(lastId) < MaxRowId ==> result == Ok(old(lastId) + 1)
      ensures result.Err? ==> rows == old(rows) && lastId == old(lastId)
      ensures result.Ok? ==> lastId == result.value
      ensures result.Ok? ==> rows == old(rows) + [Row(result.value, firstName, lastName, dob, therapist)]
      ensures result.Ok? ==> forall i :: 0 <= i < |old(rows)| ==> old(rows)[i].id < result.value
    {
      if !hasTable {
        return Err(NoSuchTable);
      }
      if lastId == MaxRowId {
        return Err(DatabaseFull);
      }
      var id := lastId + 1;
      rows := rows + [Row(id, firstName, lastName, dob, therapist)];
      lastId := id;
      result := Ok(id);
    }
  }
}
