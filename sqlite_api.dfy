/** The SQLite variant of the service (main.py): one webhook that inserts
    (username, email) into the `users` table of users.db. The database is
    the state of one WebhookTable object: the rows by id and the table's
    `sqlite_sequence` entry, the largest id AUTOINCREMENT has handed out. */
module SqliteApi {
  import opened Http

  /** The largest rowid; AUTOINCREMENT fails with SQLITE_FULL beyond it. */
  const MaxRowId := 0x7FFF_FFFF_FFFF_FFFF

  /** A row of `users` without its id. */
  datatype Account = Account(username: string, email: string)

  /** The response of a successful webhook call: the new id and the
      submitted data. */
  datatype Saved = Saved(userId: int, dataSaved: Account)

  /** Some row holds `email` (`email TEXT NOT NULL UNIQUE`). */
  predicate EmailInUse(rows: map<int, Account>, email: string) {
    exists id | id in rows :: rows[id].email == email
  }

  class WebhookTable {
    var rows: map<int, Account>
    var lastId: int   // sqlite_sequence.seq for `users`

    /** Every id was handed out by AUTOINCREMENT and e-mails are unique. */
    ghost predicate Valid()
      reads this
    {
      0 <= lastId <= MaxRowId &&
      (forall id | id in rows :: 1 <= id <= lastId) &&
      (forall a, b | a in rows && b in rows && a != b :: rows[a].email != rows[b].email)
    }

    /** The table as create_db_and_tables leaves a new database. */
    constructor ()
      ensures Valid() && rows == map[] && lastId == 0
    {
      rows := map[];
      lastId := 0;
    }

    /** receive_user_webhook (POST /webhook/new-user). A new e-mail adds
        exactly one row and answers its id, larger than every id handed out
        before, with the submitted data unchanged. An e-mail already present
        is a conflict (the IntegrityError of the UNIQUE constraint) and
        changes nothing, the sequence included. Once the largest rowid has
        been used the insert fails with an error the handler does not
        catch: an internal error, also without change. */
    method ReceiveUserWebhook(username: string, email: string) returns (r: Result<Saved, ApiError>)
      requires Valid()
      modifies this
      ensures Valid()
      ensures r.Ok? <==> old(lastId) < MaxRowId && !EmailInUse(old(rows), email)
      ensures r.Ok? ==>
                r.value.userId == old(lastId) + 1 && r.value.userId !in old(rows) &&
                (forall id | id in old(rows) :: id < r.value.userId) &&
                rows == old(rows)[r.value.userId := Account(username, email)] &&
                |rows| == |old(rows)| + 1 &&
                lastId == r.value.userId &&
                r.value.dataSaved == Account(username, email)
      ensures r.Err? ==> rows == old(rows) && lastId == old(lastId)
      ensures r == Err(Conflict) <==> old(lastId) < MaxRowId && EmailInUse(old(rows), email)
      ensures r == Err(Internal) <==> old(lastId) == MaxRowId
    {
      if lastId == MaxRowId {
        r := Err(Internal);   // SQLITE_FULL: an OperationalError, not caught
        return;
      }
      var id := lastId + 1;
      if EmailInUse(rows, email) {
        r := Err(Conflict);   // the statement is rolled back, sqlite_sequence with it
        return;
      }
      rows := rows[id := Account(username, email)];
      lastId := id;
      r := Ok(Saved(id, Account(username, email)));   // cursor.lastrowid
    }
  }

  /** Two registrations with different e-mails then a repeat of the first, on
      a new database, as the contract alone determines them. */
  method WebhookSession() returns (first: Result<Saved, ApiError>, second: Result<Saved, ApiError>,
                                   repeat: Result<Saved, ApiError>)
    ensures first == Ok(Saved(1, Account("ana", "ana@example.com")))
    ensures second == Ok(Saved(2, Account("bia", "bia@example.com")))
    ensures repeat == Err(Conflict)
  {
    var table := new WebhookTable();
    first := table.ReceiveUserWebhook("ana", "ana@example.com");
    assert table.rows[1].email == "ana@example.com";
    assert !EmailInUse(table.rows, "bia@example.com") by {
      assert table.rows == map[1 := Account("ana", "ana@example.com")];
    }
    second := table.ReceiveUserWebhook("bia", "bia@example.com");
    assert table.rows[1].email == "ana@example.com";
    repeat := table.ReceiveUserWebhook("ana", "ana@example.com");
  }
}
