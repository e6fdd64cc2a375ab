/** The PostgreSQL variant of the service: the handlers of api_render.py
    driving the `users` table. The database is the state of one UserStore
    object: the table as a map from id to row, the `users_id_seq` sequence
    behind `id SERIAL`, and a logical clock for CURRENT_TIMESTAMP. */
module RenderApi {
  import opened Http
  import opened Users
  import opened Pagination

  /** The response of a successful create. */
  datatype Created = Created(userId: int, createdAt: nat, username: string, email: string)

  /** The response of list_users. */
  datatype Listing = Listing(users: seq<ListedUser>, pagination: PageInfo)

  /** The response of get_user_by_id: only the id and the username. */
  datatype Summary = Summary(id: int, username: string)

  /** The "user" object of update_user's response. */
  datatype UpdatedUser = UpdatedUser(id: int, username: string, email: string, status: string, updatedAt: nat)

  /** The "deleted_user" object of delete_user's response. */
  datatype DeletedUser = DeletedUser(id: int, username: string, email: string)

  /** What a statement can raise, as the handlers tell it apart: an
      IntegrityError whose text names a unique constraint, any other
      IntegrityError, and any other exception. */
  datatype DbError = UniqueViolation | OtherIntegrity | OtherFailure

  /** The except clauses of receive_user_webhook. */
  function CreateFailure(e: DbError): (k: ApiError)
    ensures k == Conflict <==> e == UniqueViolation
    ensures k == BadRequest <==> e == OtherIntegrity
    ensures k == Internal <==> e == OtherFailure
  {
    match e
    case UniqueViolation => Conflict
    case OtherIntegrity => BadRequest
    case OtherFailure => Internal
  }

  /** The except clauses of update_user: every IntegrityError is a conflict. */
  function UpdateFailure(e: DbError): (k: ApiError)
    ensures k == Conflict <==> e.UniqueViolation? || e.OtherIntegrity?
    ensures k == Internal <==> e.OtherFailure?
  {
    if e.OtherFailure? then Internal else Conflict
  }

  /** Every row matching `filter`, whatever its id. */
  ghost function AllMatching(rows: Table, filter: Option<string>): set<int> {
    set id | id in rows && Matches(rows[id], filter)
  }

  /** The loop over the query result of list_users: one listed entry per
      row, in the order of the result. */
  method ListRows(result: seq<Row>) returns (users: seq<ListedUser>)
    ensures |users| == |result|
    ensures forall k | 0 <= k < |result| :: users[k] == Listed(result[k])
  {
    users := [];
    var i := 0;
    while i < |result|
      invariant 0 <= i <= |result|
      invariant |users| == i
      invariant forall k | 0 <= k < i :: users[k] == Listed(result[k])
    {
      users := users + [Listed(result[i])];
      i := i + 1;
    }
  }

  class UserStore {
    var rows: Table
    var nextId: int   // the value nextval('users_id_seq') returns next
    var clock: nat    // the CURRENT_TIMESTAMP of the next statement

    /** The table invariant: ids were drawn from the sequence (positive, below
        its next value), timestamps lie in the past, e-mails are unique and
        rows were created in id order. */
    ghost predicate Valid()
      reads this
    {
      1 <= nextId <= MaxSerial + 1 &&
      (forall id | id in rows :: 1 <= id < nextId && rows[id].createdAt < clock && rows[id].updatedAt < clock) &&
      UniqueEmails(rows) && CreatedInIdOrder(rows)
    }

    /** An empty table with a fresh sequence. */
    constructor ()
      ensures Valid() && rows == map[] && nextId == 1
    {
      rows := map[];
      nextId := 1;
      clock := 0;
    }

    /** INSERT INTO users (username, email, user_data) ... RETURNING id,
        created_at. The id is drawn from the sequence before the row is
        checked, so a rejected row still uses up its id; an exhausted
        sequence fails before anything is drawn. */
    method Insert(username: string, email: string, doc: Document) returns (r: Result<(int, nat), DbError>)
      requires Valid()
      modifies this
      ensures Valid()
      ensures clock == old(clock) + 1
      ensures old(nextId) > MaxSerial ==> r == Err(OtherFailure) && rows == old(rows) && nextId == old(nextId)
      ensures old(nextId) <= MaxSerial ==> nextId == old(nextId) + 1
      ensures old(nextId) <= MaxSerial && EmailTaken(old(rows), email) ==>
                r == Err(UniqueViolation) && rows == old(rows)
      ensures old(nextId) <= MaxSerial && !EmailTaken(old(rows), email) ==>
                r == Ok((old(nextId), old(clock))) && old(nextId) !in old(rows) &&
                rows == old(rows)[old(nextId) := NewRow(username, email, doc, old(clock))]
    {
      var now := clock;
      clock := clock + 1;
      if nextId > MaxSerial {
        r := Err(OtherFailure);   // nextval: reached maximum value of sequence
        return;
      }
      var id := nextId;
      nextId := nextId + 1;
      if EmailTaken(rows, email) {
        r := Err(UniqueViolation);
        return;
      }
      rows := rows[id := NewRow(username, email, doc, now)];
      r := Ok((id, now));
    }

    /** receive_user_webhook (POST /new-user). A new e-mail adds exactly one
        row, with a fresh id larger than every id in the table, the given
        username and e-mail, status 'active' and the provenance document; an
        e-mail already present, even on a deleted row, is a conflict and
        leaves the table as it was. A username holding NUL is refused by the
        driver before the INSERT is sent: an internal error that draws no id.
        The e-mail has passed EmailStr validation, so it holds no NUL. */
    method ReceiveUserWebhook(username: string, email: string) returns (r: Result<Created, ApiError>)
      requires Valid() && !HoldsNul(email)
      modifies this
      ensures Valid()
      ensures r.Ok? <==> !HoldsNul(username) && old(nextId) <= MaxSerial && !EmailTaken(old(rows), email)
      ensures r.Ok? ==>
                var id := r.value.userId;
                id == old(nextId) && 1 <= id && id !in old(rows) && (forall k | k in old(rows) :: k < id) &&
                rows == old(rows)[id := NewRow(username, email, Provenance(old(clock)), old(clock))] &&
                |rows| == |old(rows)| + 1 &&
                r.value == Created(id, old(clock), username, email)
      ensures r.Err? ==> rows == old(rows)
      ensures r == Err(Conflict) <==>
                !HoldsNul(username) && old(nextId) <= MaxSerial && EmailTaken(old(rows), email)
      ensures r.Err? ==> r.error == Conflict || r.error == Internal
      ensures HoldsNul(username) ==> nextId == old(nextId) && clock == old(clock)
      ensures !HoldsNul(username) ==>
                nextId == (if old(nextId) <= MaxSerial then old(nextId) + 1 else old(nextId)) &&
                clock == old(clock) + 1
    {
      if HoldsNul(username) {
        r := Err(Internal);   // ValueError from the driver, caught by the last except
        return;
      }
      var additional := Provenance(clock);
      var inserted := Insert(username, email, additional);
      match inserted
      case Err(e) =>
        r := Err(CreateFailure(e));
      case Ok((id, createdAt)) =>
        r := Ok(Created(id, createdAt, username, email));
    }

    /** list_users (GET /users). The page holds at most `limit` rows, newest
        first, of those whose status equals a non-empty `status_filter` (all
        rows when it is absent or empty), starting at position `offset`;
        `total` counts every matching row. A limit or offset that is negative
        or beyond bigint is refused by PostgreSQL, a status filter holding NUL
        by the driver, and a zero limit divides by zero: all are internal
        errors. */
    method ListUsers(limit: int, offset: int, statusFilter: Option<string>) returns (r: Result<Listing, ApiError>)
      requires Valid()
      ensures r.Err? <==> !LimitAccepted(limit) || !LimitAccepted(offset) || limit == 0 || Refused(StatusFilter(statusFilter))
      ensures r.Err? ==> r.error == Internal
      ensures r.Ok? ==>
                var matching := Scan(rows, StatusFilter(statusFilter), nextId - 1);
                var page := Window(matching, limit, offset);
                |r.value.users| == |page| &&
                (forall i | 0 <= i < |page| :: r.value.users[i] == Listed(page[i])) &&
                Paginate(|matching|, limit, offset) == Ok(r.value.pagination)
      ensures r.Ok? ==> |r.value.users| <= limit
      ensures r.Ok? ==> r.value.pagination.total == |AllMatching(rows, StatusFilter(statusFilter))|
      ensures r.Ok? && StatusFilter(statusFilter).Some? ==>
                forall i | 0 <= i < |r.value.users| :: r.value.users[i].status == statusFilter.value
      ensures r.Ok? ==>
                forall i, j | 0 <= i < j < |r.value.users| :: r.value.users[i].createdAt > r.value.users[j].createdAt
      ensures r.Ok? ==> (r.value.pagination.hasMore <==> offset + |r.value.users| < r.value.pagination.total)
    {
      var filter := StatusFilter(statusFilter);
      if Refused(filter) {
        r := Err(Internal);   // the driver refuses the status_filter parameter
        return;
      }
      if !LimitAccepted(limit) || !LimitAccepted(offset) {
        r := Err(Internal);   // LIMIT / OFFSET negative or beyond bigint
        return;
      }
      var matching := Scan(rows, filter, nextId - 1);
      var result := Window(matching, limit, offset);
      var users := ListRows(result);
      var total := |matching|;   // SELECT COUNT(*) FROM users with the same filter
      match Paginate(total, limit, offset)
      case Err(e) =>
        r := Err(e);
      case Ok(p) =>
        r := Ok(Listing(users, p));
        ListingFacts(filter, limit, offset);
    }

    /** What the page and the count mean, for ListUsers. */
    lemma ListingFacts(filter: Option<string>, limit: nat, offset: nat)
      requires Valid() && limit > 0
      ensures var matching := Scan(rows, filter, nextId - 1);
              var page := Window(matching, limit, offset);
              |matching| == |AllMatching(rows, filter)| &&
              (forall i | 0 <= i < |page| :: Matches(page[i].user, filter)) &&
              NewestFirst(page) &&
              ((offset + limit < |matching|) <==> offset + |page| < |matching|)
    {
      var matching := Scan(rows, filter, nextId - 1);
      var page := Window(matching, limit, offset);
      ScanCount(rows, filter, nextId - 1);
      assert MatchingIds(rows, filter, nextId - 1) == AllMatching(rows, filter);
      ScanNewestFirst(rows, filter, nextId - 1);
      forall i | 0 <= i < |page| ensures Matches(page[i].user, filter) {
        ScanHoldsMatching(rows, filter, nextId - 1, page[i]);
      }
      forall i, j | 0 <= i < j < |page| ensures page[i].user.createdAt > page[j].user.createdAt {
        assert page[i] == matching[offset + i] && page[j] == matching[offset + j];
      }
      HasMoreIffRowsBeyondPage(matching, limit, offset);
    }

    /** get_user_by_id (GET /users/{id}): a present id, deleted or not,
        yields its id and username only; a missing id is not found. */
    method GetUserById(userId: int) returns (r: Result<Summary, ApiError>)
      ensures r.Ok? <==> userId in rows
      ensures r.Ok? ==> r.value == Summary(userId, rows[userId].username)
      ensures r.Err? ==> r.error == NotFound
    {
      if userId !in rows {
        r := Err(NotFound);
        return;
      }
      var row := rows[userId];
      r := Ok(Summary(userId, row.username));
    }

    /** UPDATE users SET <fields>, updated_at = CURRENT_TIMESTAMP WHERE id =
        :user_id RETURNING ...; the row is rejected when its new e-mail is
        another row's. */
    method UpdateRow(userId: int, fields: seq<Assignment>) returns (r: Result<User, DbError>)
      requires Valid() && userId in rows
      modifies this
      ensures Valid()
      ensures clock == old(clock) + 1 && nextId == old(nextId)
      ensures var u := ApplyAll(old(rows)[userId], fields, old(clock));
              if EmailTakenByOther(old(rows), u.email, userId) then r == Err(UniqueViolation) && rows == old(rows)
              else r == Ok(u) && rows == old(rows)[userId := u]
    {
      var now := clock;
      clock := clock + 1;
      var u := ApplyAll(rows[userId], fields, now);
      if EmailTakenByOther(rows, u.email, userId) {
        r := Err(UniqueViolation);
        return;
      }
      ApplyAllKeeps(rows[userId], fields, now);
      rows := rows[userId := u];
      r := Ok(u);
    }

    /** update_user (PUT /users/{id}). A missing id is not found, checked
        before anything else, so a missing id with no fields is 404; no
        fields is a bad request; an e-mail held by another row is a
        conflict. A supplied username or status holding NUL is refused by the
        driver before the UPDATE is sent: an internal error. A supplied e-mail
        has passed EmailStr validation, so it holds no NUL. Otherwise exactly the supplied
        fields change and `updated_at` is refreshed. Failures leave the table
        as it was. */
    method UpdateUser(userId: int, username: Option<string>, email: Option<string>, status: Option<string>)
      returns (r: Result<UpdatedUser, ApiError>)
      requires Valid() && !Refused(email)
      modifies this
      ensures Valid()
      ensures nextId == old(nextId) && rows.Keys == old(rows).Keys
      ensures userId !in old(rows) ==> r == Err(NotFound)
      ensures userId in old(rows) && username.None? && email.None? && status.None? ==> r == Err(BadRequest)
      ensures r == Err(Internal) <==>
                userId in old(rows) && (username.Some? || email.Some? || status.Some?) &&
                (Refused(username) || Refused(status))
      ensures userId in old(rows) && !(Refused(username) || Refused(status)) &&
              email.Some? && EmailTakenByOther(old(rows), email.value, userId) ==>
                r == Err(Conflict)
      ensures r.Ok? <==>
                userId in old(rows) && (username.Some? || email.Some? || status.Some?) &&
                !(Refused(username) || Refused(status)) &&
                !(email.Some? && EmailTakenByOther(old(rows), email.value, userId))
      ensures r.Err? ==> rows == old(rows)
      ensures r.Ok? ==>
                var u := Patched(old(rows)[userId], username, email, status, old(clock));
                rows == old(rows)[userId := u] &&
                r.value == UpdatedUser(userId, u.username, u.email, u.status, u.updatedAt)
    {
      var count := if userId in rows then 1 else 0;   // SELECT COUNT(*) ... WHERE id = :user_id
      if count == 0 {
        r := Err(NotFound);
        return;
      }
      var fields: seq<Assignment> := [];
      if username.Some? {
        fields := fields + [SetUsername(username.value)];
      }
      if email.Some? {
        fields := fields + [SetEmail(email.value)];
      }
      if status.Some? {
        fields := fields + [SetStatus(status.value)];
      }
      assert fields == Assemble(username, email, status);
      if fields == [] {
        r := Err(BadRequest);
        return;
      }
      if Refused(username) || Refused(status) {
        r := Err(Internal);   // ValueError from the driver, caught by the last except
        return;
      }
      ApplyAssembled(rows[userId], username, email, status, clock);
      var updated := UpdateRow(userId, fields);
      match updated
      case Err(e) =>
        r := Err(UpdateFailure(e));
      case Ok(u) =>
        r := Ok(UpdatedUser(userId, u.username, u.email, u.status, u.updatedAt));
    }

    /** delete_user (DELETE /users/{id}). A row not yet deleted gets status
        'deleted' and a fresh `updated_at`, keeps everything else and stays
        in the table; the response carries its id, username and e-mail. A
        missing or already deleted id is not found and changes nothing. */
    method DeleteUser(userId: int) returns (r: Result<DeletedUser, ApiError>)
      requires Valid()
      modifies this
      ensures Valid()
      ensures nextId == old(nextId) && rows.Keys == old(rows).Keys
      ensures r.Ok? <==> Deletable(old(rows), userId)
      ensures r.Ok? ==>
                rows == old(rows)[userId := SoftDeleted(old(rows)[userId], old(clock))] &&
                r.value == DeletedUser(userId, old(rows)[userId].username, old(rows)[userId].email)
      ensures r.Err? ==> r.error == NotFound && rows == old(rows)
    {
      var now := clock;
      clock := clock + 1;
      if !Deletable(rows, userId) {
        r := Err(NotFound);
        return;
      }
      var u := rows[userId];
      rows := rows[userId := SoftDeleted(u, now)];
      r := Ok(DeletedUser(userId, u.username, u.email));
    }
  }

  /** A register, duplicate, register, fetch, delete, delete-again session on
      a fresh table, as its contracts alone determine it. The duplicate uses
      up id 2, so the second registration gets id 3. */
  method RegistrationSession() returns (first: Result<Created, ApiError>, second: Result<Created, ApiError>,
                                        third: Result<Created, ApiError>, fetched: Result<Summary, ApiError>,
                                        deleted: Result<DeletedUser, ApiError>, again: Result<DeletedUser, ApiError>)
    ensures first.Ok? && first.value.userId == 1
    ensures second == Err(Conflict) && StatusCode(second.error) == 409
    ensures third.Ok? && third.value.userId == 3
    ensures fetched == Ok(Summary(first.value.userId, "ana"))
    ensures deleted == Ok(DeletedUser(first.value.userId, "ana", "ana@example.com"))
    ensures again == Err(NotFound) && StatusCode(again.error) == 404
  {
    var store := new UserStore();
    assert !EmailTaken(store.rows, "ana@example.com");
    first := store.ReceiveUserWebhook("ana", "ana@example.com");
    var id := first.value.userId;
    assert store.rows[id].email == "ana@example.com";
    assert EmailTaken(store.rows, "ana@example.com");
    second := store.ReceiveUserWebhook("ana", "ana@example.com");
    assert !EmailTaken(store.rows, "bia@example.com") by {
      assert store.rows.Keys == {id};
    }
    third := store.ReceiveUserWebhook("bia", "bia@example.com");
    assert store.rows[id].username == "ana";
    fetched := store.GetUserById(id);
    assert Deletable(store.rows, id);
    deleted := store.DeleteUser(id);
    assert !Deletable(store.rows, id);
    again := store.DeleteUser(id);
  }
}
