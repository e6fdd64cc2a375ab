/** The `users` table of the PostgreSQL variant (created by
    `create_db_and_tables`) and the meaning of the SQL statements the
    handlers issue against it, stated on the table as a map from id to row. */
module Users {
  import opened Http

  /** `id SERIAL`: the sequence behind it is a 4-byte integer. */
  const MaxSerial := 0x7FFF_FFFF

  const Active := "active"     // `status VARCHAR(20) DEFAULT 'active'`
  const Deleted := "deleted"   // the status a soft delete writes

  /** A value of the `user_data` document. Timestamps are logical clock ticks. */
  datatype DocValue = Text(text: string) | Moment(tick: nat)
  type Document = map<string, DocValue>

  /** A row of `users` without its id. `user_data` is a nullable JSONB
      column; `created_at` and `updated_at` are ticks of a logical clock
      standing in for CURRENT_TIMESTAMP. */
  datatype User = User(username: string, email: string, status: string,
                       userData: Option<Document>, createdAt: nat, updatedAt: nat)

  /** A row as a query returns it, id included. */
  datatype Row = Row(id: int, user: User)

  type Table = map<int, User>

  /** The provenance document the create handler stores in `user_data`. */
  function Provenance(now: nat): (d: Document)
    ensures d.Keys == {"created_via", "source", "timestamp", "ip_address"}
    ensures d["created_via"] == Text("webhook") && d["source"] == Text("api")
    ensures d["ip_address"] == Text("unknown") && d["timestamp"] == Moment(now)
  {
    map["created_via" := Text("webhook"), "source" := Text("api"),
        "timestamp" := Moment(now), "ip_address" := Text("unknown")]
  }

  /** The row an INSERT of (username, email, user_data) creates: the columns
      not supplied take their defaults. */
  function NewRow(username: string, email: string, doc: Document, now: nat): (u: User)
    ensures u.username == username && u.email == email && u.userData == Some(doc)
    ensures u.status == Active && u.createdAt == now && u.updatedAt == now
  {
    User(username, email, Active, Some(doc), now, now)
  }

  /** psycopg2 refuses to quote a string that holds a NUL character (a
      ValueError), so a statement with such a parameter never reaches the
      server. */
  predicate HoldsNul(s: string) {
    '\0' in s
  }

  /** A supplied parameter the driver refuses. */
  predicate Refused(v: Option<string>) {
    v.Some? && HoldsNul(v.value)
  }

  /** Some row holds `email` (`email ... UNIQUE`), deleted rows included. */
  predicate EmailTaken(rows: Table, email: string) {
    exists id | id in rows :: rows[id].email == email
  }

  /** Some row other than `self` holds `email`. */
  predicate EmailTakenByOther(rows: Table, email: string, self: int) {
    exists id | id in rows && id != self :: rows[id].email == email
  }

  /** The UNIQUE constraint on `email`. */
  ghost predicate UniqueEmails(rows: Table) {
    forall a, b | a in rows && b in rows && a != b :: rows[a].email != rows[b].email
  }

  /** Rows were created in id order: a larger id has a later `created_at`. */
  ghost predicate CreatedInIdOrder(rows: Table) {
    forall a, b | a in rows && b in rows && a < b :: rows[a].createdAt < rows[b].createdAt
  }

  // ---------------------------------------------------------------------
  // SELECT ... [WHERE status = :status_filter] ORDER BY created_at DESC

  /** The filter `list_users` applies: a falsy `status_filter` (absent or
      empty) means no WHERE clause. */
  function StatusFilter(statusFilter: Option<string>): (f: Option<string>)
    ensures f.Some? <==> statusFilter.Some? && statusFilter.value != ""
    ensures f.Some? ==> f == statusFilter
  {
    if statusFilter.Some? && statusFilter.value != "" then statusFilter else None
  }

  predicate Matches(u: User, filter: Option<string>) {
    filter.None? || u.status == filter.value
  }

  /** The matching rows with ids 1..n, largest id first. Every row it
      lists is stored under its id, lies in 1..n and matches the filter. */
  function Scan(rows: Table, filter: Option<string>, n: int): (s: seq<Row>)
    ensures forall i | 0 <= i < |s| ::
              1 <= s[i].id <= n && s[i].id in rows && rows[s[i].id] == s[i].user && Matches(s[i].user, filter)
    decreases n
  {
    if n <= 0 then []
    else if n in rows && Matches(rows[n], filter) then [Row(n, rows[n])] + Scan(rows, filter, n - 1)
    else Scan(rows, filter, n - 1)
  }

  /** The ids of the matching rows among 1..n. */
  ghost function MatchingIds(rows: Table, filter: Option<string>, n: int): set<int> {
    set id | id in rows && 1 <= id <= n && Matches(rows[id], filter)
  }

  /** The scan holds exactly the matching rows with ids 1..n, each as stored. */
  lemma {:induction false} ScanHoldsMatching(rows: Table, filter: Option<string>, n: int, r: Row)
    ensures r in Scan(rows, filter, n) <==>
            1 <= r.id <= n && r.id in rows && rows[r.id] == r.user && Matches(r.user, filter)
    decreases n
  {
    if n > 0 {
      ScanHoldsMatching(rows, filter, n - 1, r);
    }
  }

  /** Ids strictly descending, hence no row listed twice. */
  ghost predicate IdsDescending(s: seq<Row>) {
    forall i, j | 0 <= i < j < |s| :: s[i].id > s[j].id
  }

  /** Strictly newest first by `created_at`. */
  ghost predicate NewestFirst(s: seq<Row>) {
    forall i, j | 0 <= i < j < |s| :: s[i].user.createdAt > s[j].user.createdAt
  }

  /** The scan lists ids strictly descending. */
  lemma {:induction false} ScanIdsDescending(rows: Table, filter: Option<string>, n: int)
    ensures IdsDescending(Scan(rows, filter, n))
    decreases n
  {
    if n > 0 {
      ScanIdsDescending(rows, filter, n - 1);
      var rest := Scan(rows, filter, n - 1);
      assert IdsDescending(rest);
      forall k | 0 <= k < |rest| ensures rest[k].id < n {
        ScanHoldsMatching(rows, filter, n - 1, rest[k]);
      }
      if n in rows && Matches(rows[n], filter) {
        var s := Scan(rows, filter, n);
        assert s == [Row(n, rows[n])] + rest;
        forall i, j | 0 <= i < j < |s| ensures s[i].id > s[j].id {
          assert s[j] == rest[j - 1] && rest[j - 1].id < n;
          if i > 0 { assert s[i] == rest[i - 1]; }
        }
      }
    }
  }

  /** Rows listed in a scan are newest first: this is the order that
      ORDER BY created_at DESC asks for, and with distinct creation times it
      is the only one. */
  lemma ScanNewestFirst(rows: Table, filter: Option<string>, n: int)
    requires CreatedInIdOrder(rows)
    ensures NewestFirst(Scan(rows, filter, n))
  {
    var s := Scan(rows, filter, n);
    ScanIdsDescending(rows, filter, n);
    forall i, j | 0 <= i < j < |s| ensures s[i].user.createdAt > s[j].user.createdAt {
      ScanHoldsMatching(rows, filter, n, s[i]);
      ScanHoldsMatching(rows, filter, n, s[j]);
    }
  }

  /** SELECT COUNT(*) with the same filter counts every matching row: the
      number of rows a scan lists. */
  lemma {:induction false} ScanCount(rows: Table, filter: Option<string>, n: int)
    ensures |Scan(rows, filter, n)| == |MatchingIds(rows, filter, n)|
    decreases n
  {
    if n <= 0 {
      assert MatchingIds(rows, filter, n) == {};
    } else {
      ScanCount(rows, filter, n - 1);
      if n in rows && Matches(rows[n], filter) {
        assert MatchingIds(rows, filter, n) == MatchingIds(rows, filter, n - 1) + {n};
      } else {
        assert MatchingIds(rows, filter, n) == MatchingIds(rows, filter, n - 1);
      }
    }
  }

  // ---------------------------------------------------------------------
  // The listed form of a row

  /** An entry of the "users" list of the listing response. */
  datatype ListedUser = ListedUser(id: int, username: string, email: string, additionalData: Document,
                                   status: string, createdAt: nat, updatedAt: nat)

  /** The `user_data` read back: a decoded document is taken as it is, a
      NULL column (falsy) becomes the empty document. */
  function NormaliseDocument(column: Option<Document>): (d: Document)
    ensures column.Some? ==> d == column.value
    ensures column.None? ==> d.Keys == {}
  {
    match column
    case Some(d) => d
    case None => map[]
  }

  /** The listed entry of a row: every column echoed, the document read
      back through NormaliseDocument. */
  function Listed(r: Row): (e: ListedUser)
    ensures e.id == r.id && e.username == r.user.username && e.email == r.user.email && e.status == r.user.status
    ensures e.createdAt == r.user.createdAt && e.updatedAt == r.user.updatedAt
    ensures r.user.userData.Some? ==> e.additionalData == r.user.userData.value
    ensures r.user.userData.None? ==> e.additionalData == map[]
  {
    ListedUser(r.id, r.user.username, r.user.email, NormaliseDocument(r.user.userData),
               r.user.status, r.user.createdAt, r.user.updatedAt)
  }

  /** Creating and listing round-trip the provenance document: the listed
      entry of a freshly inserted row carries the stored document unchanged,
      with the row's id, username, email and the default status. */
  lemma ListedNewRow(id: int, username: string, email: string, now: nat)
    ensures var e := Listed(Row(id, NewRow(username, email, Provenance(now), now)));
            e.additionalData == Provenance(now) && e.status == Active &&
            e.id == id && e.username == username && e.email == email && e.createdAt == now
  {}

  // ---------------------------------------------------------------------
  // UPDATE users SET <supplied fields>, updated_at = CURRENT_TIMESTAMP

  /** One `column = :value` item of the SET list. */
  datatype Assignment = SetUsername(username: string) | SetEmail(email: string) | SetStatus(status: string)

  /** The SET items for the supplied fields, in the order update_user appends
      them: username, then email, then status. */
  function Assemble(username: Option<string>, email: Option<string>, status: Option<string>): (fields: seq<Assignment>)
    ensures fields == [] <==> username.None? && email.None? && status.None?
    ensures |fields| <= 3
  {
    (if username.Some? then [SetUsername(username.value)] else []) +
    (if email.Some? then [SetEmail(email.value)] else []) +
    (if status.Some? then [SetStatus(status.value)] else [])
  }

  /** The effect of one SET item. */
  function Assign(u: User, a: Assignment): User {
    match a
    case SetUsername(v) => u.(username := v)
    case SetEmail(v) => u.(email := v)
    case SetStatus(v) => u.(status := v)
  }

  /** The row after the SET list, with `updated_at` refreshed. A column that
      no item of the list names keeps its value. */
  function ApplyAll(u: User, fields: seq<Assignment>, now: nat): (v: User)
    ensures (forall i | 0 <= i < |fields| :: !fields[i].SetUsername?) ==> v.username == u.username
    ensures (forall i | 0 <= i < |fields| :: !fields[i].SetEmail?) ==> v.email == u.email
    ensures (forall i | 0 <= i < |fields| :: !fields[i].SetStatus?) ==> v.status == u.status
    decreases |fields|
  {
    if fields == [] then u.(updatedAt := now)
    else ApplyAll(Assign(u, fields[0]), fields[1..], now)
  }

  /** The SET list never touches the id, the document or `created_at`, and
      always leaves `updated_at` at the statement's timestamp. */
  lemma {:induction false} ApplyAllKeeps(u: User, fields: seq<Assignment>, now: nat)
    ensures var v := ApplyAll(u, fields, now);
            v.userData == u.userData && v.createdAt == u.createdAt && v.updatedAt == now
    decreases |fields|
  {
    if fields != [] {
      ApplyAllKeeps(Assign(u, fields[0]), fields[1..], now);
    }
  }

  /** A partial update described field by field: a supplied field replaces
      the column, an absent one keeps it, `updated_at` is refreshed and
      nothing else changes. */
  function Patched(u: User, username: Option<string>, email: Option<string>, status: Option<string>, now: nat): User {
    User(username.GetOr(u.username), email.GetOr(u.email), status.GetOr(u.status),
         u.userData, u.createdAt, now)
  }

  /** Running the SET list that update_user assembles changes exactly the
      supplied fields and refreshes `updated_at`, nothing else. */
  lemma {:induction false} ApplyAssembled(u: User, username: Option<string>, email: Option<string>,
                                          status: Option<string>, now: nat)
    ensures ApplyAll(u, Assemble(username, email, status), now) == Patched(u, username, email, status, now)
  {
    var fields := Assemble(username, email, status);
    var u1 := if username.Some? then u.(username := username.value) else u;
    var u2 := if email.Some? then u1.(email := email.value) else u1;
    var tail1 := Assemble(None, email, status);
    var tail2 := Assemble(None, None, status);
    assert fields == (if username.Some? then [SetUsername(username.value)] else []) + tail1;
    assert tail1 == (if email.Some? then [SetEmail(email.value)] else []) + tail2;
    ApplyTail(u, fields, tail1, now);
    ApplyTail(u1, tail1, tail2, now);
    if status.Some? {
      assert tail2 == [SetStatus(status.value)];
      assert tail2[1..] == [];
    }
  }

  /** Helper: applying a list whose first item is optional. */
  lemma ApplyTail(u: User, fields: seq<Assignment>, tail: seq<Assignment>, now: nat)
    requires fields == tail || (|fields| == |tail| + 1 && fields[1..] == tail)
    ensures fields != tail ==> ApplyAll(u, fields, now) == ApplyAll(Assign(u, fields[0]), tail, now)
  {}

  // ---------------------------------------------------------------------
  // UPDATE users SET status = 'deleted', updated_at = CURRENT_TIMESTAMP
  //   WHERE id = :user_id AND status != 'deleted'

  /** The rows the soft-delete's WHERE clause selects. */
  predicate Deletable(rows: Table, id: int): (b: bool)
    ensures b <==> id in rows && !Matches(rows[id], Some(Deleted))
  {
    id in rows && rows[id].status != Deleted
  }

  /** The row after the soft delete: status 'deleted' and a fresh
      `updated_at`, every other column kept. */
  function SoftDeleted(u: User, now: nat): (v: User)
    ensures v.status == Deleted && v.updatedAt == now
    ensures v.username == u.username && v.email == u.email && v.userData == u.userData && v.createdAt == u.createdAt
  {
    u.(status := Deleted, updatedAt := now)
  }

  /** A soft delete keeps the row and flips only the status; after it the
      same id is no longer selected, so deleting twice fails the second time. */
  lemma SoftDeleteOnce(rows: Table, id: int, now: nat)
    requires Deletable(rows, id)
    ensures var after := rows[id := SoftDeleted(rows[id], now)];
            after.Keys == rows.Keys && !Deletable(after, id) &&
            after[id].username == rows[id].username && after[id].email == rows[id].email &&
            after[id].userData == rows[id].userData && after[id].createdAt == rows[id].createdAt
  {}
}
