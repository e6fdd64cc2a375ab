# A verified model of a user-registration webhook service

The service keeps one table of users and exposes HTTP handlers over it, in two
variants. The PostgreSQL variant (api_render.py) creates, lists, fetches,
partially updates and soft-deletes users. The SQLite variant (main.py) only
registers them. This project models the behaviour of the `users` table as the
handlers drive it, and proves what the handlers promise about it.

The database is an in-memory object:

- `RenderApi.UserStore` holds the PostgreSQL table as `map<int, User>`. It also
  holds the next value of the sequence behind `id SERIAL` and a logical clock
  that stands in for `CURRENT_TIMESTAMP`.
- `SqliteApi.WebhookTable` holds the SQLite table as `map<int, Account>`. It
  also holds the `sqlite_sequence` value that `AUTOINCREMENT` keeps.

Each handler is a method that returns either its response or an error kind:
`Conflict` (409), `BadRequest` (400), `NotFound` (404) or `Internal` (500).
The SQL the handlers issue is modelled by its declared meaning:

- the `UNIQUE` e-mail, which also holds for soft-deleted rows;
- ids drawn from `SERIAL` / `AUTOINCREMENT`;
- the default status `'active'`;
- `ORDER BY created_at DESC` with `LIMIT`/`OFFSET`, and `COUNT(*)` with the same filter;
- the partial `UPDATE`, and the guarded soft delete `WHERE id = :user_id AND status != 'deleted'`.

Modules:

- `Http` (http.dfy): `Option`, `Result`, the error kinds and their status codes.
- `DatabaseUrl` (database_url.dfy): `get_database_url`. The environment is a parameter.
- `Pagination` (pagination.dfy): the `LIMIT`/`OFFSET` window and the pagination block.
- `Users` (users.dfy): the row type and the meaning of each statement on the table, with lemmas.
- `RenderApi` (render_api.dfy): the handlers of api_render.py, as methods of `UserStore`.
- `SqliteApi` (sqlite_api.dfy): the webhook of main.py, as a method of `WebhookTable`.

Behaviour of the SQL and of the driver that the model makes explicit:

- PostgreSQL draws the `SERIAL` id before it checks the row. A create rejected
  as a duplicate therefore still uses up an id. The sequence is a 4-byte
  integer: once it is exhausted, a create is an internal error.
- SQLite rolls back a rejected insert, `sqlite_sequence` included. Past the
  largest rowid, `AUTOINCREMENT` fails with an error the handler does not
  catch, which is an internal error.
- PostgreSQL refuses a negative `LIMIT` or `OFFSET`, and one beyond the
  bigint range fails its conversion to bigint. A zero `limit` makes
  `(total + limit - 1) // limit` divide by zero. `list_users` reports all of
  these as internal errors. The defaults `limit=10, offset=0` belong to the
  HTTP layer; the model takes both values as arguments.
- psycopg2 refuses to send a string parameter that holds a NUL character. It
  raises a ValueError before the statement reaches the server. A username
  holding NUL therefore makes a create an internal error that draws no id. A
  supplied username or status, or a status filter, holding NUL makes the
  update or the listing an internal error. An e-mail never reaches the
  driver with a NUL: `EmailStr` validation refuses it first.
- `get_user_by_id` and `update_user` do not look at `status`. A soft-deleted row
  can be fetched, and it can be updated, even back to `'active'`.
- `POSTGRES_PORT` falls back to `"5432"` only when it is unset. When it is set
  to `""`, the URL gets an empty port, because the completeness check does not
  look at the port.

Two behaviours of the code worth noting:

- A create that breaks an integrity rule other than the unique e-mail is a 400,
  not an internal error. No such rule can fail in the modelled schema, so
  `CreateFailure` maps that case but no model state reaches it.
- `get_user_by_id` answers only the id and the username.

## Model

| member | source | states |
|---|---|---|
| `Http.StatusCode` | api_render.py:180-195 | each error kind's status code; only Internal is a server error (5xx) |
| `DatabaseUrl.GetDatabaseUrl` | api_render.py:17-36 | a non-empty DATABASE_URL is returned verbatim; otherwise the result is a URL exactly when host, database, user and password are all set and non-empty |
| `DatabaseUrl.SplitFormatUrl` | api_render.py:36 | the URL format is readable back into user, password, host, port and database (user without ':', host without ':' or '@', port without '/' or '@', database without '@') |
| `DatabaseUrl.DerivedUrlCarriesSettings` | api_render.py:27-36 | an assembled URL carries exactly the environment's user, password, host and database, and its port, or "5432" when POSTGRES_PORT is unset |
| `Pagination.FloorDiv` | api_render.py:266 | Python's `//`: the floor of a / b, for either sign of b |
| `Pagination.Paginate` | api_render.py:259-268 | a zero limit is an internal error; otherwise total, limit and offset are echoed, has_more iff offset + limit < total, and pages * limit covers total while one page fewer does not |
| `Pagination.PagesIsCeiling` | api_render.py:266 | for limit > 0, pages is the ceiling of total / limit: 0 exactly when total is 0, exact when limit divides total |
| `Pagination.Window` | api_render.py:233-234 | LIMIT/OFFSET: at most limit rows, the rows from position offset on, none past the end |
| `Pagination.HasMoreIffRowsBeyondPage` | api_render.py:265 | has_more holds exactly when matching rows remain beyond offset plus the returned page |
| `Users.Provenance` | api_render.py:151-156 | the stored document has exactly the keys created_via="webhook", source="api", ip_address="unknown" and the creation timestamp |
| `Users.NewRow` | api_render.py:160-162 | definition of the INSERT's row: the given username, e-mail and document, the default status 'active', and created_at = updated_at = the statement's time |
| `Users.StatusFilter` | api_render.py:219-224 | a status filter applies exactly when status_filter is present and non-empty |
| `Users.Scan` | api_render.py:227-235 | every row the query returns is a stored row, under its own id, with its stored values, and matches the filter |
| `Users.ScanHoldsMatching` | api_render.py:227-235 | the query result holds exactly the stored rows that match the filter, each with its stored values |
| `Users.ScanIdsDescending` | api_render.py:227-235 | the query result lists no row twice |
| `Users.ScanNewestFirst` | api_render.py:233 | the query result is ordered strictly newest first by created_at |
| `Users.ScanCount` | api_render.py:253-257 | COUNT(*) with the same filter equals the number of matching rows, the query result's length |
| `Users.NormaliseDocument` | api_render.py:242 | a stored document is read back unchanged; a NULL column becomes the empty document |
| `Users.Listed` | api_render.py:243-251 | definition of a listed entry: it echoes the row's id, username, e-mail, status and both timestamps, with the stored document or the empty one for NULL |
| `RenderApi.ListRows` | api_render.py:239-251 | the loop gives one listed entry per result row, in the result's order |
| `Users.ListedNewRow` | api_render.py:239-251 | listing a created row gives back its id, username, e-mail, status 'active' and the stored document unchanged |
| `Users.Assemble` | api_render.py:347-367 | the SET list is empty exactly when no field is supplied; at most three items |
| `Users.ApplyAll` | api_render.py:369-380 | a column that no item of the SET list names keeps its value (username, e-mail, status) |
| `Users.ApplyAllKeeps` | api_render.py:369-380 | an UPDATE keeps user_data and created_at and sets updated_at to the statement's time |
| `Users.ApplyAssembled` | api_render.py:347-380 | the assembled UPDATE replaces exactly the supplied fields, keeps the others, and refreshes updated_at |
| `Users.Deletable` | api_render.py:418-423 | definition of the soft delete's WHERE clause: it selects exactly a present row whose status is not 'deleted' |
| `Users.SoftDeleted` | api_render.py:418-423 | definition of the soft delete's row: status 'deleted' and updated_at to the statement's time, and keeps username, e-mail, user_data and created_at |
| `Users.SoftDeleteOnce` | api_render.py:418-423 | a soft delete keeps the row and every field but status and updated_at; afterwards the same id is no longer deletable |
| `RenderApi.CreateFailure` | api_render.py:180-195 | a unique violation is 409, any other integrity error 400, anything else 500 |
| `RenderApi.UpdateFailure` | api_render.py:395-406 | any integrity error is 409, anything else 500 |
| `RenderApi.UserStore.constructor` | api_render.py:59-68 | an empty table whose sequence starts at 1 |
| `RenderApi.UserStore.Insert` | api_render.py:159-176 | the INSERT draws the next id before checking; a duplicate e-mail is a unique violation with the table unchanged; otherwise exactly one row with status 'active' and created_at = updated_at = now |
| `RenderApi.UserStore.ReceiveUserWebhook` | api_render.py:141-205 | for an e-mail that passed validation (no NUL), succeeds iff the username holds no NUL, the e-mail is in no row (deleted rows included) and ids remain; adds exactly one row under the next sequence value, a fresh id larger than every existing one (never an id a rejected create used up) and echoes username and e-mail; a duplicate is 409 with the table unchanged; a NUL in the username is 500 and draws no id |
| `RenderApi.UserStore.ListUsers` | api_render.py:209-274 | at most limit rows, newest first, each matching a non-empty filter; total counts every matching row; has_more iff rows remain beyond the page; it is 500 exactly when limit or offset is negative or beyond bigint, limit is 0, or a non-empty status filter holds NUL; the table is not changed |
| `RenderApi.UserStore.ListingFacts` | api_render.py:219-266 | the page's rows match the filter and are newest first; the count equals the set of matching rows; has_more relates to the page |
| `RenderApi.UserStore.GetUserById` | api_render.py:276-325 | a missing id is 404; a present id, deleted or not, yields only its id and username; the table is not changed |
| `RenderApi.UserStore.UpdateRow` | api_render.py:369-381 | the UPDATE applies the SET list to the one row, unless its new e-mail is another row's (unique violation, nothing changes) |
| `RenderApi.UserStore.UpdateUser` | api_render.py:329-406 | a missing id is 404 before the empty-fields check (400); then a supplied username or status holding NUL is 500 (a supplied e-mail is validated, so it holds no NUL); an e-mail held by another row is 409; failures change nothing; success changes exactly the supplied fields and updated_at of that row only |
| `RenderApi.UserStore.DeleteUser` | api_render.py:408-451 | succeeds iff the row exists and is not deleted; sets status 'deleted' and refreshes updated_at, keeping every other field and row; returns id, username, e-mail; otherwise 404 with no change |
| `RenderApi.RegistrationSession` | api_render.py:141-451 | create gives id 1, a repeated create 409, a create with a new e-mail id 3 (the 409 used up id 2), fetch the id and username, delete the identity, and a second delete 404 (status codes through `Http.StatusCode`) |
| `SqliteApi.WebhookTable.constructor` | main.py:17-23 | an empty table with no id handed out yet |
| `SqliteApi.WebhookTable.ReceiveUserWebhook` | main.py:63-94 | a new e-mail adds exactly one row under an id larger than every id handed out before and echoes the submitted data; a duplicate e-mail is 409 and changes nothing; an exhausted AUTOINCREMENT is 500 |
| `SqliteApi.WebhookSession` | main.py:73-94 | consecutive registrations get ids 1 and 2; repeating an e-mail is 409 |

## Left out

- Engine, pool and connection handling (`get_database_engine`, `engine.connect`, `commit`, `sqlite3.connect`/`close`): this is driver I/O. The database is the in-memory object.
- `health_check`, `read_root`, `lifespan` and the index creation in `create_db_and_tables`: these are connectivity probes and startup code with no table semantics. test_render.py and test_env.py only probe a live database and print settings.
- SQL text assembly (api_render.py:227, 254, 373): the model gives the statements' meaning, not their strings.
- Matching the driver's error text against "unique constraint": the model uses the abstract kinds `UniqueViolation` and `OtherIntegrity`.
- `EmailStr` validation and normalisation belong to a library that is not part of this model. E-mails are opaque strings, assumed valid.
- `RenderApi.UserStore.ReceiveUserWebhook` and `RenderApi.UserStore.UpdateUser`: require that the (supplied) e-mail holds no NUL. `EmailStr` validation refuses such an e-mail with 422 before the handler runs, and that validation is not part of this model.
- JSON: `json.dumps` of the document and the `json.loads` branch of the `user_data` read-back are left out. The document is a map, and the driver hands back JSONB already decoded. `NormaliseDocument` states the NULL branch (the empty document), but the handlers never store NULL, because every create writes the provenance document. No reachable state takes that branch.
- `datetime.now().isoformat()` and `CURRENT_TIMESTAMP`: in the source these are two clocks. The first is Python's local time, taken before the INSERT. The second is PostgreSQL's timestamp with time zone. The model takes both from one logical clock tick per statement. The document's timestamp therefore equals `created_at` in the model only, not in the source.
- `VARCHAR(100)`, `VARCHAR(255)` and `VARCHAR(20)` length limits: strings are unbounded. An over-long value would be an internal error in the source.
- The race between the list query and the count query, and between the existence check and the UPDATE in `update_user`: these are concurrency, which is not modelled.
- Message strings and `detail` texts: only status codes and error kinds are kept.
- The SQLite variant leaves its connection open when the insert fails with an uncaught error. Connections are not modelled.
- `RenderApi.UserStore.UpdateRow`: requires the id to be present, because `update_user` only issues it after the existence check. On a missing row the source would fail on `row[0]`.
