# GRANT execution engine — Dafny model

This project models the engine that executes an already-parsed `GRANT`
statement. The statement follows the MySQL 5.7 GRANT statement, and the
engine turns it into changes to the privilege catalog. The statement holds:

- a list of privileges;
- one scope: Global (`*.*`), database (`db.*`) or table;
- a list of `name@host` principals.

The catalog is modelled as two immutable maps:

- the user table, `(host, user) -> set of columns holding 'Y'`;
- the db table, `(host, user, db) -> set of columns holding 'Y'`.

Every engine function is a pure function from a catalog to a new catalog or
an error. The engine processes the principals in order. For each principal it:

1. checks that the principal has a user-table row;
2. at database scope only, resolves the target schema and inserts an
   all-'N' db row if the principal has none;
3. applies each privilege as an UPDATE. The UPDATE sets the privilege's
   columns to 'Y' in the rows its WHERE filter selects.

An error stops the statement. The updates made before the error stay:
`ExecResult.Aborted` carries the catalog as it was when the error happened.

`Grant.Touches` states the frame of a run: rows of principals the run does
not name keep their value, and every row gains only the columns the
privileges map to. A db row that did not exist counts as empty.
`Grant.DBFrame` narrows this for the db table. Only the listed principals'
rows on the target schema can change, because the UPDATE also filters on
`DB = db`.

Some inputs are parameters of the model:

- The privilege-to-column map, the database `ALL` list and the code of `ALL`
  (`GrantTypes.PrivTables`). Their contents are not part of this model.
- The session's current schema and the set of existing schemas
  (`GrantTypes.Session`).

Modules:

- `GrantTypes` (grant_types.dfy): the statement, the session, the errors and `Result`.
- `Principal` (principal.dfy): splitting `name@host` on '@'.
- `PrivCatalog` (catalog.dfy): the catalog, WHERE filters, the UPDATE and
  INSERT on it, and the db-row existence scan.
- `PrivColumns` (priv_columns.dfy): from a privilege to the columns it sets.
- `Grant` (grant.dfy): target-schema resolution, scope dispatch, and the
  loops over privileges and principals.
- `GrantProperties` (grant_properties.dfy): lemmas that relate several steps
  or runs. These cover composition, error exits, scope frames, single
  grants and idempotence.

Behaviour of the code worth knowing (line numbers refer to
`stmt/stmts/grant.go`):

- Database scope looks privileges up in the same map as global scope
  (`Priv2UserCol`, lines 202 and 214). There is no separate database-scope
  map, so a privilege that exists only at global scope is accepted at
  database scope.
- An unknown grant level is reported by the per-privilege dispatch (lines
  152-153). A statement with an unknown level and no privileges therefore
  finishes without error once every principal exists.
- Database scope resolves the target schema twice: once before the row
  check (line 110) and once per privilege (line 284). Both resolutions read
  the same session, so they agree.
- When database `ALL` meets an unmapped entry, the error names the `ALL`
  privilege rather than the unmapped entry (line 204).
- At database scope an unknown privilege fails after the empty db row was
  inserted, and that row stays (`GrantProperties.DBSinglePriv`).

## Model

| member | source | states |
|---|---|---|
| Principal.SplitUser | stmt/stmts/grant.go:81-83 | The name is the text before the first '@' and the host is the text up to the next '@' or the end; neither part contains '@' |
| Principal.SplitJoin | stmt/stmts/grant.go:81-83 | Splitting `name@host` gives back `name` and `host` when neither contains '@' |
| PrivCatalog.ComposeUserTableFilter | stmt/stmts/grant.go:189-193 | The user-table WHERE filter selects exactly the row keyed by (host, name) |
| PrivCatalog.ComposeDBTableFilter | stmt/stmts/grant.go:225-228 | The db-table filter (user filter AND `DB = db`) selects exactly the row keyed by (host, name, db) |
| PrivCatalog.DBUserExists | stmt/stmts/grant.go:241-261 | Scanning the db table with the composed filter finds a row exactly when the (host, user, db) key is present |
| PrivCatalog.UpdateUserTableIsGrantRow | stmt/stmts/grant.go:189-195 | The filtered user-table UPDATE adds the columns to the principal's row only; with no matching row nothing changes and nothing fails |
| PrivCatalog.UpdateDBTableIsGrantRow | stmt/stmts/grant.go:295-301 | The filtered db-table UPDATE adds the columns to the (host, user, db) row only; other rows and a missing row are left alone |
| PrivCatalog.InitDBPrivEntry | stmt/stmts/grant.go:125-142 | Inserts exactly one db row with the given key and no 'Y' column; every existing row and the user table are unchanged |
| PrivColumns.ComposeGlobalPrivUpdate | stmt/stmts/grant.go:157-178 | Global `ALL` assigns exactly the values of the privilege map; another kind assigns its one mapped column, or fails with UnknownPriv when unmapped |
| PrivColumns.GlobalAllAssignments | stmt/stmts/grant.go:158-167 | Ranging over the map in any order yields one assignment per entry, and the assigned columns are exactly the map's values |
| PrivColumns.MapDBPrivs | stmt/stmts/grant.go:199-212 | Database `ALL` maps the list element by element, in order; it succeeds iff every element is mapped, otherwise it fails with UnknownDBPriv naming `ALL` |
| PrivColumns.ComposeDBPrivUpdate | stmt/stmts/grant.go:198-223 | Database scope: `ALL` expands through the database list; another kind gives its one mapped column, or UnknownPriv when unmapped |
| Grant.GetTargetSchema | stmt/stmts/grant.go:263-280 | An empty name falls back to the current schema. Both empty gives MissingDBName, and a name that does not exist gives UnknownSchema. Otherwise the result is that existing, non-empty schema |
| Grant.CheckAndInitDBPriv | stmt/stmts/grant.go:109-123 | Schema errors pass through unchanged. Otherwise the key's row is present afterwards: an existing row is untouched, a missing one is inserted with no 'Y' column, and nothing else changes |
| Grant.GrantGlobalPriv | stmt/stmts/grant.go:180-196 | An unknown privilege fails with nothing changed. Otherwise only the principal's user-table row gains the composed columns, and the db table is unchanged |
| Grant.GrantDBPriv | stmt/stmts/grant.go:282-302 | Schema and privilege errors pass through. Otherwise only the principal's row for the target schema gains the composed columns, and the user table is unchanged |
| Grant.GrantTablePriv | stmt/stmts/grant.go:304-307 | Table scope succeeds and changes nothing |
| Grant.GrantPriv | stmt/stmts/grant.go:144-155 | A success only adds 'Y' columns, and only in the table the scope addresses; no row is added. Table scope changes nothing, and any other level fails with UnknownGrantLevel |
| Grant.GrantPrivs | stmt/stmts/grant.go:98-104 | The privileges run in order and never add a row. Table scope finishes unchanged. An unknown level fails with the catalog unchanged, unless there are no privileges |
| Grant.GrantPrivTouches | stmt/stmts/grant.go:144-196 | One privilege's UPDATE changes only rows of the principal it names, and adds only the columns that privilege maps to at the grant's scope |
| Grant.GrantPrivsTouches | stmt/stmts/grant.go:98-104 | A principal's privilege loop leaves every other principal's rows unchanged, and adds only columns that some listed privilege maps to, also when it stops at an error |
| Grant.PrivsColumnsMeaning | stmt/stmts/grant.go:157-223 | A column is among a privilege list's columns exactly when some privilege of the list maps to it at the grant's scope |
| Grant.GrantUser | stmt/stmts/grant.go:79-104 | A principal without a user row aborts with UnknownUser and the catalog unchanged. At database scope, an existing principal whose target schema does not resolve aborts with that schema error (MissingDBName or UnknownSchema) and the catalog unchanged. Only database scope can add a db row, and only this principal's row for the target schema |
| Grant.GrantPrivDBFrame | stmt/stmts/grant.go:295-299 | One privilege writes no db row except the principal's row for the target schema |
| Grant.GrantPrivsDBFrame | stmt/stmts/grant.go:98-104 | A principal's privilege loop writes no db row except its row for the target schema, also when it stops at an error |
| Grant.GrantUserDBFrame | stmt/stmts/grant.go:84-104 | One principal's grant, row insert included, leaves every existing db row except its row for the target schema unchanged |
| Grant.GrantUsersDBFrame | stmt/stmts/grant.go:79-105 | The principal loop leaves every existing db row unchanged except the target-schema rows of listed principals; rows on other schemas keep their value |
| Grant.InitTouches | stmt/stmts/grant.go:109-123 | The row check and insert changes no existing row and sets no 'Y' column |
| Grant.GrantUserTouches | stmt/stmts/grant.go:84-104 | One principal's grant leaves every other principal's rows unchanged. Its own rows, including a freshly inserted one, gain only columns the statement's privileges map to |
| Grant.GrantUsers | stmt/stmts/grant.go:79-105 | Over the whole list, only the addressed table grows. Every row added is the db row of a listed principal for the resolved target schema |
| Grant.GrantUsersTouches | stmt/stmts/grant.go:79-105 | Rows of principals not in the list are unchanged, and every row gains only columns the statement's privileges map to, whether the statement finishes or aborts |
| Grant.Exec | stmt/stmts/grant.go:77-107 | Global and Table scope never insert a row. Global changes only the user table, database scope changes only the db table, and Table scope changes nothing. Every inserted row belongs to a listed principal on the target schema. Rows of unlisted principals are unchanged, and rows gain only the statement's columns. Every db row other than a listed principal's row on the target schema keeps its value |
| GrantProperties.GrantUsersAppend | stmt/stmts/grant.go:79-105 | Running principals `a + b` is running `a`, then `b` on what `a` left, unless `a` aborted |
| GrantProperties.UnknownUserAborts | stmt/stmts/grant.go:84-90 | If principal i has no user row, the statement aborts with UnknownUser for it. The catalog returned is the one the earlier principals produced |
| GrantProperties.DoneMeansUsersExist | stmt/stmts/grant.go:84-90 | A statement that finishes had a user row for every principal in the starting catalog |
| GrantProperties.GrantPrivsAppend | stmt/stmts/grant.go:99-104 | Running privileges `a + b` is running `a`, then `b` on what `a` left, unless `a` aborted |
| GrantProperties.PrivErrorKeepsEarlier | stmt/stmts/grant.go:99-104 | When privilege k fails, the error is reported and the updates of privileges 0..k-1 stay |
| GrantProperties.TableScopeIsNoOp | stmt/stmts/grant.go:150-151 | Table scope leaves the catalog unchanged and finishes exactly when every principal exists |
| GrantProperties.UnknownLevelAborts | stmt/stmts/grant.go:152-153 | An unknown level with privileges aborts after the first principal's existence check: UnknownGrantLevel if it exists, UnknownUser otherwise, with nothing changed |
| GrantProperties.SchemaErrorAborts | stmt/stmts/grant.go:91-96 | At database scope, a target schema that does not resolve aborts the statement at the first principal with the schema error, or with UnknownUser if that principal does not exist; nothing is written |
| GrantProperties.GlobalSinglePriv | stmt/stmts/grant.go:157-196 | A global grant of one privilege to one existing principal: `ALL` adds every mapped column, another mapped kind adds exactly its column, and an unmapped kind fails with nothing changed |
| GrantProperties.DBSinglePriv | stmt/stmts/grant.go:91-104 | A database grant of one non-`ALL` privilege: a missing row is created empty, then the privilege's column is set. An unmapped kind fails, and the inserted row stays |
| GrantProperties.DBSingleNewRow | stmt/stmts/grant.go:109-142 | A database grant of one mapped privilege to a principal without a row for the schema creates that row holding exactly the privilege's column |
| GrantProperties.GrantSelectOnDb1ToAlice | stmt/stmts/grant.go:109-142 | `GRANT SELECT ON db1.* TO alice@%` with no db1 row inserts (%, alice, db1) holding only the Select column |
| GrantProperties.GrantPrivsEstablish | stmt/stmts/grant.go:181-196 | After a principal's privileges have run, every one of them is in effect on its row |
| GrantProperties.GrantUsersIdle | stmt/stmts/grant.go:79-105 | On a catalog where every principal already has the statement's effect, the statement finishes and changes nothing |
| GrantProperties.GrantUsersEstablish | stmt/stmts/grant.go:79-105 | After a finished statement, every principal has the statement's effect: its rows exist and every privilege is in effect |
| GrantProperties.GrantPrivsRepeat | stmt/stmts/grant.go:98-104 | Re-running a principal's privileges on the catalog they left gives the same outcome; a run that stopped at an error stops there again with the same catalog |
| GrantProperties.GrantUserRepeat | stmt/stmts/grant.go:79-104 | Re-running one principal's grant on the catalog it left gives the same outcome, aborted or not |
| GrantProperties.GrantUsersRepeat | stmt/stmts/grant.go:79-105 | Re-running the principal loop on the catalog it left gives the same outcome, aborted or not |
| GrantProperties.ExecIdempotent | stmt/stmts/grant.go:77-107 | Running any statement again on the catalog it produced gives the same result and catalog. This includes runs that aborted after inserting a row |
| GrantProperties.RepeatInsertsNoRow | stmt/stmts/grant.go:114-122 | Repeating a grant, finished or aborted, inserts no db row |

## Left out

- `Explain`, `IsDDL`, `OriginText` and `SetText` (lines 57-74) are left out. They are accessors and formatting.
- SQL execution through `UpdateStmt`, `InsertIntoStmt` and the plan/cursor sets is left out. These are calls into code this model does not include. They are replaced by map comprehensions and map updates. Storage, plan and cursor errors are not modelled, and neither is closing the cursor.
- `userExists` and `composeUserTableRset` are not part of this model, and neither is the body of `composeUserTableFilter`. User existence is membership in the user-table map. `PrivCatalog.ComposeUserTableFilter` models the user filter as `User = name && Host = host`.
- Session and domain access are explicit inputs (`Session`), because they are ambient state of the caller.
- The contents of `Priv2UserCol`, `AllDBPrivs` and the code of `ALL` are parameters (`PrivTables`). Their definitions are not part of this model.
- Error tracing and message text are left out. Errors carry only the value their message names.
- Column-level privilege lists in a privilege element and the unused object type are left out. The engine never reads them. `GrantLevel` keeps the table name of a table-scope grant, but no operation reads it.
- Concurrent grants are left out. The check-then-insert of the db row is not atomic, but the model is single-threaded.
- Splitting a principal with no '@' panics in the source. The model does not model the panic: a principal has the type `Principal.UserSpec`, strings that hold at least one '@'.
- Schema lookup uses exact membership, and the resolved name is the one requested. The case-insensitive lookup and the schema's stored spelling belong to the information schema, which is not part of this model.
- InitDBPrivEntry: requires the key to be absent, which its only caller guarantees. What a duplicate insert would do depends on the storage layer.
- An UPDATE that names a column the table lacks would fail in the SQL layer. The model adds such a column like any other. This matters when a global-only privilege is granted at database scope.
- GlobalAllAssignments models the map iteration of a global `ALL`. The engine functions use the resulting column set directly, because all assignments write the same 'Y' and their order cannot be observed.
