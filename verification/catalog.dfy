/** The privilege catalog the GRANT engine writes: the user table (one row per
    host and user, one 'Y'/'N' column per global privilege) and the db table
    (one row per host, user and database). A row is represented by the set
    of its columns that hold 'Y'; every other privilege column holds 'N'.

    Rows are selected the way the engine's UPDATE and scan statements select
    them: by evaluating a WHERE filter built from equalities on key columns. */
module PrivCatalog {

  type Columns = set<string>

  datatype UserKey = UserKey(host: string, user: string)
  datatype DBKey = DBKey(host: string, user: string, db: string)

  datatype Catalog = Catalog(users: map<UserKey, Columns>, dbs: map<DBKey, Columns>)

  // ---------------------------------------------------------------------
  // WHERE filters

  datatype KeyColumn = HostCol | UserCol | DBCol

  /** A filter expression: equalities on key columns joined by `&&`. */
  datatype Filter = Eq(col: KeyColumn, val: string) | AndAnd(left: Filter, right: Filter)

  /** A row's key columns as the filter sees them. */
  type Fields = map<KeyColumn, string>

  function UserFields(k: UserKey): Fields
  {
    map[HostCol := k.host, UserCol := k.user]
  }

  function DBFields(k: DBKey): Fields
  {
    map[HostCol := k.host, UserCol := k.user, DBCol := k.db]
  }

  /** Evaluates a filter on a row; a column the row lacks matches nothing. */
  function Eval(f: Filter, row: Fields): bool
  {
    match f
    case Eq(c, v) => c in row && row[c] == v
    case AndAnd(l, r) => Eval(l, row) && Eval(r, row)
  }

  /** `User = name && Host = host`, the user-table filter. */
  function ComposeUserTableFilter(name: string, host: string): (f: Filter)
    ensures forall k: UserKey :: Eval(f, UserFields(k)) <==> k == UserKey(host, name)
  {
    AndAnd(Eq(UserCol, name), Eq(HostCol, host))
  }

  /** The user-table filter conjoined with `DB = db`: it selects exactly the
      db-table row keyed by (host, name, db). */
  function ComposeDBTableFilter(name: string, host: string, db: string): (f: Filter)
    ensures forall k: DBKey :: Eval(f, DBFields(k)) <==> k == DBKey(host, name, db)
  {
    var user := ComposeUserTableFilter(name, host);
    assert forall k: DBKey :: Eval(user, DBFields(k)) <==> k.host == host && k.user == name;
    AndAnd(user, Eq(DBCol, db))
  }

  // ---------------------------------------------------------------------
  // Reads

  predicate UserExists(cat: Catalog, name: string, host: string)
  {
    UserKey(host, name) in cat.users
  }

  /** Scans the db table with the composed filter and reports whether any row
      comes back; that is the same as the (host, user, db) key being present. */
  function DBUserExists(cat: Catalog, name: string, host: string, db: string): (b: bool)
    ensures b <==> DBKey(host, name, db) in cat.dbs
  {
    var f := ComposeDBTableFilter(name, host, db);
    exists k :: k in cat.dbs && Eval(f, DBFields(k))
  }

  // ---------------------------------------------------------------------
  // Writes

  /** `UPDATE mysql.user SET c = 'Y' (for each c in cols) WHERE where`. */
  function UpdateUserTable(t: map<UserKey, Columns>, cols: Columns, where: Filter): map<UserKey, Columns>
  {
    map k | k in t :: if Eval(where, UserFields(k)) then t[k] + cols else t[k]
  }

  /** `UPDATE mysql.db SET c = 'Y' (for each c in cols) WHERE where`. */
  function UpdateDBTable(t: map<DBKey, Columns>, cols: Columns, where: Filter): map<DBKey, Columns>
  {
    map k | k in t :: if Eval(where, DBFields(k)) then t[k] + cols else t[k]
  }

  /** Reference meaning of a grant on one row: the row keyed `k`, if there is
      one, gains `cols`; no row is added and no other row changes. */
  function GrantRow<K>(t: map<K, Columns>, k: K, cols: Columns): map<K, Columns>
  {
    if k in t then t[k := t[k] + cols] else t
  }

  /** With the composed user filter, the UPDATE touches only the principal's
      row; when that row is missing, nothing changes and nothing fails. */
  lemma UpdateUserTableIsGrantRow(t: map<UserKey, Columns>, cols: Columns, name: string, host: string)
    ensures UpdateUserTable(t, cols, ComposeUserTableFilter(name, host))
         == GrantRow(t, UserKey(host, name), cols)
  {
  }

  /** With the composed db filter, the UPDATE touches only the
      (host, user, db) row, if there is one. */
  lemma UpdateDBTableIsGrantRow(t: map<DBKey, Columns>, cols: Columns, name: string, host: string, db: string)
    ensures UpdateDBTable(t, cols, ComposeDBTableFilter(name, host, db))
         == GrantRow(t, DBKey(host, name, db), cols)
  {
  }

  /** `INSERT INTO mysql.db (Host, User, DB) VALUES (host, user, db)`: one new
      row whose privilege columns all keep their default 'N'. Its only caller
      inserts after finding the key absent. */
  function InitDBPrivEntry(cat: Catalog, user: string, host: string, db: string): (r: Catalog)
    requires DBKey(host, user, db) !in cat.dbs
    ensures r.users == cat.users
    ensures r.dbs.Keys == cat.dbs.Keys + {DBKey(host, user, db)}
    ensures r.dbs[DBKey(host, user, db)] == {}
    ensures forall k :: k in cat.dbs ==> r.dbs[k] == cat.dbs[k]
  {
    cat.(dbs := cat.dbs[DBKey(host, user, db) := {}])
  }

  // ---------------------------------------------------------------------
  // Growth

  /** `d` is `c` with possibly more 'Y' columns and more db rows: no user row
      is added or removed, and nothing is ever turned back to 'N'. */
  ghost predicate Grows(c: Catalog, d: Catalog)
  {
    && c.users.Keys == d.users.Keys
    && c.dbs.Keys <= d.dbs.Keys
    && (forall k :: k in c.users ==> c.users[k] <= d.users[k])
    && (forall k :: k in c.dbs ==> c.dbs[k] <= d.dbs[k])
  }
}
