/** The GRANT execution engine: for each principal in order, check that it
    exists, make sure a db-table row exists for database-scope grants, then
    apply each requested privilege as a filtered UPDATE. Every function is a
    pure step from one catalog to the next. An error stops the whole
    statement, but the catalog it returns keeps whatever earlier principals
    and earlier privileges already changed: the engine does no rollback. */
module Grant {
  import opened GrantTypes
  import opened Principal
  import opened PrivCatalog
  import opened PrivColumns

  /** The outcome of running (part of) a statement: the catalog is returned
      in both cases, because an abort does not undo earlier updates. */
  datatype ExecResult = Done(cat: Catalog) | Aborted(error: GrantError, cat: Catalog)

  /** Only the table the scope addresses may change, and only by growing:
      global grants write the user table, database grants the db table, and
      the other scopes write nothing. */
  ghost predicate InScope(level: LevelKind, c: Catalog, d: Catalog)
  {
    && Grows(c, d)
    && (!level.DBLevel? ==> d.dbs == c.dbs)
    && (!level.GlobalLevel? ==> d.users == c.users)
  }

  /** The db-table key a database-scope grant to `user` on `db` addresses. */
  function DBKeyOf(user: UserSpec, db: string): DBKey
  {
    var a := SplitUser(user);
    DBKey(a.host, a.name, db)
  }

  function UserKeyOf(user: UserSpec): UserKey
  {
    var a := SplitUser(user);
    UserKey(a.host, a.name)
  }

  /** The user a db-table row belongs to. */
  function OwnerOf(k: DBKey): UserKey
  {
    UserKey(k.host, k.user)
  }

  /** The user-table keys of the listed principals. */
  function UserKeysOf(users: seq<UserSpec>): set<UserKey>
  {
    set u | u in users :: UserKeyOf(u)
  }

  /** The 'Y' columns of db row `k`; a row that does not exist has none. */
  function RowOr(t: map<DBKey, Columns>, k: DBKey): Columns
  {
    if k in t then t[k] else {}
  }

  /** From `c` to `d`, rows that belong to no user in `owners` are left
      alone, and every row, old or new, gains at most the columns `cols`. */
  ghost predicate Touches(c: Catalog, d: Catalog, owners: set<UserKey>, cols: set<string>)
  {
    && (forall k :: k in c.users && k !in owners ==> k in d.users && d.users[k] == c.users[k])
    && (forall k :: k in c.dbs && OwnerOf(k) !in owners ==> k in d.dbs && d.dbs[k] == c.dbs[k])
    && (forall k :: k in d.users && k in c.users ==> d.users[k] <= c.users[k] + cols)
    && (forall k :: k in d.dbs ==> d.dbs[k] <= RowOr(c.dbs, k) + cols)
  }

  lemma TouchesTrans(c: Catalog, d: Catalog, e: Catalog, o1: set<UserKey>, o2: set<UserKey>, o: set<UserKey>,
                     c1: set<string>, c2: set<string>, cols: set<string>)
    requires Grows(c, d) && Touches(c, d, o1, c1) && Touches(d, e, o2, c2)
    requires o1 <= o && o2 <= o && c1 <= cols && c2 <= cols
    ensures Touches(c, e, o, cols)
  {
  }

  // ---------------------------------------------------------------------
  // Scope resolution

  /** The schema a database-scope grant addresses: the named one, or the
      session's current schema when none is named; it must exist. */
  function GetTargetSchema(level: GrantLevel, session: Session): (r: Result<string>)
    ensures r.Success? ==> r.value != "" && r.value in session.schemas
    ensures level.dbName == "" && session.currentSchema == "" ==> r == Failure(MissingDBName)
    ensures level.dbName != "" ==>
      r == if level.dbName in session.schemas then Success(level.dbName)
           else Failure(UnknownSchema(level.dbName))
    ensures level.dbName == "" && session.currentSchema != "" ==>
      r == if session.currentSchema in session.schemas then Success(session.currentSchema)
           else Failure(UnknownSchema(session.currentSchema))
  {
    var dbName := if |level.dbName| == 0 then session.currentSchema else level.dbName;
    if |dbName| == 0 then Failure(MissingDBName)
    else if dbName !in session.schemas then Failure(UnknownSchema(dbName))
    else Success(dbName)
  }

  /** Database scope only: resolves the schema and, when the principal has no
      db-table row for it yet, inserts exactly one row with every privilege
      column at 'N'. An existing row is left as it is. */
  function CheckAndInitDBPriv(level: GrantLevel, session: Session, cat: Catalog, user: string, host: string)
    : (r: Result<Catalog>)
    ensures GetTargetSchema(level, session).Failure? ==>
      r == Failure(GetTargetSchema(level, session).error)
    ensures GetTargetSchema(level, session).Success? ==>
      var key := DBKey(host, user, GetTargetSchema(level, session).value);
      && r.Success?
      && r.value.users == cat.users
      && r.value.dbs == (if key in cat.dbs then cat.dbs else cat.dbs[key := {}])
  {
    match GetTargetSchema(level, session)
    case Failure(e) => Failure(e)
    case Success(db) =>
      if DBUserExists(cat, user, host, db) then Success(cat)
      else Success(InitDBPrivEntry(cat, user, host, db))
  }

  // ---------------------------------------------------------------------
  // One privilege

  /** Global scope: sets the privilege's columns to 'Y' in the principal's
      user-table row. An unknown privilege changes nothing. */
  function GrantGlobalPriv(pt: PrivTables, priv: PrivElem, user: UserSpec, cat: Catalog): (r: Result<Catalog>)
    ensures ComposeGlobalPrivUpdate(pt, priv.priv).Failure? ==> r == Failure(UnknownPriv(priv.priv))
    ensures ComposeGlobalPrivUpdate(pt, priv.priv).Success? ==>
      r == Success(cat.(users := GrantRow(cat.users, UserKeyOf(user), ComposeGlobalPrivUpdate(pt, priv.priv).value)))
  {
    match ComposeGlobalPrivUpdate(pt, priv.priv)
    case Failure(e) => Failure(e)
    case Success(cols) =>
      var a := SplitUser(user);
      var where := ComposeUserTableFilter(a.name, a.host);
      UpdateUserTableIsGrantRow(cat.users, cols, a.name, a.host);
      Success(cat.(users := UpdateUserTable(cat.users, cols, where)))
  }

  /** Database scope: resolves the schema again, then sets the privilege's
      columns to 'Y' in the principal's db-table row for that schema. */
  function GrantDBPriv(env: Env, level: GrantLevel, priv: PrivElem, user: UserSpec, cat: Catalog): (r: Result<Catalog>)
    ensures GetTargetSchema(level, env.session).Failure? ==>
      r == Failure(GetTargetSchema(level, env.session).error)
    ensures GetTargetSchema(level, env.session).Success? && ComposeDBPrivUpdate(env.tables, priv.priv).Failure? ==>
      r == Failure(ComposeDBPrivUpdate(env.tables, priv.priv).error)
    ensures GetTargetSchema(level, env.session).Success? && ComposeDBPrivUpdate(env.tables, priv.priv).Success? ==>
      var key := DBKeyOf(user, GetTargetSchema(level, env.session).value);
      r == Success(cat.(dbs := GrantRow(cat.dbs, key, ColumnsOf(ComposeDBPrivUpdate(env.tables, priv.priv).value))))
  {
    match GetTargetSchema(level, env.session)
    case Failure(e) => Failure(e)
    case Success(db) =>
      match ComposeDBPrivUpdate(env.tables, priv.priv)
      case Failure(e) => Failure(e)
      case Success(asgns) =>
        var a := SplitUser(user);
        var where := ComposeDBTableFilter(a.name, a.host, db);
        UpdateDBTableIsGrantRow(cat.dbs, ColumnsOf(asgns), a.name, a.host, db);
        Success(cat.(dbs := UpdateDBTable(cat.dbs, ColumnsOf(asgns), where)))
  }

  /** The columns a grant of `p` at `level` sets when it succeeds. */
  function LevelColumns(env: Env, level: GrantLevel, p: PrivElem): set<string>
  {
    match level.level
    case GlobalLevel =>
      var r := ComposeGlobalPrivUpdate(env.tables, p.priv);
      if r.Success? then r.value else {}
    case DBLevel =>
      var r := ComposeDBPrivUpdate(env.tables, p.priv);
      if r.Success? then ColumnsOf(r.value) else {}
    case TableLevel => {}
    case OtherLevel(_) => {}
  }

  /** The columns the privileges of a list set, taken together. */
  function PrivsColumns(env: Env, level: GrantLevel, privs: seq<PrivElem>): set<string>
  {
    if |privs| == 0 then {} else LevelColumns(env, level, privs[0]) + PrivsColumns(env, level, privs[1..])
  }

  /** A column is among the list's columns exactly when some privilege of
      the list sets it. */
  lemma {:induction false} PrivsColumnsMeaning(env: Env, level: GrantLevel, privs: seq<PrivElem>, col: string)
    ensures col in PrivsColumns(env, level, privs) <==>
      exists i :: 0 <= i < |privs| && col in LevelColumns(env, level, privs[i])
  {
    if |privs| > 0 {
      PrivsColumnsMeaning(env, level, privs[1..], col);
      if col in PrivsColumns(env, level, privs[1..]) {
        var j :| 0 <= j < |privs[1..]| && col in LevelColumns(env, level, privs[1..][j]);
        assert privs[1..][j] == privs[j + 1];
      }
      if exists i :: 0 <= i < |privs| && col in LevelColumns(env, level, privs[i]) {
        var i :| 0 <= i < |privs| && col in LevelColumns(env, level, privs[i]);
        if i > 0 {
          assert privs[i] == privs[1..][i - 1];
        }
      }
    }
  }

  /** Table scope is accepted but writes nothing. */
  function GrantTablePriv(cat: Catalog): (r: Result<Catalog>)
    ensures r.Success? && r.value == cat
  {
    Success(cat)
  }

  /** Dispatches one privilege on the grant's scope. Whatever the scope, an
      update never adds or removes a row and only turns columns to 'Y'. */
  function GrantPriv(env: Env, level: GrantLevel, priv: PrivElem, user: UserSpec, cat: Catalog): (r: Result<Catalog>)
    ensures r.Success? ==> InScope(level.level, cat, r.value) && r.value.dbs.Keys == cat.dbs.Keys
    ensures level.level.TableLevel? ==> r == Success(cat)
    ensures level.level.OtherLevel? ==> r == Failure(UnknownGrantLevel(level))
  {
    match level.level
    case GlobalLevel => GrantGlobalPriv(env.tables, priv, user, cat)
    case DBLevel => GrantDBPriv(env, level, priv, user, cat)
    case TableLevel => GrantTablePriv(cat)
    case OtherLevel(_) => Failure(UnknownGrantLevel(level))
  }

  lemma UserRowTouches(cat: Catalog, k: UserKey, cols: set<string>)
    ensures Touches(cat, cat.(users := GrantRow(cat.users, k, cols)), {k}, cols)
  {
  }

  lemma DBRowTouches(cat: Catalog, k: DBKey, cols: set<string>)
    ensures Touches(cat, cat.(dbs := GrantRow(cat.dbs, k, cols)), {OwnerOf(k)}, cols)
  {
  }

  /** The filtered UPDATE of one privilege changes only the principal's own
      rows and adds only the privilege's columns. */
  lemma GrantPrivTouches(env: Env, level: GrantLevel, priv: PrivElem, user: UserSpec, cat: Catalog)
    requires GrantPriv(env, level, priv, user, cat).Success?
    ensures Touches(cat, GrantPriv(env, level, priv, user, cat).value, {UserKeyOf(user)}, LevelColumns(env, level, priv))
  {
    var d := GrantPriv(env, level, priv, user, cat).value;
    var cols := LevelColumns(env, level, priv);
    match level.level
    case GlobalLevel =>
      assert d == cat.(users := GrantRow(cat.users, UserKeyOf(user), cols));
      UserRowTouches(cat, UserKeyOf(user), cols);
    case DBLevel =>
      var k := DBKeyOf(user, GetTargetSchema(level, env.session).value);
      assert OwnerOf(k) == UserKeyOf(user);
      assert d == cat.(dbs := GrantRow(cat.dbs, k, cols));
      DBRowTouches(cat, k, cols);
    case TableLevel =>
    case OtherLevel(_) =>
  }

  /** Applies the privileges in list order; the first failure stops the rest
      and keeps the updates of the privileges before it. */
  function GrantPrivs(env: Env, level: GrantLevel, privs: seq<PrivElem>, user: UserSpec, cat: Catalog)
    : (r: ExecResult)
    ensures InScope(level.level, cat, r.cat) && r.cat.dbs.Keys == cat.dbs.Keys
    ensures level.level.TableLevel? ==> r == Done(cat)
    ensures level.level.OtherLevel? ==>
      r == if |privs| == 0 then Done(cat) else Aborted(UnknownGrantLevel(level), cat)
  {
    if |privs| == 0 then Done(cat)
    else
      match GrantPriv(env, level, privs[0], user, cat)
      case Failure(e) => Aborted(e, cat)
      case Success(c) =>
        GrantPrivs(env, level, privs[1..], user, c)
  }

  /** A principal's privilege loop changes only that principal's rows, and
      only by the columns its privileges map to. */
  lemma {:induction false} GrantPrivsTouches(env: Env, level: GrantLevel, privs: seq<PrivElem>, user: UserSpec, cat: Catalog)
    ensures Touches(cat, GrantPrivs(env, level, privs, user, cat).cat, {UserKeyOf(user)}, PrivsColumns(env, level, privs))
  {
    if |privs| > 0 && GrantPriv(env, level, privs[0], user, cat).Success? {
      var c := GrantPriv(env, level, privs[0], user, cat).value;
      var r := GrantPrivs(env, level, privs[1..], user, c);
      GrantPrivTouches(env, level, privs[0], user, cat);
      GrantPrivsTouches(env, level, privs[1..], user, c);
      TouchesTrans(cat, c, r.cat, {UserKeyOf(user)}, {UserKeyOf(user)}, {UserKeyOf(user)},
                   LevelColumns(env, level, privs[0]), PrivsColumns(env, level, privs[1..]),
                   PrivsColumns(env, level, privs));
    }
  }

  // ---------------------------------------------------------------------
  // One principal, then the whole statement

  /** The per-principal body of the statement: existence check, then the
      database-scope row check, then the privileges. */
  function GrantUser(env: Env, stmt: GrantStmt, user: UserSpec, cat: Catalog): (r: ExecResult)
    ensures UserKeyOf(user) !in cat.users ==> r == Aborted(UnknownUser(user), cat)
    ensures UserKeyOf(user) in cat.users && stmt.level.level.DBLevel? && GetTargetSchema(stmt.level, env.session).Failure? ==>
      r == Aborted(GetTargetSchema(stmt.level, env.session).error, cat)
    ensures InScope(stmt.level.level, cat, r.cat)
    ensures !stmt.level.level.DBLevel? ==> r.cat.dbs.Keys == cat.dbs.Keys
    ensures r.cat.dbs.Keys <= cat.dbs.Keys + TargetRows(env, stmt.level, [user])
  {
    var a := SplitUser(user);
    if !UserExists(cat, a.name, a.host) then Aborted(UnknownUser(user), cat)
    else if stmt.level.level.DBLevel? then
      match CheckAndInitDBPriv(stmt.level, env.session, cat, a.name, a.host)
      case Failure(e) => Aborted(e, cat)
      case Success(c) =>
        var db := GetTargetSchema(stmt.level, env.session).value;
        assert [user][0] == user;
        assert DBKeyOf(user, db) in TargetRows(env, stmt.level, [user]);
        GrantPrivs(env, stmt.level, stmt.privs, user, c)
    else
      GrantPrivs(env, stmt.level, stmt.privs, user, cat)
  }

  /** Inserting a missing db row changes no existing row and adds no 'Y'
      column. */
  lemma InitTouches(level: GrantLevel, session: Session, cat: Catalog, user: string, host: string)
    requires CheckAndInitDBPriv(level, session, cat, user, host).Success?
    ensures var c := CheckAndInitDBPriv(level, session, cat, user, host).value;
      Grows(cat, c) && Touches(cat, c, {}, {})
  {
    var c := CheckAndInitDBPriv(level, session, cat, user, host).value;
    var key := DBKey(host, user, GetTargetSchema(level, session).value);
    assert c.users == cat.users;
    assert forall k :: k in cat.dbs ==> k in c.dbs && c.dbs[k] == cat.dbs[k];
    assert forall k :: k in c.dbs ==> c.dbs[k] == RowOr(cat.dbs, k);
  }

  /** One principal's grant changes only that principal's rows, and only by
      the columns the statement's privileges map to; an inserted db row
      counts as having been empty. */
  lemma GrantUserTouches(env: Env, stmt: GrantStmt, user: UserSpec, cat: Catalog)
    ensures Touches(cat, GrantUser(env, stmt, user, cat).cat, {UserKeyOf(user)}, PrivsColumns(env, stmt.level, stmt.privs))
  {
    var cols := PrivsColumns(env, stmt.level, stmt.privs);
    var a := SplitUser(user);
    if !UserExists(cat, a.name, a.host) {
    } else if !stmt.level.level.DBLevel? {
      GrantPrivsTouches(env, stmt.level, stmt.privs, user, cat);
    } else {
      var init := CheckAndInitDBPriv(stmt.level, env.session, cat, a.name, a.host);
      if init.Success? {
        var c := init.value;
        var r := GrantPrivs(env, stmt.level, stmt.privs, user, c);
        assert GrantUser(env, stmt, user, cat) == r;
        GrantPrivsTouches(env, stmt.level, stmt.privs, user, c);
        InitTouches(stmt.level, env.session, cat, a.name, a.host);
        TouchesTrans(cat, c, r.cat, {}, {UserKeyOf(user)}, {UserKeyOf(user)}, {}, cols, cols);
      }
    }
  }

  /** The db-table rows a statement to `users` addresses: one per principal,
      on the target schema, or none when the schema does not resolve. */
  function TargetRows(env: Env, level: GrantLevel, users: seq<UserSpec>): set<DBKey>
  {
    match GetTargetSchema(level, env.session)
    case Failure(_) => {}
    case Success(db) => set i | 0 <= i < |users| :: DBKeyOf(users[i], db)
  }

  lemma TargetRowsCons(env: Env, level: GrantLevel, users: seq<UserSpec>)
    requires |users| > 0
    ensures TargetRows(env, level, [users[0]]) + TargetRows(env, level, users[1..])
         <= TargetRows(env, level, users)
  {
    if GetTargetSchema(level, env.session).Success? {
      var db := GetTargetSchema(level, env.session).value;
      assert DBKeyOf(users[0], db) in TargetRows(env, level, users);
      forall k | k in TargetRows(env, level, users[1..])
        ensures k in TargetRows(env, level, users)
      {
        var i :| 0 <= i < |users[1..]| && k == DBKeyOf(users[1..][i], db);
        assert users[1..][i] == users[i + 1];
      }
    }
  }

  lemma UserKeysCons(users: seq<UserSpec>)
    requires |users| > 0
    ensures UserKeyOf(users[0]) in UserKeysOf(users)
    ensures UserKeysOf(users[1..]) <= UserKeysOf(users)
  {
    assert users[0] in users;
    assert forall u :: u in users[1..] ==> u in users;
  }

  lemma InScopeTrans(level: LevelKind, c: Catalog, d: Catalog, e: Catalog)
    requires InScope(level, c, d) && InScope(level, d, e)
    ensures InScope(level, c, e)
  {
  }

  /** The principals in order; the first error stops the statement. */
  function GrantUsers(env: Env, stmt: GrantStmt, users: seq<UserSpec>, cat: Catalog): (r: ExecResult)
    ensures InScope(stmt.level.level, cat, r.cat)
    ensures !stmt.level.level.DBLevel? ==> r.cat.dbs.Keys == cat.dbs.Keys
    ensures r.cat.dbs.Keys <= cat.dbs.Keys + TargetRows(env, stmt.level, users)
  {
    if |users| == 0 then Done(cat)
    else
      match GrantUser(env, stmt, users[0], cat)
      case Aborted(e, c) => Aborted(e, c)
      case Done(c) =>
        var r := GrantUsers(env, stmt, users[1..], c);
        InScopeTrans(stmt.level.level, cat, c, r.cat);
        TargetRowsCons(env, stmt.level, users);
        r
  }

  /** The whole list changes only rows of listed principals, and only by
      the columns the statement's privileges map to. */
  lemma {:induction false} GrantUsersTouches(env: Env, stmt: GrantStmt, users: seq<UserSpec>, cat: Catalog)
    ensures Touches(cat, GrantUsers(env, stmt, users, cat).cat, UserKeysOf(users), PrivsColumns(env, stmt.level, stmt.privs))
  {
    if |users| > 0 && GrantUser(env, stmt, users[0], cat).Done? {
      var cols := PrivsColumns(env, stmt.level, stmt.privs);
      var c := GrantUser(env, stmt, users[0], cat).cat;
      var r := GrantUsers(env, stmt, users[1..], c);
      UserKeysCons(users);
      GrantUserTouches(env, stmt, users[0], cat);
      GrantUsersTouches(env, stmt, users[1..], c);
      TouchesTrans(cat, c, r.cat, {UserKeyOf(users[0])}, UserKeysOf(users[1..]), UserKeysOf(users), cols, cols, cols);
    } else if |users| > 0 {
      GrantUserTouches(env, stmt, users[0], cat);
      UserKeysCons(users);
    }
  }

  /** From `c` to `d`, every db row outside `rows` keeps its value. */
  ghost predicate DBFrame(c: Catalog, d: Catalog, rows: set<DBKey>)
  {
    forall k :: k in c.dbs && k !in rows ==> k in d.dbs && d.dbs[k] == c.dbs[k]
  }

  lemma DBFrameTrans(c: Catalog, d: Catalog, e: Catalog, r1: set<DBKey>, r2: set<DBKey>, rows: set<DBKey>)
    requires DBFrame(c, d, r1) && DBFrame(d, e, r2) && r1 <= rows && r2 <= rows
    ensures DBFrame(c, e, rows)
  {
  }

  /** One privilege writes at most the principal's row for the target
      schema: the `DB = db` part of the filter keeps its other schemas'
      rows out of the UPDATE. */
  lemma GrantPrivDBFrame(env: Env, level: GrantLevel, priv: PrivElem, user: UserSpec, cat: Catalog)
    requires GrantPriv(env, level, priv, user, cat).Success?
    ensures DBFrame(cat, GrantPriv(env, level, priv, user, cat).value, TargetRows(env, level, [user]))
  {
    if level.level.DBLevel? {
      var k := DBKeyOf(user, GetTargetSchema(level, env.session).value);
      assert [user][0] == user;
      assert k in TargetRows(env, level, [user]);
    }
  }

  lemma {:induction false} GrantPrivsDBFrame(env: Env, level: GrantLevel, privs: seq<PrivElem>, user: UserSpec, cat: Catalog)
    ensures DBFrame(cat, GrantPrivs(env, level, privs, user, cat).cat, TargetRows(env, level, [user]))
  {
    if |privs| > 0 && GrantPriv(env, level, privs[0], user, cat).Success? {
      var c := GrantPriv(env, level, privs[0], user, cat).value;
      var rows := TargetRows(env, level, [user]);
      GrantPrivDBFrame(env, level, privs[0], user, cat);
      GrantPrivsDBFrame(env, level, privs[1..], user, c);
      DBFrameTrans(cat, c, GrantPrivs(env, level, privs[1..], user, c).cat, rows, rows, rows);
    }
  }

  /** One principal's grant writes at most its own row for the target
      schema; inserting that row leaves every existing row alone. */
  lemma GrantUserDBFrame(env: Env, stmt: GrantStmt, user: UserSpec, cat: Catalog)
    ensures DBFrame(cat, GrantUser(env, stmt, user, cat).cat, TargetRows(env, stmt.level, [user]))
  {
    var rows := TargetRows(env, stmt.level, [user]);
    var a := SplitUser(user);
    if !UserExists(cat, a.name, a.host) {
    } else if !stmt.level.level.DBLevel? {
      GrantPrivsDBFrame(env, stmt.level, stmt.privs, user, cat);
    } else {
      var init := CheckAndInitDBPriv(stmt.level, env.session, cat, a.name, a.host);
      if init.Success? {
        var c := init.value;
        var r := GrantPrivs(env, stmt.level, stmt.privs, user, c);
        assert GrantUser(env, stmt, user, cat) == r;
        assert DBFrame(cat, c, {});
        GrantPrivsDBFrame(env, stmt.level, stmt.privs, user, c);
        DBFrameTrans(cat, c, r.cat, {}, rows, rows);
      }
    }
  }

  /** The whole list writes only the target-schema rows of listed
      principals; every other db row keeps its value. */
  lemma {:induction false} GrantUsersDBFrame(env: Env, stmt: GrantStmt, users: seq<UserSpec>, cat: Catalog)
    ensures DBFrame(cat, GrantUsers(env, stmt, users, cat).cat, TargetRows(env, stmt.level, users))
  {
    if |users| > 0 {
      TargetRowsCons(env, stmt.level, users);
      GrantUserDBFrame(env, stmt, users[0], cat);
      if GrantUser(env, stmt, users[0], cat).Done? {
        var c := GrantUser(env, stmt, users[0], cat).cat;
        GrantUsersDBFrame(env, stmt, users[1..], c);
        DBFrameTrans(cat, c, GrantUsers(env, stmt, users[1..], c).cat,
                     TargetRows(env, stmt.level, [users[0]]), TargetRows(env, stmt.level, users[1..]),
                     TargetRows(env, stmt.level, users));
      }
    }
  }

  /** Executes a GRANT statement against the catalog. */
  function Exec(env: Env, stmt: GrantStmt, cat: Catalog): (r: ExecResult)
    ensures InScope(stmt.level.level, cat, r.cat)
    ensures !stmt.level.level.DBLevel? ==> r.cat.dbs.Keys == cat.dbs.Keys
    ensures r.cat.dbs.Keys <= cat.dbs.Keys + TargetRows(env, stmt.level, stmt.users)
    ensures Touches(cat, r.cat, UserKeysOf(stmt.users), PrivsColumns(env, stmt.level, stmt.privs))
    ensures DBFrame(cat, r.cat, TargetRows(env, stmt.level, stmt.users))
  {
    GrantUsersTouches(env, stmt, stmt.users, cat);
    GrantUsersDBFrame(env, stmt, stmt.users, cat);
    GrantUsers(env, stmt, stmt.users, cat)
  }
}
