/** Properties of the GRANT engine that relate several steps or several
    runs: how principals compose, when an unknown principal stops the
    statement, what each scope may write, what a single privilege does, and
    that running the same statement twice changes nothing the second time. */
module GrantProperties {
  import opened GrantTypes
  import opened Principal
  import opened PrivCatalog
  import opened PrivColumns
  import opened Grant

  // ---------------------------------------------------------------------
  // Sequencing principals

  /** Running `a + b` is running `a`, then, if it finished, running `b` on
      the catalog `a` left behind. */
  lemma {:induction false} GrantUsersAppend(env: Env, stmt: GrantStmt, a: seq<UserSpec>, b: seq<UserSpec>, cat: Catalog)
    ensures GrantUsers(env, stmt, a, cat).Done? ==>
      GrantUsers(env, stmt, a + b, cat) == GrantUsers(env, stmt, b, GrantUsers(env, stmt, a, cat).cat)
    ensures GrantUsers(env, stmt, a, cat).Aborted? ==>
      GrantUsers(env, stmt, a + b, cat) == GrantUsers(env, stmt, a, cat)
  {
    if |a| == 0 {
      assert a + b == b;
    } else {
      assert (a + b)[0] == a[0];
      assert (a + b)[1..] == a[1..] + b;
      match GrantUser(env, stmt, a[0], cat)
      case Aborted(e, c) =>
      case Done(c) =>
        GrantUsersAppend(env, stmt, a[1..], b, c);
    }
  }

  /** A principal with no user-table row stops the statement with
      UnknownUser before anything is done for it; what the principals before
      it changed stays in the returned catalog. */
  lemma UnknownUserAborts(env: Env, stmt: GrantStmt, cat: Catalog, i: nat)
    requires i < |stmt.users|
    requires GrantUsers(env, stmt, stmt.users[..i], cat).Done?
    requires UserKeyOf(stmt.users[i]) !in cat.users
    ensures Exec(env, stmt, cat) ==
      Aborted(UnknownUser(stmt.users[i]), GrantUsers(env, stmt, stmt.users[..i], cat).cat)
  {
    var pre, post := stmt.users[..i], stmt.users[i..];
    SplitAt(stmt.users, i);
    var c := GrantUsers(env, stmt, pre, cat).cat;
    FirstUserUnknown(env, stmt, post, c, cat);
    GrantUsersAppend(env, stmt, pre, post, cat);
  }

  lemma SplitAt<T>(s: seq<T>, i: nat)
    requires i < |s|
    ensures s == s[..i] + s[i..] && s[i..][0] == s[i]
  {
  }

  /** A list whose first principal has no user row aborts at once. */
  lemma FirstUserUnknown(env: Env, stmt: GrantStmt, users: seq<UserSpec>, c: Catalog, cat: Catalog)
    requires |users| > 0 && c.users.Keys == cat.users.Keys
    requires UserKeyOf(users[0]) !in cat.users
    ensures GrantUsers(env, stmt, users, c) == Aborted(UnknownUser(users[0]), c)
  {
  }

  /** Running privileges `a + b` is running `a`, then, if it finished,
      running `b` on the catalog `a` left behind. */
  lemma {:induction false} GrantPrivsAppend(env: Env, level: GrantLevel, a: seq<PrivElem>, b: seq<PrivElem>,
                                            user: UserSpec, cat: Catalog)
    ensures GrantPrivs(env, level, a + b, user, cat) ==
      match GrantPrivs(env, level, a, user, cat)
      case Done(c) => GrantPrivs(env, level, b, user, c)
      case Aborted(e, c) => Aborted(e, c)
  {
    if |a| == 0 {
      assert a + b == b;
    } else {
      assert (a + b)[0] == a[0];
      assert (a + b)[1..] == a[1..] + b;
      match GrantPriv(env, level, a[0], user, cat)
      case Failure(e) =>
      case Success(c) =>
        GrantPrivsAppend(env, level, a[1..], b, user, c);
    }
  }

  /** When privilege `k` of a principal fails, the statement reports its
      error and keeps the updates of privileges `0..k-1`; nothing is rolled
      back. */
  lemma PrivErrorKeepsEarlier(env: Env, level: GrantLevel, privs: seq<PrivElem>, user: UserSpec, cat: Catalog, k: nat)
    requires k < |privs|
    requires GrantPrivs(env, level, privs[..k], user, cat).Done?
    requires GrantPriv(env, level, privs[k], user, GrantPrivs(env, level, privs[..k], user, cat).cat).Failure?
    ensures var c := GrantPrivs(env, level, privs[..k], user, cat).cat;
      GrantPrivs(env, level, privs, user, cat) == Aborted(GrantPriv(env, level, privs[k], user, c).error, c)
  {
    assert privs == privs[..k] + privs[k..];
    GrantPrivsAppend(env, level, privs[..k], privs[k..], user, cat);
    assert privs[k..][0] == privs[k];
  }

  /** A statement finishes only if every principal had a user-table row in
      the catalog it started from. */
  lemma {:induction false} DoneMeansUsersExist(env: Env, stmt: GrantStmt, users: seq<UserSpec>, cat: Catalog)
    requires GrantUsers(env, stmt, users, cat).Done?
    ensures forall u :: u in users ==> UserKeyOf(u) in cat.users
  {
    if |users| > 0 {
      var c := GrantUser(env, stmt, users[0], cat).cat;
      assert c.users.Keys == cat.users.Keys;
      DoneMeansUsersExist(env, stmt, users[1..], c);
      assert forall u :: u in users ==> u == users[0] || u in users[1..];
    }
  }

  // ---------------------------------------------------------------------
  // What each scope writes

  /** Table scope changes no row; it finishes exactly when every principal
      exists. */
  lemma {:induction false} TableScopeIsNoOp(env: Env, stmt: GrantStmt, users: seq<UserSpec>, cat: Catalog)
    requires stmt.level.level.TableLevel?
    ensures GrantUsers(env, stmt, users, cat).cat == cat
    ensures GrantUsers(env, stmt, users, cat).Done? <==>
      forall u :: u in users ==> UserKeyOf(u) in cat.users
  {
    if |users| > 0 {
      var first := GrantUser(env, stmt, users[0], cat);
      assert first == if UserKeyOf(users[0]) in cat.users then Done(cat)
                      else Aborted(UnknownUser(users[0]), cat);
      TableScopeIsNoOp(env, stmt, users[1..], cat);
      assert forall u :: u in users <==> u == users[0] || u in users[1..];
    }
  }

  /** A scope outside Global, DB and Table is reported only once a
      privilege is dispatched, after the first principal's existence check;
      nothing is written either way. */
  lemma UnknownLevelAborts(env: Env, stmt: GrantStmt, cat: Catalog)
    requires stmt.level.level.OtherLevel?
    requires |stmt.users| > 0 && |stmt.privs| > 0
    ensures Exec(env, stmt, cat) ==
      if UserKeyOf(stmt.users[0]) in cat.users then Aborted(UnknownGrantLevel(stmt.level), cat)
      else Aborted(UnknownUser(stmt.users[0]), cat)
  {
  }

  /** At database scope a schema that does not resolve (no name and no
      current schema, or a name that does not exist) stops the statement at
      the first principal's row check, after its existence check; nothing
      is written. */
  lemma SchemaErrorAborts(env: Env, stmt: GrantStmt, cat: Catalog)
    requires stmt.level.level.DBLevel? && |stmt.users| > 0
    requires GetTargetSchema(stmt.level, env.session).Failure?
    ensures Exec(env, stmt, cat) ==
      if UserKeyOf(stmt.users[0]) in cat.users then Aborted(GetTargetSchema(stmt.level, env.session).error, cat)
      else Aborted(UnknownUser(stmt.users[0]), cat)
  {
  }

  // ---------------------------------------------------------------------
  // A single privilege to a single principal

  /** A one-element privilege list is that privilege's grant. */
  lemma OnePriv(env: Env, level: GrantLevel, p: PrivElem, user: UserSpec, c: Catalog)
    ensures GrantPrivs(env, level, [p], user, c) ==
      match GrantPriv(env, level, p, user, c)
      case Success(d) => Done(d)
      case Failure(e) => Aborted(e, c)
  {
    assert [p][1..] == [];
  }

  /** A one-element principal list is that principal's grant. */
  lemma OneUser(env: Env, stmt: GrantStmt, user: UserSpec, c: Catalog)
    requires stmt.users == [user]
    ensures Exec(env, stmt, c) == GrantUser(env, stmt, user, c)
  {
    assert stmt.users[0] == user && stmt.users[1..] == [];
    match GrantUser(env, stmt, user, c)
    case Aborted(e, d) =>
    case Done(d) =>
      assert GrantUsers(env, stmt, [], d) == Done(d);
  }

  /** Global scope, one privilege: `ALL` sets every mapped column, another
      mapped kind sets its one column, an unmapped kind fails with nothing
      changed. Only the principal's user-table row changes. */
  lemma GlobalSinglePriv(env: Env, p: PrivilegeType, user: UserSpec, cat: Catalog)
    requires UserKeyOf(user) in cat.users
    ensures var stmt := GrantStmt([PrivElem(p)], GrantLevel(GlobalLevel, "", ""), [user]);
      var m := env.tables.priv2UserCol;
      var k := UserKeyOf(user);
      Exec(env, stmt, cat) ==
        if p == env.tables.allPriv then Done(cat.(users := cat.users[k := cat.users[k] + m.Values]))
        else if p in m then Done(cat.(users := cat.users[k := cat.users[k] + {m[p]}]))
        else Aborted(UnknownPriv(p), cat)
  {
    var stmt := GrantStmt([PrivElem(p)], GrantLevel(GlobalLevel, "", ""), [user]);
    var m := env.tables.priv2UserCol;
    var one := GrantPriv(env, stmt.level, PrivElem(p), user, cat);
    var r := ComposeGlobalPrivUpdate(env.tables, p);
    if p == env.tables.allPriv {
      assert r.value == m.Values;
    }
    OnePriv(env, stmt.level, PrivElem(p), user, cat);
    OneUser(env, stmt, user, cat);
  }

  /** Database scope, one non-ALL privilege: the principal's row for the
      target schema is created with no 'Y' column if missing, then the
      privilege's column is set. An unmapped kind fails, but the row just
      inserted stays. */
  lemma DBSinglePriv(env: Env, p: PrivilegeType, dbName: string, user: UserSpec, cat: Catalog)
    requires UserKeyOf(user) in cat.users
    requires p != env.tables.allPriv
    requires dbName != "" && dbName in env.session.schemas
    ensures var stmt := GrantStmt([PrivElem(p)], GrantLevel(DBLevel, dbName, ""), [user]);
      var m := env.tables.priv2UserCol;
      var k := DBKeyOf(user, dbName);
      var before := if k in cat.dbs then cat.dbs[k] else {};
      Exec(env, stmt, cat) ==
        if p in m then Done(cat.(dbs := cat.dbs[k := before + {m[p]}]))
        else Aborted(UnknownPriv(p), cat.(dbs := cat.dbs[k := before]))
  {
    var stmt := GrantStmt([PrivElem(p)], GrantLevel(DBLevel, dbName, ""), [user]);
    var k := DBKeyOf(user, dbName);
    var m := env.tables.priv2UserCol;
    var before := if k in cat.dbs then cat.dbs[k] else {};
    var a := SplitUser(user);
    var c1 := CheckAndInitDBPriv(stmt.level, env.session, cat, a.name, a.host).value;
    assert c1 == cat.(dbs := cat.dbs[k := before]);
    var one := GrantPriv(env, stmt.level, PrivElem(p), user, c1);
    if p in m {
      assert ColumnsOf([m[p]]) == {m[p]};
      assert one == Success(c1.(dbs := c1.dbs[k := before + {m[p]}]));
      assert c1.dbs[k := before + {m[p]}] == cat.dbs[k := before + {m[p]}];
    } else {
      assert one == Failure(UnknownPriv(p));
    }
    OnePriv(env, stmt.level, PrivElem(p), user, c1);
    OneUser(env, stmt, user, cat);
  }

  /** The database grant of one mapped privilege to a principal without a
      row for the schema: the row is created holding just that column. */
  lemma DBSingleNewRow(env: Env, p: PrivilegeType, stmt: GrantStmt, dbName: string, user: UserSpec, cat: Catalog)
    requires UserKeyOf(user) in cat.users
    requires p != env.tables.allPriv && p in env.tables.priv2UserCol
    requires dbName != "" && dbName in env.session.schemas
    requires stmt == GrantStmt([PrivElem(p)], GrantLevel(DBLevel, dbName, ""), [user])
    requires DBKeyOf(user, dbName) !in cat.dbs
    ensures Exec(env, stmt, cat) ==
      Done(cat.(dbs := cat.dbs[DBKeyOf(user, dbName) := {env.tables.priv2UserCol[p]}]))
  {
    var col := env.tables.priv2UserCol[p];
    var none: set<string> := {};
    assert none + {col} == {col};
    DBSinglePriv(env, p, dbName, user, cat);
  }

  /** GRANT SELECT ON db1.* TO alice@% where alice@% exists and has no db1
      row: the row (%, alice, db1) is inserted and gets the Select column. */
  lemma GrantSelectOnDb1ToAlice(env: Env, select: PrivilegeType, cat: Catalog, user: UserSpec)
    requires user == "alice@%"
    requires select != env.tables.allPriv && select in env.tables.priv2UserCol
    requires "db1" in env.session.schemas
    requires UserKey("%", "alice") in cat.users
    requires DBKey("%", "alice", "db1") !in cat.dbs
    ensures var stmt := GrantStmt([PrivElem(select)], GrantLevel(DBLevel, "db1", ""), [user]);
      Exec(env, stmt, cat) == Done(cat.(dbs := cat.dbs[DBKey("%", "alice", "db1") :=
        {env.tables.priv2UserCol[select]}]))
  {
    AliceKeys(user);
    var stmt := GrantStmt([PrivElem(select)], GrantLevel(DBLevel, "db1", ""), [user]);
    DBSingleNewRow(env, select, stmt, "db1", user, cat);
  }

  /** `alice@%` names the account alice on host %. */
  lemma AliceKeys(user: UserSpec)
    requires user == "alice@%"
    ensures UserKeyOf(user) == UserKey("%", "alice")
    ensures DBKeyOf(user, "db1") == DBKey("%", "alice", "db1")
  {
    assert user == "alice" + [Sep] + "%";
    SplitJoin("alice", "%");
  }

  // ---------------------------------------------------------------------
  // Running a statement twice

  /** The principal has the rows a grant to it needs. */
  ghost predicate RowPresent(env: Env, level: GrantLevel, user: UserSpec, c: Catalog)
  {
    && UserKeyOf(user) in c.users
    && (level.level.DBLevel? ==>
          GetTargetSchema(level, env.session).Success?
          && DBKeyOf(user, GetTargetSchema(level, env.session).value) in c.dbs)
  }

  /** Privilege `p` is already in effect for `user` in `c`: granting it
      again would succeed and set only columns that are already 'Y'. */
  ghost predicate Granted(env: Env, level: GrantLevel, p: PrivElem, user: UserSpec, c: Catalog)
  {
    match level.level
    case GlobalLevel =>
      var r := ComposeGlobalPrivUpdate(env.tables, p.priv);
      r.Success? && UserKeyOf(user) in c.users && r.value <= c.users[UserKeyOf(user)]
    case DBLevel =>
      var s := GetTargetSchema(level, env.session);
      var r := ComposeDBPrivUpdate(env.tables, p.priv);
      && s.Success? && r.Success?
      && DBKeyOf(user, s.value) in c.dbs
      && ColumnsOf(r.value) <= c.dbs[DBKeyOf(user, s.value)]
    case TableLevel => true
    case OtherLevel(_) => false
  }

  /** The whole statement's effect on `user` is already in `c`. */
  ghost predicate UserGranted(env: Env, stmt: GrantStmt, user: UserSpec, c: Catalog)
  {
    && RowPresent(env, stmt.level, user, c)
    && forall i :: 0 <= i < |stmt.privs| ==> Granted(env, stmt.level, stmt.privs[i], user, c)
  }

  lemma GrantedGrows(env: Env, level: GrantLevel, p: PrivElem, user: UserSpec, c: Catalog, d: Catalog)
    requires Grows(c, d)
    requires Granted(env, level, p, user, c)
    ensures Granted(env, level, p, user, d)
  {
  }

  lemma UserGrantedGrows(env: Env, stmt: GrantStmt, user: UserSpec, c: Catalog, d: Catalog)
    requires Grows(c, d)
    requires UserGranted(env, stmt, user, c)
    ensures UserGranted(env, stmt, user, d)
  {
    forall i | 0 <= i < |stmt.privs|
      ensures Granted(env, stmt.level, stmt.privs[i], user, d)
    {
      GrantedGrows(env, stmt.level, stmt.privs[i], user, c, d);
    }
  }

  /** A privilege already in effect is granted again without any change. */
  lemma GrantPrivIdle(env: Env, level: GrantLevel, p: PrivElem, user: UserSpec, c: Catalog)
    requires Granted(env, level, p, user, c)
    ensures GrantPriv(env, level, p, user, c) == Success(c)
  {
    match level.level
    case GlobalLevel =>
      var k := UserKeyOf(user);
      var cols := ComposeGlobalPrivUpdate(env.tables, p.priv).value;
      assert c.users[k] + cols == c.users[k];
      assert c.users[k := c.users[k] + cols] == c.users;
    case DBLevel =>
      var k := DBKeyOf(user, GetTargetSchema(level, env.session).value);
      var cols := ColumnsOf(ComposeDBPrivUpdate(env.tables, p.priv).value);
      assert c.dbs[k] + cols == c.dbs[k];
      assert c.dbs[k := c.dbs[k] + cols] == c.dbs;
    case TableLevel =>
    case OtherLevel(_) =>
  }

  /** A successful grant of `p` on a principal with its rows in place puts
      `p` in effect. */
  lemma GrantPrivEstablishes(env: Env, level: GrantLevel, p: PrivElem, user: UserSpec, c: Catalog)
    requires RowPresent(env, level, user, c)
    requires GrantPriv(env, level, p, user, c).Success?
    ensures Granted(env, level, p, user, GrantPriv(env, level, p, user, c).value)
  {
  }

  lemma {:induction false} GrantPrivsIdle(env: Env, level: GrantLevel, privs: seq<PrivElem>, user: UserSpec, c: Catalog)
    requires forall i :: 0 <= i < |privs| ==> Granted(env, level, privs[i], user, c)
    ensures GrantPrivs(env, level, privs, user, c) == Done(c)
  {
    if |privs| > 0 {
      GrantPrivIdle(env, level, privs[0], user, c);
      assert forall i :: 0 <= i < |privs[1..]| ==> privs[1..][i] == privs[i + 1];
      GrantPrivsIdle(env, level, privs[1..], user, c);
    }
  }

  lemma {:induction false} GrantPrivsEstablish(env: Env, level: GrantLevel, privs: seq<PrivElem>, user: UserSpec, c: Catalog)
    requires RowPresent(env, level, user, c)
    requires GrantPrivs(env, level, privs, user, c).Done?
    ensures forall i :: 0 <= i < |privs| ==>
      Granted(env, level, privs[i], user, GrantPrivs(env, level, privs, user, c).cat)
  {
    if |privs| > 0 {
      var c1 := GrantPriv(env, level, privs[0], user, c).value;
      var d := GrantPrivs(env, level, privs, user, c).cat;
      GrantPrivEstablishes(env, level, privs[0], user, c);
      GrantPrivsEstablish(env, level, privs[1..], user, c1);
      GrantedGrows(env, level, privs[0], user, c1, d);
      forall i | 1 <= i < |privs|
        ensures Granted(env, level, privs[i], user, d)
      {
        assert privs[1..][i - 1] == privs[i];
      }
    }
  }

  lemma GrantUserIdle(env: Env, stmt: GrantStmt, user: UserSpec, c: Catalog)
    requires UserGranted(env, stmt, user, c)
    ensures GrantUser(env, stmt, user, c) == Done(c)
  {
    GrantPrivsIdle(env, stmt.level, stmt.privs, user, c);
  }

  lemma GrantUserEstablishes(env: Env, stmt: GrantStmt, user: UserSpec, c: Catalog)
    requires GrantUser(env, stmt, user, c).Done?
    ensures UserGranted(env, stmt, user, GrantUser(env, stmt, user, c).cat)
  {
    var a := SplitUser(user);
    var c1 := if stmt.level.level.DBLevel? then
        CheckAndInitDBPriv(stmt.level, env.session, c, a.name, a.host).value
      else c;
    assert RowPresent(env, stmt.level, user, c1);
    GrantPrivsEstablish(env, stmt.level, stmt.privs, user, c1);
  }

  lemma {:induction false} GrantUsersIdle(env: Env, stmt: GrantStmt, users: seq<UserSpec>, c: Catalog)
    requires forall i :: 0 <= i < |users| ==> UserGranted(env, stmt, users[i], c)
    ensures GrantUsers(env, stmt, users, c) == Done(c)
  {
    if |users| > 0 {
      GrantUserIdle(env, stmt, users[0], c);
      assert forall i :: 0 <= i < |users[1..]| ==> users[1..][i] == users[i + 1];
      GrantUsersIdle(env, stmt, users[1..], c);
    }
  }

  lemma {:induction false} GrantUsersEstablish(env: Env, stmt: GrantStmt, users: seq<UserSpec>, c: Catalog)
    requires GrantUsers(env, stmt, users, c).Done?
    ensures forall i :: 0 <= i < |users| ==>
      UserGranted(env, stmt, users[i], GrantUsers(env, stmt, users, c).cat)
  {
    if |users| > 0 {
      var c1 := GrantUser(env, stmt, users[0], c).cat;
      var d := GrantUsers(env, stmt, users, c).cat;
      GrantUserEstablishes(env, stmt, users[0], c);
      GrantUsersEstablish(env, stmt, users[1..], c1);
      UserGrantedGrows(env, stmt, users[0], c1, d);
      forall i | 1 <= i < |users|
        ensures UserGranted(env, stmt, users[i], d)
      {
        assert users[1..][i - 1] == users[i];
      }
    }
  }

  lemma RowPresentGrows(env: Env, level: GrantLevel, user: UserSpec, c: Catalog, d: Catalog)
    requires Grows(c, d) && RowPresent(env, level, user, c)
    ensures RowPresent(env, level, user, d)
  {
  }

  /** Repeating a principal's privileges on the catalog they left gives the
      same outcome: a finished loop changes nothing more, and a loop that
      stopped at privilege k stops there again with the same catalog,
      because whether a grant fails does not depend on the catalog. */
  lemma {:induction false} GrantPrivsRepeat(env: Env, level: GrantLevel, privs: seq<PrivElem>, user: UserSpec, c: Catalog)
    requires RowPresent(env, level, user, c)
    ensures var r := GrantPrivs(env, level, privs, user, c);
      GrantPrivs(env, level, privs, user, r.cat) == r
  {
    if |privs| > 0 {
      match GrantPriv(env, level, privs[0], user, c)
      case Failure(_) =>
      case Success(c1) =>
        var r := GrantPrivs(env, level, privs[1..], user, c1);
        RowPresentGrows(env, level, user, c, c1);
        GrantPrivsRepeat(env, level, privs[1..], user, c1);
        GrantPrivEstablishes(env, level, privs[0], user, c);
        GrantedGrows(env, level, privs[0], user, c1, r.cat);
        GrantPrivIdle(env, level, privs[0], user, r.cat);
    }
  }

  /** Repeating one principal's grant on the catalog it left gives the same
      outcome, aborted or not. */
  lemma GrantUserRepeat(env: Env, stmt: GrantStmt, user: UserSpec, c: Catalog)
    ensures var r := GrantUser(env, stmt, user, c);
      GrantUser(env, stmt, user, r.cat) == r
  {
    var a := SplitUser(user);
    if UserExists(c, a.name, a.host) {
      var init := if stmt.level.level.DBLevel? then
          CheckAndInitDBPriv(stmt.level, env.session, c, a.name, a.host)
        else Success(c);
      if init.Success? {
        var c1 := init.value;
        assert RowPresent(env, stmt.level, user, c1);
        var r := GrantPrivs(env, stmt.level, stmt.privs, user, c1);
        assert GrantUser(env, stmt, user, c) == r;
        GrantPrivsRepeat(env, stmt.level, stmt.privs, user, c1);
        RowPresentGrows(env, stmt.level, user, c1, r.cat);
        if stmt.level.level.DBLevel? {
          assert CheckAndInitDBPriv(stmt.level, env.session, r.cat, a.name, a.host) == Success(r.cat);
        }
      }
    }
  }

  /** Repeating a statement's principal loop on the catalog it left gives
      the same outcome, aborted or not. */
  lemma {:induction false} GrantUsersRepeat(env: Env, stmt: GrantStmt, users: seq<UserSpec>, c: Catalog)
    ensures var r := GrantUsers(env, stmt, users, c);
      GrantUsers(env, stmt, users, r.cat) == r
  {
    if |users| > 0 {
      GrantUserRepeat(env, stmt, users[0], c);
      match GrantUser(env, stmt, users[0], c)
      case Aborted(_, _) =>
      case Done(c1) =>
        var r := GrantUsers(env, stmt, users[1..], c1);
        GrantUsersRepeat(env, stmt, users[1..], c1);
        GrantUserEstablishes(env, stmt, users[0], c);
        UserGrantedGrows(env, stmt, users[0], c1, r.cat);
        GrantUserIdle(env, stmt, users[0], r.cat);
    }
  }

  /** Granting is idempotent: running a statement again on the catalog its
      first run produced gives the same outcome and the same catalog. This
      holds for aborted runs too, whose earlier updates and inserted rows
      stay in place. */
  lemma ExecIdempotent(env: Env, stmt: GrantStmt, cat: Catalog)
    ensures Exec(env, stmt, Exec(env, stmt, cat).cat) == Exec(env, stmt, cat)
  {
    GrantUsersRepeat(env, stmt, stmt.users, cat);
  }

  /** In particular, repeating a grant inserts no db row. */
  lemma RepeatInsertsNoRow(env: Env, stmt: GrantStmt, cat: Catalog)
    ensures Exec(env, stmt, Exec(env, stmt, cat).cat).cat.dbs.Keys == Exec(env, stmt, cat).cat.dbs.Keys
  {
    ExecIdempotent(env, stmt, cat);
  }
}
