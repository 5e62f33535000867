/** Vocabulary shared by the GRANT engine model: the parsed statement, the
    ambient session, the privilege tables the engine consults, and the
    errors it reports. */
module GrantTypes {
  import opened Principal

  /** A privilege kind (SELECT, INSERT, ..., ALL) as the parser numbers it. */
  type PrivilegeType = nat

  /** The static privilege tables. Their contents are not part of this model,
      so they are parameters:
      - `allPriv` is the value the parser uses for `ALL`;
      - `priv2UserCol` maps a privilege kind to the catalog column it controls;
      - `allDBPrivs` lists, in order, the kinds that `ALL` means at database scope. */
  datatype PrivTables = PrivTables(
    allPriv: PrivilegeType,
    priv2UserCol: map<PrivilegeType, string>,
    allDBPrivs: seq<PrivilegeType>)

  /** The scope of a grant. The level field of the parsed statement is an
      integer enumeration, so values outside the three known scopes exist. */
  datatype LevelKind = GlobalLevel | DBLevel | TableLevel | OtherLevel(code: int)

  datatype GrantLevel = GrantLevel(level: LevelKind, dbName: string, tableName: string)

  /** One requested privilege. Column lists are not modelled. */
  datatype PrivElem = PrivElem(priv: PrivilegeType)

  /** A parsed GRANT: privileges, one scope, and the `name@host` principals. */
  datatype GrantStmt = GrantStmt(privs: seq<PrivElem>, level: GrantLevel, users: seq<UserSpec>)

  /** What the engine reads from its session: the current schema (possibly
      empty) and the names of the schemas that exist. */
  datatype Session = Session(currentSchema: string, schemas: set<string>)

  /** Everything the engine consults besides the statement and the catalog. */
  datatype Env = Env(tables: PrivTables, session: Session)

  datatype GrantError =
    | UnknownUser(user: string)
    | MissingDBName
    | UnknownSchema(name: string)
    | UnknownPriv(priv: PrivilegeType)
    | UnknownDBPriv(priv: PrivilegeType)
    | UnknownGrantLevel(grantLevel: GrantLevel)

  datatype Result<T> = Success(value: T) | Failure(error: GrantError)

  /** The set of columns named by a list of assignments; every assignment
      writes the same value, so their order does not matter. */
  function ColumnsOf(cols: seq<string>): set<string>
  {
    set c | c in cols
  }
}
