/**
 * The per-object session state of the data-layer trait: the memoised PDO
 * connection, the (possibly suffixed) database name, the last prepared
 * statement, the last reconstructed SQL text and the last fetched result
 * set, with the operations that read and update them.
 *
 * Everything the PDO driver decides (whether a connection opens, which
 * statement handle prepare yields, what execute and the fetches return,
 * whether they raise) enters as a parameter.
 *
 * Results use Ret: Value is a normal return; False and Null are the
 * `false` and `null` the PHP returns (the catches of the fetch,
 * transaction and lastId methods return null, those of executeSQL and
 * count return false, and getInstance's gives no connection); Thrown is an
 * Error that leaves the method uncaught, such as a method call on `false`
 * or `null`, or a return value the declared return type rejects.
 */
module Datalayer {
  import opened Wrappers
  import opened Text
  import SqlLog
  import opened Environment

  /** The CONFIG_DATA_LAYER entries the trait reads. */
  datatype Config = Config(
    driver: string, host: string, port: string, dbname: string,
    username: string, passwd: string, homologation: string, directoryModels: string)

  /** A PDO connection, by the arguments it was opened with. */
  datatype Connection = Connection(dsn: string, username: string, passwd: string)

  /** A PDOStatement: the driver's handle for one prepared query. */
  datatype Statement = Statement(id: nat, query: string)

  /** One fetched row, as column/value pairs (an array, stdClass or model object). */
  type Row = seq<(string, string)>

  /** PDO::FETCH_ASSOC, PDO::FETCH_OBJ, or hydration into the named class. */
  datatype FetchMode = Assoc | Obj | Class(name: string)

  /** What PDO::prepare does: yield a statement, return false, or raise. */
  datatype PrepareOutcome = Prepared(id: nat) | PrepareFalse | PrepareRaises

  /** What one PDOStatement::fetch does: yield a row, find none left, or raise. */
  datatype FetchOutcome = Fetched(row: Row) | NoMoreRows | FetchRaises

  datatype Ret<T> = Value(value: T) | False | Null | Thrown

  /** The DSN passed to new PDO (line 58). */
  function Dsn(c: Config, database: string): string {
    c.driver + ":host=" + c.host + ";dbname=" + database + ";port=" + c.port
  }

  /** With no ';' in the entries, the DSN splits back into its three fields. */
  lemma DsnFields(c: Config, database: string)
    requires ';' !in c.driver + c.host + database + c.port
    ensures Split(Dsn(c, database), ';') == [c.driver + ":host=" + c.host, "dbname=" + database, "port=" + c.port]
  {
    var parts := [c.driver + ":host=" + c.host, "dbname=" + database, "port=" + c.port];
    assert Join(parts[2..], ';') == parts[2];
    assert Join(parts[1..], ';') == parts[1] + ";" + parts[2] by {
      assert parts[1..][1..] == parts[2..];
    }
    assert Join(parts, ';') == Dsn(c, database);
    assert ';' !in c.driver && ';' !in c.host && ';' !in database && ';' !in c.port;
    SplitJoin(parts, ';');
  }

  function Open(c: Config, database: string): Connection {
    Connection(Dsn(c, database), c.username, c.passwd)
  }

  /** The connection after the `empty($this->instance)` test: memoised once opened. */
  function Memoised(before: Option<Connection>, connects: bool, c: Config, database: string): Option<Connection> {
    if before.Some? then before else if connects then Some(Open(c, database)) else None
  }

  /** PHP empty() on a string-or-null: null, "" and "0". */
  predicate Empty(s: Option<string>) {
    s.None? || s.value == "" || s.value == "0"
  }

  /**
   * `empty($prepare) ? $this->prepare : $prepare`; an empty argument (null,
   * false) is None, and a stored `false` from a failed prepare is None too.
   */
  function PickStatement(arg: Option<Statement>, last: Option<Statement>): (r: Option<Statement>)
    ensures r == arg || r == last
    ensures arg.Some? ==> r == arg
    ensures r.None? <==> arg.None? && last.None?
  {
    if arg.None? then last else arg
  }

  /** directory_models . (empty($class) ? $this->classModel : $class) */
  function ModelClass(directory: string, cls: Option<string>, classModel: string): string {
    directory + if Empty(cls) then classModel else cls.value
  }

  /** fetchAll through the picked handle: rows, or the catch's null. */
  function AllRows(target: Option<Statement>, mode: FetchMode,
                   fetchAll: (Statement, FetchMode) -> Option<seq<Row>>): (r: Ret<seq<Row>>)
    ensures r.Thrown? <==> target.None?
    ensures r.Value? ==> target.Some? && fetchAll(target.value, mode).Some? && r == Value(fetchAll(target.value, mode).value)
    ensures target.Some? ==>
      r == if fetchAll(target.value, mode).Some? then Value(fetchAll(target.value, mode).value) else Null
    ensures r.False? ==> false
  {
    match target
    case None => Thrown
    case Some(s) =>
      match fetchAll(s, mode)
      case Some(rows) => Value(rows)
      case None => Null
  }

  /**
   * A single fetch as written: the `false` PDO returns on an exhausted
   * cursor is not accepted by the declared nullable array/object return
   * type, so it ends in a TypeError.
   */
  function OneRowAsWritten(target: Option<Statement>, mode: FetchMode,
                           fetch: (Statement, FetchMode) -> FetchOutcome): (r: Ret<Row>)
    ensures r.False? ==> false
    ensures target.Some? && fetch(target.value, mode).NoMoreRows? ==> r.Thrown?
  {
    match target
    case None => Thrown
    case Some(s) =>
      match fetch(s, mode)
      case Fetched(row) => Value(row)
      case NoMoreRows => Thrown
      case FetchRaises => Null
  }

  /** A single fetch as documented: `false` at the end of the rows. */
  function OneRow(target: Option<Statement>, mode: FetchMode,
                  fetch: (Statement, FetchMode) -> FetchOutcome): (r: Ret<Row>)
  {
    match target
    case None => Thrown
    case Some(s) =>
      match fetch(s, mode)
      case Fetched(row) => Value(row)
      case NoMoreRows => False
      case FetchRaises => Null
  }

  /** The as-written fetch cannot report an exhausted cursor: it raises instead. */
  lemma ExhaustedCursorThrows(s: Statement, mode: FetchMode, fetch: (Statement, FetchMode) -> FetchOutcome)
    requires fetch(s, mode) == NoMoreRows
    ensures OneRowAsWritten(Some(s), mode, fetch) == Thrown
    ensures OneRow(Some(s), mode, fetch) == False
  {
  }

  /**
   * The corrected fetch tells the three outcomes apart: a row, the end of
   * the rows, and a driver failure; and it agrees with the as-written one
   * everywhere except at the end of the rows.
   */
  lemma OneRowOutcomes(target: Option<Statement>, mode: FetchMode, fetch: (Statement, FetchMode) -> FetchOutcome)
    ensures OneRow(target, mode, fetch).Thrown? <==> target.None?
    ensures target.Some? ==>
      (OneRow(target, mode, fetch).Value? <==> fetch(target.value, mode).Fetched?) &&
      (fetch(target.value, mode).Fetched? ==> OneRow(target, mode, fetch) == Value(fetch(target.value, mode).row)) &&
      (OneRow(target, mode, fetch) == False <==> fetch(target.value, mode).NoMoreRows?) &&
      (OneRow(target, mode, fetch) == Null <==> fetch(target.value, mode).FetchRaises?)
    ensures OneRow(target, mode, fetch) != OneRowAsWritten(target, mode, fetch) <==>
      target.Some? && fetch(target.value, mode).NoMoreRows?
  {
  }

  /** rowCount through the picked handle; the catch's `false` becomes 0 under ?int. */
  function Rows(target: Option<Statement>, rowCount: Statement -> Option<int>): (r: Ret<int>)
    ensures r.Thrown? <==> target.None?
    ensures target.Some? && rowCount(target.value).None? ==> r == Value(0)
    ensures target.Some? && rowCount(target.value).Some? ==> r == Value(rowCount(target.value).value)
  {
    match target
    case None => Thrown
    case Some(s) =>
      match rowCount(s)
      case Some(n) => Value(n)
      case None => Value(0)
  }

  class Session {
    const config: Config
    const serverName: string
    const classModel: string

    var instance: Option<Connection>
    var database: string
    var prepare: Option<Statement>
    var logSql: Option<string>
    var resultArray: seq<Row>

    /** How many times the suffix rule has appended to the configured name. */
    ghost var appended: nat

    /**
     * The database name is the configured one plus some copies of the
     * suffix, and at most one copy when the name settles.
     */
    ghost predicate Valid()
      reads this
    {
      database == config.dbname + Repeat(Suffix(config.homologation), appended) &&
      (Settles(config.dbname, config.homologation) ==> appended <= 1)
    }

    constructor (config: Config, serverName: string, classModel: string)
      ensures Valid()
      ensures this.config == config && this.serverName == serverName && this.classModel == classModel
      ensures instance == None && database == config.dbname && prepare == None
      ensures logSql == None && resultArray == []
    {
      this.config := config;
      this.serverName := serverName;
      this.classModel := classModel;
      instance := None;
      database := config.dbname;
      prepare := None;
      logSql := None;
      resultArray := [];
      appended := 0;
    }

    /**
     * getInstance: apply the suffix rule to the current name, then open a
     * connection if none is held (`connects` says whether new PDO succeeds).
     */
    method GetInstance(connects: bool) returns (r: Option<Connection>)
      requires Valid()
      modifies this`database, this`instance, this`appended
      ensures Valid()
      ensures database == ResolveDatabase(serverName, config.homologation, old(database))
      ensures instance == Memoised(old(instance), connects, config, database)
      ensures r == instance
    {
      SuffixBound(config.dbname, config.homologation, appended);
      if ShouldAppend(serverName, config.homologation, database) {
        database := database + Suffix(config.homologation);
        appended := appended + 1;
      }
      if instance.None? && connects {
        instance := Some(Open(config, database));
      }
      r := instance;
    }

    lemma SuffixBound(dbname: string, marker: string, k: nat)
      requires Settles(dbname, marker) ==> k <= 1
      ensures ShouldAppend(serverName, marker, dbname + Repeat(Suffix(marker), k)) && Settles(dbname, marker) ==> k == 0
      ensures dbname + Repeat(Suffix(marker), k) + Suffix(marker) == dbname + Repeat(Suffix(marker), k + 1)
    {
      if Settles(dbname, marker) && k == 1 {
        assert Repeat(Suffix(marker), 1) == Suffix(marker);
        NoSecondAppend(serverName, marker, dbname);
      }
    }

    /** setLogSQL: store the reconstructed query text. */
    method SetLogSql(query: string, params: seq<SqlLog.Binding>)
      requires SqlLog.ValidParams(params)
      modifies this`logSql
      ensures logSql == Some(SqlLog.RenderForLog(query, params))
    {
      var sql := SqlLog.Reconstruct(query, params);
      logSql := Some(sql);
    }

    /**
     * executeSQL: prepare through getInstance, store the handle, execute it,
     * then log the reconstructed text and return the handle.
     */
    method ExecuteSql(query: string, params: seq<SqlLog.Binding>, connects: bool,
                      prepared: PrepareOutcome, executeRaises: bool) returns (r: Ret<Statement>)
      requires Valid() && SqlLog.ValidParams(params)
      modifies this`database, this`instance, this`appended, this`prepare, this`logSql
      ensures Valid()
      ensures database == ResolveDatabase(serverName, config.homologation, old(database))
      ensures instance == Memoised(old(instance), connects, config, database)
      ensures instance.None? ==> r == Thrown && prepare == old(prepare) && logSql == old(logSql)
      ensures instance.Some? && prepared.PrepareRaises? ==> r == False && prepare == old(prepare) && logSql == old(logSql)
      ensures instance.Some? && prepared.PrepareFalse? ==> r == Thrown && prepare == None && logSql == old(logSql)
      ensures instance.Some? && prepared.Prepared? ==> prepare == Some(Statement(prepared.id, query))
      ensures instance.Some? && prepared.Prepared? && executeRaises ==> r == False && logSql == old(logSql)
      ensures instance.Some? && prepared.Prepared? && !executeRaises ==>
        r == Value(Statement(prepared.id, query)) && logSql == Some(SqlLog.RenderForLog(query, params))
    {
      var conn := GetInstance(connects);
      if conn.None? {
        return Thrown;
      }
      match prepared
      case PrepareRaises =>
        r := False;
      case PrepareFalse =>
        prepare := None;
        r := Thrown;
      case Prepared(id) =>
        prepare := Some(Statement(id, query));
        if executeRaises {
          r := False;
        } else {
          SetLogSql(query, params);
          r := Value(Statement(id, query));
        }
    }

    /** count: rowCount on the given handle, or on the last prepared one. */
    method Count(handle: Option<Statement>, rowCount: Statement -> Option<int>) returns (r: Ret<int>)
      ensures r.Thrown? <==> handle.None? && prepare.None?
      ensures handle.Some? ==> r == Rows(handle, rowCount)
      ensures handle.None? ==> r == Rows(prepare, rowCount)
    {
      r := Rows(PickStatement(handle, prepare), rowCount);
    }

    /** fetchAll into resultArray; resultArray changes only when rows come back. */
    method FetchAllInto(handle: Option<Statement>, mode: FetchMode,
                        fetchAll: (Statement, FetchMode) -> Option<seq<Row>>) returns (r: Ret<seq<Row>>)
      modifies this`resultArray
      ensures r == AllRows(PickStatement(handle, prepare), mode, fetchAll)
      ensures resultArray == if r.Value? then r.value else old(resultArray)
    {
      var target := PickStatement(handle, prepare);
      if target.None? {
        return Thrown;
      }
      var rows := fetchAll(target.value, mode);
      if rows.None? {
        return Null;
      }
      resultArray := rows.value;
      r := Value(rows.value);
    }

    method FetchArrayAssoc(handle: Option<Statement>, fetchAll: (Statement, FetchMode) -> Option<seq<Row>>)
      returns (r: Ret<seq<Row>>)
      modifies this`resultArray
      ensures r == AllRows(PickStatement(handle, prepare), Assoc, fetchAll)
      ensures resultArray == if r.Value? then r.value else old(resultArray)
    {
      r := FetchAllInto(handle, Assoc, fetchAll);
    }

    method FetchArrayObj(handle: Option<Statement>, fetchAll: (Statement, FetchMode) -> Option<seq<Row>>)
      returns (r: Ret<seq<Row>>)
      modifies this`resultArray
      ensures r == AllRows(PickStatement(handle, prepare), Obj, fetchAll)
      ensures resultArray == if r.Value? then r.value else old(resultArray)
    {
      r := FetchAllInto(handle, Obj, fetchAll);
    }

    method FetchArrayClass(handle: Option<Statement>, cls: Option<string>,
                           fetchAll: (Statement, FetchMode) -> Option<seq<Row>>) returns (r: Ret<seq<Row>>)
      modifies this`resultArray
      ensures r == AllRows(PickStatement(handle, prepare),
                           Class(ModelClass(config.directoryModels, cls, classModel)), fetchAll)
      ensures resultArray == if r.Value? then r.value else old(resultArray)
    {
      r := FetchAllInto(handle, Class(ModelClass(config.directoryModels, cls, classModel)), fetchAll);
    }

    /** fetchOneAssoc: one row; resultArray is left alone. */
    method FetchOneAssoc(handle: Option<Statement>, fetch: (Statement, FetchMode) -> FetchOutcome)
      returns (r: Ret<Row>)
      ensures r == OneRow(PickStatement(handle, prepare), Assoc, fetch)
    {
      r := OneRow(PickStatement(handle, prepare), Assoc, fetch);
    }

    method FetchOneObj(handle: Option<Statement>, fetch: (Statement, FetchMode) -> FetchOutcome)
      returns (r: Ret<Row>)
      ensures r == OneRow(PickStatement(handle, prepare), Obj, fetch)
    {
      r := OneRow(PickStatement(handle, prepare), Obj, fetch);
    }

    method FetchOneClass(handle: Option<Statement>, cls: Option<string>,
                         fetch: (Statement, FetchMode) -> FetchOutcome) returns (r: Ret<Row>)
      ensures r == OneRow(PickStatement(handle, prepare),
                          Class(ModelClass(config.directoryModels, cls, classModel)), fetch)
    {
      r := OneRow(PickStatement(handle, prepare), Class(ModelClass(config.directoryModels, cls, classModel)), fetch);
    }

    /**
     * beginTrasaction, commitTransaction and rollBackTransaction: call the
     * driver on getInstance's result; `raises` says whether it throws.
     */
    method Transaction(connects: bool, raises: bool) returns (r: Ret<bool>)
      requires Valid()
      modifies this`database, this`instance, this`appended
      ensures Valid()
      ensures database == ResolveDatabase(serverName, config.homologation, old(database))
      ensures instance == Memoised(old(instance), connects, config, database)
      ensures r == if instance.None? then Thrown else if raises then Null else Value(true)
    {
      var conn := GetInstance(connects);
      if conn.None? {
        r := Thrown;
      } else if raises {
        r := Null;
      } else {
        r := Value(true);
      }
    }

    /** lastId: lastInsertId on getInstance's result; None is a raise. */
    method LastId(connects: bool, lastInsertId: Option<string>) returns (r: Ret<string>)
      requires Valid()
      modifies this`database, this`instance, this`appended
      ensures Valid()
      ensures database == ResolveDatabase(serverName, config.homologation, old(database))
      ensures instance == Memoised(old(instance), connects, config, database)
      ensures r == if instance.None? then Thrown else if lastInsertId.None? then Null else Value(lastInsertId.value)
    {
      var conn := GetInstance(connects);
      if conn.None? {
        r := Thrown;
      } else if lastInsertId.None? {
        r := Null;
      } else {
        r := Value(lastInsertId.value);
      }
    }
  }

  /**
   * Two getInstance calls in a row: once a connection is open the second
   * call returns that same connection, and a name that settles is
   * suffixed at most once.
   */
  method ConnectTwice(s: Session, first: bool, second: bool) returns (a: Option<Connection>, b: Option<Connection>)
    requires s.Valid() && s.instance.None? && s.database == s.config.dbname
    modifies s`database, s`instance, s`appended
    ensures s.Valid()
    ensures a.Some? ==> b == a
    ensures a.Some? ==> a.value.dsn == Dsn(s.config, ResolveDatabase(s.serverName, s.config.homologation, s.config.dbname))
    ensures Settles(s.config.dbname, s.config.homologation) ==>
      s.database == ResolveDatabase(s.serverName, s.config.homologation, s.config.dbname)
  {
    var db0 := s.database;
    a := s.GetInstance(first);
    b := s.GetInstance(second);
    if Settles(s.config.dbname, s.config.homologation) {
      ResolveIdempotent(s.serverName, s.config.homologation, db0);
    }
  }
}
