/** The connection set-up and column helpers of the `storage` package.

    `url.Parse`, pop's connection constructor, `Open`, pop's own transaction
    runner and the struct-to-columns reflection are not modelled; each is a
    function parameter or a value supplied by the caller.
 */
module Storage {
  import opened GoErrors

  const Postgres: string := "postgres"
  const PgxDriver: string := "pgx"
  const ParseContext: string := "parsing db connection url"
  const OpenContext: string := "opening database connection"
  const CheckContext: string := "checking database connection"
  const InvalidColumnPrefix: string := "Invalid column name "

  /** The `DB` part of the global configuration that `Dial` reads and writes;
      `driver` is the field the code also calls the dialect. */
  datatype DbConfig = DbConfig(driver: string, url: string, namespace: string)

  /** The part of a parsed `url.URL` that `Dial` uses. */
  datatype Url = Url(scheme: string)

  /** `pop.ConnectionDetails` as `Dial` fills it in. */
  datatype ConnectionDetails = ConnectionDetails(
    dialect: string,
    driver: string,
    url: string,
    options: map<string, string>)

  /** A `storage.Connection`: an identity for the wrapped `*pop.Connection`
      and pop's `TX` field (None for nil, i.e. no open transaction). */
  datatype Connection = Connection(id: nat, tx: Option<nat>)

  /** The configuration after `Dial` (it writes the resolved dialect back),
      the details handed to pop if it got that far, and the result. */
  datatype DialRun = DialRun(config: DbConfig, details: Option<ConnectionDetails>, conn: Result<Connection>)

  /** Whether the dialect must be taken from the URL scheme. */
  predicate NeedsScheme(db: DbConfig)
  {
    db.driver == "" && db.url != ""
  }

  /** Dialect resolution at the top of `Dial`: an empty dialect with a
      non-empty URL becomes the URL's scheme; a URL that does not parse is an
      error wrapped with "parsing db connection url". */
  function ResolveDialect(db: DbConfig, parseUrl: string -> Result<Url>): (r: Result<DbConfig>)
    ensures !NeedsScheme(db) ==> r == Ok(db)
    ensures NeedsScheme(db) ==> (r.Err? <==> parseUrl(db.url).Err?)
    ensures NeedsScheme(db) && parseUrl(db.url).Err? ==>
              r.error == Wrap(parseUrl(db.url).error, ParseContext)
    ensures NeedsScheme(db) && parseUrl(db.url).Ok? ==>
              r == Ok(db.(driver := parseUrl(db.url).value.scheme))
    ensures r.Ok? ==> r.value.url == db.url && r.value.namespace == db.namespace
  {
    if NeedsScheme(db) then
      match parseUrl(db.url)
      case Err(e) => Err(Wrap(e, ParseContext))
      case Ok(u) => Ok(db.(driver := u.scheme))
    else
      Ok(db)
  }

  /** The driver pop is asked for: pgx for PostgreSQL, empty (pop's default)
      for every other dialect. */
  function DriverFor(dialect: string): (d: string)
    ensures d == PgxDriver <==> dialect == Postgres
    ensures d == "" <==> dialect != Postgres
  {
    if dialect != Postgres then "" else PgxDriver
  }

  /** `Dial`: resolve the dialect, choose the driver, build the connection
      details, then create and open the connection. `newConnection` is
      `pop.NewConnection` and `open` is `Connection.Open`. */
  function Dial(
    db: DbConfig,
    parseUrl: string -> Result<Url>,
    newConnection: ConnectionDetails -> Result<Connection>,
    open: Connection -> Option<Error>): (r: DialRun)
    ensures r.details.None? <==> ResolveDialect(db, parseUrl).Err?
    ensures r.details.None? ==> r.config == db && r.conn == Err(ResolveDialect(db, parseUrl).error)
    ensures r.details.Some? ==>
              && r.config == ResolveDialect(db, parseUrl).value
              && r.details.value.dialect == r.config.driver
              && (r.details.value.driver == PgxDriver <==> r.config.driver == Postgres)
              && (r.details.value.driver == "" <==> r.config.driver != Postgres)
              && r.details.value.url == db.url
              && r.details.value.options == map[]
    ensures r.details.Some? && newConnection(r.details.value).Err? ==>
              r.conn == Err(Wrap(newConnection(r.details.value).error, OpenContext))
    ensures r.details.Some? && newConnection(r.details.value).Ok? ==>
              var c := newConnection(r.details.value).value;
              r.conn == (if open(c).Some? then Err(Wrap(open(c).value, CheckContext)) else Ok(c))
  {
    match ResolveDialect(db, parseUrl)
    case Err(e) => DialRun(db, None, Err(e))
    case Ok(cfg) =>
      var details := ConnectionDetails(cfg.driver, DriverFor(cfg.driver), cfg.url, map[]);
      var conn :=
        match newConnection(details)
        case Err(e) => Err(Wrap(e, OpenContext))
        case Ok(c) => if open(c).Some? then Err(Wrap(open(c).value, CheckContext)) else Ok(c);
      DialRun(cfg, Some(details), conn)
  }

  /** What pop's begin step hands back: the identity of the new
      `*pop.Connection` it creates and the number of its transaction. */
  datatype Begun = Begun(id: nat, tx: nat)

  /** Whether a new transaction was begun, which connection the callback
      received (None when it was never called), and the error returned. */
  datatype TxRun = TxRun(began: bool, calledWith: Option<Connection>, err: Option<Error>)

  /** `Connection.Transaction`: with no open transaction, pop begins one
      (`begin` is its result: the new connection with its transaction, or the
      error beginning it), runs `fn` on a connection wrapping it and settles it
      (`settle` maps the callback's error to what pop returns after commit or
      rollback); if beginning fails, `fn` is never called and pop's error is
      returned. Inside an open transaction, `fn` runs on the same connection. */
  function Transaction(
    c: Connection,
    begin: Result<Begun>,
    fn: Connection -> Option<Error>,
    settle: Option<Error> -> Option<Error>): (r: TxRun)
    ensures r.began <==> c.tx.None? && begin.Ok?
    ensures r.calledWith.Some? ==> r.calledWith.value.tx.Some?
    ensures r.calledWith.None? <==> c.tx.None? && begin.Err?
    ensures c.tx.Some? ==> r.calledWith == Some(c) && r.err == fn(c)
    ensures c.tx.None? && begin.Err? ==> r.err == Some(begin.error)
    ensures c.tx.None? && begin.Ok? ==>
              && r.calledWith == Some(Connection(begin.value.id, Some(begin.value.tx)))
              && r.err == settle(fn(r.calledWith.value))
  {
    if c.tx.Some? then
      TxRun(false, Some(c), fn(c))
    else
      match begin
      case Err(e) => TxRun(false, None, Some(e))
      case Ok(b) =>
        var inner := Connection(b.id, Some(b.tx));
        TxRun(true, Some(inner), settle(fn(inner)))
  }

  /** A transaction nested inside the callback of another never begins a
      second one: it reuses the connection it was given, whatever beginning a
      transaction would have returned. */
  lemma NestedTransactionReuses(
    c: Connection, begin: Result<Begun>, begin': Result<Begun>,
    fn: Connection -> Option<Error>, fn': Connection -> Option<Error>,
    settle: Option<Error> -> Option<Error>)
    requires Transaction(c, begin, fn, settle).calledWith.Some?
    ensures var outer := Transaction(c, begin, fn, settle);
            var inner := Transaction(outer.calledWith.value, begin', fn', settle);
            !inner.began && inner.calledWith == outer.calledWith
  {
  }

  // ---------------------------------------------------------------------------
  // getExcludedColumns

  /** The error `errors.Errorf("Invalid column name %s", f)`. */
  function InvalidColumn(f: string): Error
  {
    Error(InvalidColumnPrefix + f)
  }

  /** Reference definition of the first loop of `getExcludedColumns`: check
      each include name against the column set, removing it as it goes. */
  function Remaining(cols: set<string>, includeColumns: seq<string>): Result<set<string>>
    decreases |includeColumns|
  {
    if includeColumns == [] then Ok(cols)
    else if includeColumns[0] !in cols then Err(InvalidColumn(includeColumns[0]))
    else Remaining(cols - {includeColumns[0]}, includeColumns[1..])
  }

  ghost predicate Distinct(s: seq<string>)
  {
    forall i, j :: 0 <= i < j < |s| ==> s[i] != s[j]
  }

  /** `s` lists every member of `names` exactly once and nothing else. */
  ghost predicate Enumerates(s: seq<string>, names: set<string>)
  {
    && (forall i :: 0 <= i < |s| ==> s[i] in names)
    && (forall x :: x in names ==> x in s)
    && Distinct(s)
  }

  /** `xs` is |rem| empty strings followed by an enumeration of `rem`. */
  ghost predicate ExcludedShape(xs: seq<string>, rem: set<string>)
  {
    && |xs| == 2 * |rem|
    && (forall i :: 0 <= i < |rem| ==> xs[i] == "")
    && Enumerates(xs[|rem|..], rem)
  }

  /** The include list passes validation exactly when its names are distinct
      columns, and then the remaining set is the columns minus the include list. */
  lemma {:induction false} RemainingOkIff(cols: set<string>, includeColumns: seq<string>)
    ensures Remaining(cols, includeColumns).Ok? <==>
              Distinct(includeColumns) && forall i :: 0 <= i < |includeColumns| ==> includeColumns[i] in cols
    ensures Remaining(cols, includeColumns).Ok? ==>
              Remaining(cols, includeColumns).value == cols - set i | 0 <= i < |includeColumns| :: includeColumns[i]
    decreases |includeColumns|
  {
    if includeColumns != [] {
      var f, rest := includeColumns[0], includeColumns[1..];
      RemainingOkIff(cols - {f}, rest);
      var valid := Distinct(includeColumns) && forall i :: 0 <= i < |includeColumns| ==> includeColumns[i] in cols;
      if valid {
        forall i | 0 <= i < |rest| ensures rest[i] in cols - {f} {
          assert rest[i] == includeColumns[i + 1];
        }
        forall i, j | 0 <= i < j < |rest| ensures rest[i] != rest[j] {
          assert rest[i] == includeColumns[i + 1] && rest[j] == includeColumns[j + 1];
        }
      } else if f in cols && Distinct(rest) && forall i :: 0 <= i < |rest| ==> rest[i] in cols - {f} {
        // then includeColumns would be valid, a contradiction
        forall i | 0 <= i < |includeColumns| ensures includeColumns[i] in cols {
          if i > 0 { assert includeColumns[i] == rest[i - 1]; }
        }
        forall i, j | 0 <= i < j < |includeColumns| ensures includeColumns[i] != includeColumns[j] {
          if i > 0 {
            assert includeColumns[i] == rest[i - 1] && includeColumns[j] == rest[j - 1];
          } else {
            assert includeColumns[j] == rest[j - 1];
          }
        }
        assert false;
      }
      if Remaining(cols, includeColumns).Ok? {
        var tail := set i | 0 <= i < |rest| :: rest[i];
        var all := set i | 0 <= i < |includeColumns| :: includeColumns[i];
        assert all == {f} + tail by {
          forall x | x in all ensures x in {f} + tail {
            var i :| 0 <= i < |includeColumns| && includeColumns[i] == x;
            if i > 0 { assert rest[i - 1] == x; }
          }
          forall x | x in tail ensures x in all {
            var i :| 0 <= i < |rest| && rest[i] == x;
            assert includeColumns[i + 1] == x;
          }
        }
      }
    }
  }

  /** On failure the error names the first include entry that is not a column
      or repeats an earlier entry; every entry before it was a fresh column. */
  lemma {:induction false} RemainingErrNamesFirstBadEntry(cols: set<string>, includeColumns: seq<string>)
    requires Remaining(cols, includeColumns).Err?
    ensures exists k ::
              && 0 <= k < |includeColumns|
              && Remaining(cols, includeColumns).error == InvalidColumn(includeColumns[k])
              && (includeColumns[k] !in cols || includeColumns[k] in includeColumns[..k])
              && forall j :: 0 <= j < k ==> includeColumns[j] in cols && includeColumns[j] !in includeColumns[..j]
    decreases |includeColumns|
  {
    var f, rest := includeColumns[0], includeColumns[1..];
    if f in cols {
      RemainingErrNamesFirstBadEntry(cols - {f}, rest);
      var k :|
              && 0 <= k < |rest|
              && Remaining(cols - {f}, rest).error == InvalidColumn(rest[k])
              && (rest[k] !in cols - {f} || rest[k] in rest[..k])
              && forall j :: 0 <= j < k ==> rest[j] in cols - {f} && rest[j] !in rest[..j];
      assert includeColumns[k + 1] == rest[k];
      assert includeColumns[..k + 1] == [f] + rest[..k];
      forall j | 0 <= j < k + 1
        ensures includeColumns[j] in cols && includeColumns[j] !in includeColumns[..j]
      {
        if j > 0 {
          assert includeColumns[j] == rest[j - 1];
          assert includeColumns[..j] == [f] + rest[..j - 1];
        }
      }
    } else {
      assert includeColumns[..0] == [];
    }
  }

  /** A name given twice makes validation fail. */
  lemma RepeatedNameFails(cols: set<string>, includeColumns: seq<string>, i: int, j: int)
    requires 0 <= i < j < |includeColumns| && includeColumns[i] == includeColumns[j]
    ensures Remaining(cols, includeColumns).Err?
  {
    RemainingOkIff(cols, includeColumns);
  }

  /** `getExcludedColumns` over the model's column set `cols`. The result has
      |remaining| leading empty strings (from `make([]string, len)`) followed by
      every remaining column once, in an unspecified order (Go's map order). */
  method GetExcludedColumns(cols: set<string>, includeColumns: seq<string>) returns (r: Result<seq<string>>)
    ensures r.Err? <==> Remaining(cols, includeColumns).Err?
    ensures r.Err? ==> r.error == Remaining(cols, includeColumns).error
    ensures r.Ok? ==> Remaining(cols, includeColumns).Ok? &&
                      ExcludedShape(r.value, Remaining(cols, includeColumns).value)
  {
    var current := cols;
    var i := 0;
    while i < |includeColumns|
      invariant 0 <= i <= |includeColumns|
      invariant Remaining(cols, includeColumns) == Remaining(current, includeColumns[i..])
    {
      var f := includeColumns[i];
      if f !in current {
        return Err(InvalidColumn(f));
      }
      current := current - {f};
      i := i + 1;
    }
    var n := |current|;
    var xcols := seq(n, _ => "");
    var left := current;
    ghost var appended: seq<string> := [];
    while left != {}
      invariant left <= current
      invariant |appended| + |left| == n
      invariant xcols == seq(n, _ => "") + appended
      invariant forall k :: 0 <= k < |appended| ==> appended[k] in current && appended[k] !in left
      invariant forall x :: x in current && x !in left ==> x in appended
      invariant Distinct(appended)
      decreases left
    {
      var name :| name in left;
      xcols := xcols + [name];
      appended := appended + [name];
      left := left - {name};
    }
    assert xcols[n..] == appended;
    r := Ok(xcols);
  }

  /** The observable shape of a successful result: each non-empty entry is a
      column outside the include list and occurs exactly once; every such column
      occurs. */
  lemma ExcludedEntries(cols: set<string>, includeColumns: seq<string>, xs: seq<string>)
    requires Remaining(cols, includeColumns).Ok?
    requires ExcludedShape(xs, Remaining(cols, includeColumns).value)
    ensures forall c :: c != "" ==>
              (c in xs <==> c in cols && c !in includeColumns)
    ensures forall c :: c != "" && c in cols && c !in includeColumns ==> multiset(xs)[c] == 1
  {
    RemainingMembers(cols, includeColumns);
    ShapeMembers(xs, Remaining(cols, includeColumns).value);
  }

  /** The remaining set holds exactly the columns not in the include list. */
  lemma RemainingMembers(cols: set<string>, includeColumns: seq<string>)
    requires Remaining(cols, includeColumns).Ok?
    ensures forall c :: c in Remaining(cols, includeColumns).value <==> c in cols && c !in includeColumns
  {
  }

  /** A result of the excluded shape over `rem` lists each non-empty member of
      `rem` exactly once and no other non-empty string. */
  lemma ShapeMembers(xs: seq<string>, rem: set<string>)
    requires ExcludedShape(xs, rem)
    ensures forall c :: c != "" ==> (c in xs <==> c in rem)
    ensures forall c :: c != "" && c in rem ==> multiset(xs)[c] == 1
  {
    var n := |rem|;
    var head, tail := xs[..n], xs[n..];
    assert xs == head + tail;
    assert forall i :: 0 <= i < |head| ==> head[i] == "";
    forall c | c != "" ensures c in xs <==> c in rem {
      NonEmptyInTail(head, tail, c);
    }
    forall c | c != "" && c in rem ensures multiset(xs)[c] == 1 {
      NonEmptyInTail(head, tail, c);
      DistinctCountsOnce(tail, c);
    }
  }

  /** A non-empty string occurs in `head + tail`, where `head` holds only empty
      strings, exactly when it occurs in `tail`, and as often. */
  lemma NonEmptyInTail(head: seq<string>, tail: seq<string>, c: string)
    requires c != ""
    requires forall i :: 0 <= i < |head| ==> head[i] == ""
    ensures c in head + tail <==> c in tail
    ensures multiset(head + tail)[c] == multiset(tail)[c]
  {
  }

  /** In a sequence without repetitions a member occurs exactly once. */
  lemma {:induction false} DistinctCountsOnce(s: seq<string>, c: string)
    requires Distinct(s) && c in s
    ensures multiset(s)[c] == 1
    decreases |s|
  {
    assert s == [s[0]] + s[1..];
    if s[0] == c {
      assert c !in s[1..] by {
        forall j | 0 <= j < |s[1..]| ensures s[1..][j] != c {
          assert s[1..][j] == s[j + 1];
        }
      }
    } else {
      assert Distinct(s[1..]) by {
        forall i, j | 0 <= i < j < |s[1..]| ensures s[1..][i] != s[1..][j] {
          assert s[1..][i] == s[i + 1] && s[1..][j] == s[j + 1];
        }
      }
      DistinctCountsOnce(s[1..], c);
    }
  }
}
