/** The migration driver of cassandra.go: where each session connects
    (getCassandraSession), which tables are created and copied
    (TransferCassandraData), and the row-copy loop of one table (syncData). */
module Replication {
  import opened Wrappers
  import opened GoText
  import opened CqlLiteral
  import opened Statements

  // ---------------------------------------------------------------------------
  // Host and port

  /** The contact point a session is configured with. */
  datatype Endpoint = Endpoint(host: string, port: int64)

  /** The port a host without one is reached on. */
  const DefaultPort: int64 := 9042

  /** getCassandraSession's reading of its host argument: a host without a
      colon is used as is on the default port; otherwise the text before the
      first colon is the host and the second colon-separated piece must be an
      integer, the port. A piece that is not panics (Err holds that piece). */
  function ParseHost(host: string): (r: Result<Endpoint, string>)
    ensures ':' !in host ==> r == Ok(Endpoint(host, DefaultPort))
    ensures r.Ok? ==> ':' !in r.value.host
  {
    if ':' !in host then Ok(Endpoint(host, DefaultPort))
    else
      var pieces := Split(host, ':');
      match Atoi(pieces[1])
      case None => Err(pieces[1])
      case Some(p) => Ok(Endpoint(pieces[0], p))
  }

  /** A host, a colon and a port piece, possibly followed by further
      colon-separated text: the host is taken as is and the port piece decides
      alone between a port and a panic. */
  lemma ParseHostPieces(h: string, port: string, more: string)
    requires ':' !in h && ':' !in port
    requires more == "" || more[0] == ':'
    ensures ParseHost(h + ":" + port + more)
            == match Atoi(port)
               case None => Err(port)
               case Some(p) => Ok(Endpoint(h, p))
  {
    var s := h + ":" + port + more;
    assert s == h + [':'] + (port + more);
    SplitAtFirstSeparator(h, ':', port + more);
    if more == "" {
      assert port + more == port;
      SplitWithoutSeparator(port, ':');
    } else {
      assert port + more == port + [':'] + more[1..];
      SplitAtFirstSeparator(port, ':', more[1..]);
    }
  }

  /** A host written with an explicit port is read back as that host and port. */
  lemma ParseHostRoundTrip(h: string, p: int64)
    requires ':' !in h
    ensures ParseHost(h + ":" + Decimal(p as int)) == Ok(Endpoint(h, p))
  {
    DecimalHasNoColon(p as int);
    ParseHostPieces(h, Decimal(p as int), "");
    assert h + ":" + Decimal(p as int) + "" == h + ":" + Decimal(p as int);
    AtoiOfDecimal(p);
  }

  lemma DecimalHasNoColon(n: int)
    ensures ':' !in Decimal(n)
  {
    var d := Digits(if n < 0 then -n else n);
    assert forall i :: 0 <= i < |d| ==> d[i] != ':';
  }

  // ---------------------------------------------------------------------------
  // Which tables are created and copied

  /** Whether the table filter lets a table through: no filter, or its name. */
  predicate Selected(t: Table, tableToSync: string) {
    tableToSync == "" || t.name == tableToSync
  }

  /** The tables whose data is copied, in iteration order: every table the
      filter lets through. */
  function TablesToSync(tables: seq<Table>, tableToSync: string): (r: seq<Table>)
    ensures forall u :: u in r ==> u in tables && Selected(u, tableToSync)
    ensures forall u :: u in tables && Selected(u, tableToSync) ==> u in r
    ensures tableToSync == "" ==> r == tables
  {
    if |tables| == 0 then []
    else
      var rest := TablesToSync(tables[1..], tableToSync);
      assert tables == [tables[0]] + tables[1..];
      if Selected(tables[0], tableToSync) then [tables[0]] + rest else rest
  }

  /** The tables created in the target keyspace: all of them without a
      filter, and otherwise the first table of that name, after which the
      creation loop stops. */
  function TablesToCreate(tables: seq<Table>, tableToSync: string): (r: seq<Table>)
    ensures tableToSync == "" ==> r == tables
    ensures tableToSync != "" ==> |r| <= 1
    ensures forall u :: u in r ==> u in tables && Selected(u, tableToSync)
  {
    if tableToSync == "" then tables
    else if |tables| == 0 then []
    else if tables[0].name == tableToSync then [tables[0]]
    else TablesToCreate(tables[1..], tableToSync)
  }

  /** The table names of a keyspace are distinct: its tables are a map keyed
      by name. */
  ghost predicate DistinctNames(tables: seq<Table>) {
    forall i, j :: 0 <= i < j < |tables| ==> tables[i].name != tables[j].name
  }

  /** With distinct names the creation loop's early stop loses nothing: the
      tables created are exactly the tables copied. */
  lemma {:induction false} CreatedAreCopied(tables: seq<Table>, tableToSync: string)
    requires DistinctNames(tables)
    ensures TablesToCreate(tables, tableToSync) == TablesToSync(tables, tableToSync)
    decreases |tables|
  {
    if tableToSync != "" && |tables| > 0 {
      assert DistinctNames(tables[1..]) by {
        forall i, j | 0 <= i < j < |tables[1..]|
          ensures tables[1..][i].name != tables[1..][j].name
        {
          assert tables[1..][i] == tables[i + 1] && tables[1..][j] == tables[j + 1];
        }
      }
      CreatedAreCopied(tables[1..], tableToSync);
      if tables[0].name == tableToSync {
        NoneNamed(tables[1..], tableToSync, tables);
      }
    }
  }

  /** The creation loop and the copy loop range over the keyspace's table
      map separately, and Go may give each its own order: created is the
      order the first sees, copied the order the second sees. The tables
      created are still exactly the tables copied. */
  lemma CreatedAreCopiedAnyOrder(created: seq<Table>, copied: seq<Table>, tableToSync: string)
    requires DistinctNames(created)
    requires forall u :: u in created <==> u in copied
    ensures forall u :: u in TablesToCreate(created, tableToSync) <==> u in TablesToSync(copied, tableToSync)
  {
    CreatedAreCopied(created, tableToSync);
  }

  /** No later table carries the first table's name. */
  lemma NoneNamed(rest: seq<Table>, name: string, tables: seq<Table>)
    requires DistinctNames(tables) && 0 < |tables| && name != ""
    requires tables[0].name == name && rest == tables[1..]
    ensures TablesToSync(rest, name) == []
  {
    forall k | 0 <= k < |rest|
      ensures rest[k].name != name
    {
      assert rest[k] == tables[k + 1];
    }
    NoTableNamed(rest, name);
  }

  lemma {:induction false} NoTableNamed(tables: seq<Table>, name: string)
    requires name != "" && forall k :: 0 <= k < |tables| ==> tables[k].name != name
    ensures TablesToSync(tables, name) == []
    decreases |tables|
  {
    if |tables| > 0 {
      NoTableNamed(tables[1..], name);
    }
  }

  /** The statement createTable sends for a table: getCreateTableQuery in
      the target keyspace. */
  function CreateQuery(keyspace: string): Table -> string {
    t => CreateTable(keyspace, t)
  }

  lemma MapSeqNext<A, B>(f: A -> B, xs: seq<A>, i: nat)
    requires i < |xs|
    ensures MapSeq(f, xs[..i + 1]) == MapSeq(f, xs[..i]) + [f(xs[i])]
  {
  }

  lemma MapSeqPrefix<A, B>(f: A -> B, xs: seq<A>, k: nat)
    requires k <= |xs|
    ensures MapSeq(f, xs[..k]) == MapSeq(f, xs)[..k]
  {
  }

  /** The statements the creation phase sends: those of the tables to create,
      none when table creation is skipped. */
  function CreatePlan(build: Table -> string, tables: seq<Table>, tableToSync: string,
                      skipCreateTables: bool): seq<string> {
    if skipCreateTables then [] else MapSeq(build, TablesToCreate(tables, tableToSync))
  }

  /** The creation loop of TransferCassandraData. Each table the filter
      selects has its statement built (build is CreateQuery of the target
      keyspace) and sent; with a filter the loop stops after the first table
      of that name. A statement the target rejects panics, so nothing after it
      is sent; the target's verdict on a statement is the parameter rejects. */
  method CreateTables(build: Table -> string, tables: seq<Table>, tableToSync: string,
                      skipCreateTables: bool, rejects: string -> bool)
    returns (sent: seq<string>, failure: Option<string>)
    ensures SentUntilRejected(CreatePlan(build, tables, tableToSync, skipCreateTables), rejects, sent, failure)
  {
    sent := [];
    failure := None;
    if skipCreateTables {
      return;
    }
    ghost var plan := CreatePlan(build, tables, tableToSync, skipCreateTables);
    var i := 0;
    while i < |tables|
      invariant 0 <= i <= |tables|
      invariant tableToSync == "" ==> sent == MapSeq(build, tables[..i])
      invariant tableToSync != "" ==> sent == [] && TablesToCreate(tables, tableToSync) == TablesToCreate(tables[i..], tableToSync)
      invariant forall j :: 0 <= j < |sent| ==> !rejects(sent[j])
    {
      var table := tables[i];
      var named := tableToSync != "" && table.name == tableToSync;
      if named || tableToSync == "" {
        var q := build(table);
        CreateNext(build, tables, tableToSync, i, sent);
        sent := sent + [q];
        if rejects(q) {
          SentRejected(plan, rejects, sent);
          return sent, Some(q);
        }
        if named {
          break;
        }
      } else {
        FilterPass(tables, tableToSync, i);
      }
      i := i + 1;
    }
    CreateDone(build, tables, tableToSync, i, sent);
    SentAll(plan, rejects, sent);
  }

  /** Creating the i-th table extends what was sent as the plan says: by the
      next table without a filter, and by the named table alone with one. */
  lemma CreateNext(build: Table -> string, tables: seq<Table>, name: string, i: nat, sent: seq<string>)
    requires i < |tables| && (name == "" || tables[i].name == name)
    requires name == "" ==> sent == MapSeq(build, tables[..i])
    requires name != "" ==> sent == [] && TablesToCreate(tables, name) == TablesToCreate(tables[i..], name)
    ensures var plan := MapSeq(build, TablesToCreate(tables, name));
      var next := sent + [build(tables[i])];
      && |next| <= |plan| && next == plan[..|next|]
      && (name == "" ==> next == MapSeq(build, tables[..i + 1]))
      && (name != "" ==> next == plan)
  {
    if name == "" {
      MapSeqNext(build, tables, i);
      MapSeqPrefix(build, tables, i + 1);
    } else {
      FilterMatch(tables, name, i);
    }
  }

  /** A loop that ran out of tables, or stopped at the named one, has sent
      the whole plan. */
  lemma CreateDone(build: Table -> string, tables: seq<Table>, name: string, i: nat, sent: seq<string>)
    requires i <= |tables|
    requires name == "" ==> i == |tables| && sent == MapSeq(build, tables[..i])
    requires name != "" && i == |tables| ==> sent == [] && TablesToCreate(tables, name) == TablesToCreate(tables[i..], name)
    requires name != "" && i < |tables| ==> sent == MapSeq(build, TablesToCreate(tables, name))
    ensures sent == MapSeq(build, TablesToCreate(tables, name))
  {
    if name == "" {
      assert tables[..i] == tables;
    } else if i == |tables| {
      assert tables[i..] == [];
    }
  }

  /** What sending the statements of a plan in turn, up to the first one the
      target rejects, leaves: a prefix of the plan was sent, all of it when
      nothing failed, and otherwise the failure is the last statement sent,
      the only one rejected. */
  ghost predicate SentUntilRejected(plan: seq<string>, rejects: string -> bool,
                                    sent: seq<string>, failure: Option<string>) {
    && |sent| <= |plan| && sent == plan[..|sent|]
    && (forall j :: 0 <= j < |sent| - 1 ==> !rejects(sent[j]))
    && (failure.None? ==> sent == plan && forall j :: 0 <= j < |sent| ==> !rejects(sent[j]))
    && (failure.Some? ==> 0 < |sent| && failure.value == sent[|sent| - 1] && rejects(failure.value))
  }

  lemma SentRejected(plan: seq<string>, rejects: string -> bool, sent: seq<string>)
    requires 0 < |sent| <= |plan| && sent == plan[..|sent|] && rejects(sent[|sent| - 1])
    requires forall j :: 0 <= j < |sent| - 1 ==> !rejects(sent[j])
    ensures SentUntilRejected(plan, rejects, sent, Some(sent[|sent| - 1]))
  {
  }

  lemma SentAll(plan: seq<string>, rejects: string -> bool, sent: seq<string>)
    requires sent == plan && forall j :: 0 <= j < |sent| ==> !rejects(sent[j])
    ensures SentUntilRejected(plan, rejects, sent, None)
  {
  }

  /** The filtered creation loop reaching a table of that name creates it alone. */
  lemma FilterMatch(tables: seq<Table>, name: string, i: nat)
    requires name != "" && i < |tables| && tables[i].name == name
    requires TablesToCreate(tables, name) == TablesToCreate(tables[i..], name)
    ensures TablesToCreate(tables, name) == [tables[i]]
  {
  }

  /** The filtered creation loop passing a table of another name. */
  lemma FilterPass(tables: seq<Table>, name: string, i: nat)
    requires name != "" && i < |tables| && tables[i].name != name
    requires TablesToCreate(tables, name) == TablesToCreate(tables[i..], name)
    ensures TablesToCreate(tables, name) == TablesToCreate(tables[i + 1..], name)
  {
    assert tables[i..][1..] == tables[i + 1..];
  }

  // ---------------------------------------------------------------------------
  // Copying one table

  /** The flags that steer syncData. */
  datatype CopyConfig = CopyConfig(skipCreateTables: bool, skipRows: int, skipInsertRowErrors: bool)

  /** Why a copy stops early: a row that cannot be encoded panics, and so does
      a failed write when errors are not tolerated. */
  datatype Failure = Encoding(panic: Panic) | WriteFailed(statement: string)

  /** What the copy has done so far: the row count it keeps, the statements it
      has sent, and the panic that stopped it, if any. */
  datatype CopyState = CopyState(count: int, sent: seq<string>, failure: Option<Failure>)

  /** A failed write stops the copy only when neither table creation nor row
      errors are skipped. */
  predicate Strict(cfg: CopyConfig) {
    !cfg.skipCreateTables && !cfg.skipInsertRowErrors
  }

  /** One row of syncData's loop, given the row's statement. While the count
      is below skipRows the row is only counted and its statement never built;
      after that a statement that panics stops the copy, and a non-empty one is
      counted and sent. writeFails is the target's answer to that write. */
  function Step(cfg: CopyConfig, st: CopyState, statement: Result<string, Panic>, writeFails: bool): CopyState {
    if st.failure.Some? then st
    else if st.count >= cfg.skipRows then
      match statement
      case Err(p) => st.(failure := Some(Encoding(p)))
      case Ok(q) =>
        if q == "" then st
        else if writeFails && Strict(cfg) then CopyState(st.count + 1, st.sent + [q], Some(WriteFailed(q)))
        else CopyState(st.count + 1, st.sent + [q], None)
    else st.(count := st.count + 1)
  }

  /** The copy of rows whose statements are stmts, in scan order, the i-th
      write answered by fails[i]. */
  function Run(cfg: CopyConfig, stmts: seq<Result<string, Panic>>, fails: seq<bool>): (r: CopyState)
    requires |fails| == |stmts|
    ensures 0 <= r.count
  {
    if |stmts| == 0 then CopyState(0, [], None)
    else
      var n := |stmts| - 1;
      Step(cfg, Run(cfg, stmts[..n], fails[..n]), stmts[n], fails[n])
  }

  lemma RunNext(cfg: CopyConfig, stmts: seq<Result<string, Panic>>, fails: seq<bool>, i: nat)
    requires |fails| == |stmts| && i < |stmts|
    ensures Run(cfg, stmts[..i + 1], fails[..i + 1]) == Step(cfg, Run(cfg, stmts[..i], fails[..i]), stmts[i], fails[i])
  {
    assert stmts[..i + 1][..i] == stmts[..i];
    assert fails[..i + 1][..i] == fails[..i];
  }

  /** The same for the rows from s on. */
  lemma RunSliceNext(cfg: CopyConfig, stmts: seq<Result<string, Panic>>, fails: seq<bool>, s: nat, k: nat)
    requires |fails| == |stmts| && s <= k < |stmts|
    ensures Run(cfg, stmts[s..k + 1], fails[s..k + 1]) == Step(cfg, Run(cfg, stmts[s..k], fails[s..k]), stmts[k], fails[k])
  {
    assert stmts[s..k + 1][..k - s] == stmts[s..k];
    assert fails[s..k + 1][..k - s] == fails[s..k];
  }

  /** Once stopped, later rows change nothing. */
  lemma {:induction false} RunStopped(cfg: CopyConfig, stmts: seq<Result<string, Panic>>, fails: seq<bool>, i: nat)
    requires |fails| == |stmts| && i <= |stmts|
    requires Run(cfg, stmts[..i], fails[..i]).failure.Some?
    ensures Run(cfg, stmts, fails) == Run(cfg, stmts[..i], fails[..i])
    decreases |stmts|
  {
    if i < |stmts| {
      var n := |stmts| - 1;
      assert stmts[..n][..i] == stmts[..i] && fails[..n][..i] == fails[..i];
      RunStopped(cfg, stmts[..n], fails[..n], i);
    } else {
      assert stmts[..i] == stmts && fails[..i] == fails;
    }
  }

  /** The statement getInsertDataQuery gives a row of the table, in the
      target keyspace. */
  function InsertQuery(keyspace: string, t: Table): Row -> Result<string, Panic> {
    row => InsertStatement(keyspace, t, row)
  }

  /** syncData: scans the rows, counts the skipped ones, builds the INSERT of
      each later row (build is InsertQuery of the target keyspace and table),
      sends each non-empty one, and stops at a row that cannot be encoded or
      at a failed write that is not tolerated. */
  method CopyTable(build: Row -> Result<string, Panic>, cfg: CopyConfig, rows: seq<Row>, fails: seq<bool>)
    returns (count: int, sent: seq<string>, failure: Option<Failure>)
    requires |fails| == |rows|
    ensures CopyState(count, sent, failure) == Run(cfg, MapSeq(build, rows), fails)
  {
    ghost var stmts := MapSeq(build, rows);
    count := 0;
    sent := [];
    failure := None;
    var i := 0;
    while i < |rows|
      invariant 0 <= i <= |rows|
      invariant CopyState(count, sent, None) == Run(cfg, stmts[..i], fails[..i])
    {
      RunNext(cfg, stmts, fails, i);
      if count >= cfg.skipRows {
        var q := build(rows[i]);
        if q.Err? {
          failure := Some(Encoding(q.error));
          RunStopped(cfg, stmts, fails, i + 1);
          return;
        }
        if q.value != "" {
          count := count + 1;
          sent := sent + [q.value];
          if fails[i] && !cfg.skipCreateTables {
            if !cfg.skipInsertRowErrors {
              failure := Some(WriteFailed(q.value));
              RunStopped(cfg, stmts, fails, i + 1);
              return;
            }
          }
        }
      } else {
        count := count + 1;
      }
      i := i + 1;
    }
    assert stmts[..i] == stmts && fails[..i] == fails;
  }

  // ---------------------------------------------------------------------------
  // What a copy amounts to

  /** How many leading rows are only counted: skipRows, clamped to the rows
      there are; none for a negative skipRows. */
  function Skipped(cfg: CopyConfig, n: nat): (s: nat)
    ensures s <= n
    ensures cfg.skipRows <= 0 ==> s == 0
    ensures 0 < cfg.skipRows <= n ==> s == cfg.skipRows
    ensures n < cfg.skipRows ==> s == n
  {
    if cfg.skipRows <= 0 then 0 else if cfg.skipRows < n then cfg.skipRows else n
  }

  /** The non-empty statements in order; the first panic instead, if any. */
  function Writes(stmts: seq<Result<string, Panic>>): Result<seq<string>, Panic> {
    if |stmts| == 0 then Ok([])
    else
      var n := |stmts| - 1;
      match Writes(stmts[..n])
      case Err(p) => Err(p)
      case Ok(ws) =>
        match stmts[n]
        case Err(p) => Err(p)
        case Ok(q) => Ok(if q == "" then ws else ws + [q])
  }

  /** The copy with nothing skipped. */
  function Unskipped(cfg: CopyConfig): CopyConfig {
    cfg.(skipRows := 0)
  }

  /** The state with k more rows counted. */
  function Shift(st: CopyState, k: nat): CopyState {
    st.(count := st.count + k)
  }

  /** Without skipping, the count is the number of statements sent, and a copy
      that does not stop has sent the non-empty statements of all rows. */
  lemma {:induction false} RunUnskipped(cfg: CopyConfig, stmts: seq<Result<string, Panic>>, fails: seq<bool>)
    requires |fails| == |stmts| && cfg.skipRows <= 0
    ensures var r := Run(cfg, stmts, fails);
      && r.count == |r.sent|
      && (r.failure.None? ==> Writes(stmts) == Ok(r.sent))
    decreases |stmts|
  {
    if |stmts| > 0 {
      var n := |stmts| - 1;
      RunUnskipped(cfg, stmts[..n], fails[..n]);
    }
  }

  /** While skipping, rows are only counted. */
  lemma {:induction false} RunWhileSkipping(cfg: CopyConfig, stmts: seq<Result<string, Panic>>, fails: seq<bool>, k: nat)
    requires |fails| == |stmts| && k <= Skipped(cfg, |stmts|)
    ensures Run(cfg, stmts[..k], fails[..k]) == CopyState(k, [], None)
    decreases k
  {
    if k > 0 {
      RunWhileSkipping(cfg, stmts, fails, k - 1);
      RunNext(cfg, stmts, fails, k - 1);
    }
  }

  /** One row past the skipped ones steps alike with and without skipping. */
  lemma StepShift(cfg: CopyConfig, st: CopyState, s: nat, statement: Result<string, Panic>, writeFails: bool)
    requires 0 <= st.count && cfg.skipRows <= s
    ensures Step(cfg, Shift(st, s), statement, writeFails) == Shift(Step(Unskipped(cfg), st, statement, writeFails), s)
  {
  }

  /** After the skipped rows, the copy proceeds as a copy of the remaining
      rows with nothing skipped, each state carrying the skipped rows in its
      count. */
  lemma {:induction false} RunAfterSkipping(cfg: CopyConfig, stmts: seq<Result<string, Panic>>, fails: seq<bool>, k: nat)
    requires |fails| == |stmts|
    requires Skipped(cfg, |stmts|) <= k <= |stmts|
    ensures var s := Skipped(cfg, |stmts|);
      Run(cfg, stmts[..k], fails[..k]) == Shift(Run(Unskipped(cfg), stmts[s..k], fails[s..k]), s)
    decreases k
  {
    var s := Skipped(cfg, |stmts|);
    if k == s {
      RunWhileSkipping(cfg, stmts, fails, k);
      assert stmts[s..k] == [] && fails[s..k] == [];
    } else {
      RunAfterSkipping(cfg, stmts, fails, k - 1);
      ShiftedStep(cfg, stmts, fails, s, k - 1);
    }
  }

  /** One more row past the skipped ones keeps the copy the shifted copy
      without skipping. */
  lemma ShiftedStep(cfg: CopyConfig, stmts: seq<Result<string, Panic>>, fails: seq<bool>, s: nat, k: nat)
    requires |fails| == |stmts| && cfg.skipRows <= s <= k < |stmts|
    requires Run(cfg, stmts[..k], fails[..k]) == Shift(Run(Unskipped(cfg), stmts[s..k], fails[s..k]), s)
    ensures Run(cfg, stmts[..k + 1], fails[..k + 1]) == Shift(Run(Unskipped(cfg), stmts[s..k + 1], fails[s..k + 1]), s)
  {
    RunNext(cfg, stmts, fails, k);
    RunSliceNext(Unskipped(cfg), stmts, fails, s, k);
    StepShift(cfg, Run(Unskipped(cfg), stmts[s..k], fails[s..k]), s, stmts[k], fails[k]);
  }

  /** The skipped rows are never encoded or sent: the copy sends what a copy
      of the remaining rows without skipping sends, stops for the same reason,
      and counts the skipped rows on top. */
  lemma SkippedRowsIgnored(cfg: CopyConfig, stmts: seq<Result<string, Panic>>, fails: seq<bool>)
    requires |fails| == |stmts|
    ensures var s := Skipped(cfg, |stmts|);
      Run(cfg, stmts, fails) == Shift(Run(Unskipped(cfg), stmts[s..], fails[s..]), s)
  {
    RunAfterSkipping(cfg, stmts, fails, |stmts|);
    assert stmts[..|stmts|] == stmts && fails[..|stmts|] == fails;
  }

  /** The final count is the skipped rows plus the statements sent, and a copy
      that does not stop has sent exactly the non-empty statements of the rows
      after the skipped ones, in order. */
  lemma CopyCount(cfg: CopyConfig, stmts: seq<Result<string, Panic>>, fails: seq<bool>)
    requires |fails| == |stmts|
    ensures var s := Skipped(cfg, |stmts|);
      var r := Run(cfg, stmts, fails);
      && r.count == s + |r.sent|
      && (r.failure.None? ==> Writes(stmts[s..]) == Ok(r.sent))
  {
    var s := Skipped(cfg, |stmts|);
    SkippedRowsIgnored(cfg, stmts, fails);
    RunUnskipped(Unskipped(cfg), stmts[s..], fails[s..]);
  }

  /** A failed write stops the copy only under the strict policy, and the
      statement it reports is the last one sent. */
  lemma {:induction false} WriteFailureNeedsStrict(cfg: CopyConfig, stmts: seq<Result<string, Panic>>, fails: seq<bool>)
    requires |fails| == |stmts|
    ensures var r := Run(cfg, stmts, fails);
      r.failure.Some? && r.failure.value.WriteFailed? ==>
        Strict(cfg) && 0 < |r.sent| && r.failure.value.statement == r.sent[|r.sent| - 1]
    decreases |stmts|
  {
    if |stmts| > 0 {
      var n := |stmts| - 1;
      WriteFailureNeedsStrict(cfg, stmts[..n], fails[..n]);
    }
  }

  /** Under the lenient policies, or when no write fails, the copy stops only
      for a statement that panics. */
  lemma {:induction false} StopsOnlyOnEncoding(cfg: CopyConfig, stmts: seq<Result<string, Panic>>, fails: seq<bool>)
    requires |fails| == |stmts|
    requires !Strict(cfg) || forall i :: 0 <= i < |fails| ==> !fails[i]
    ensures var r := Run(cfg, stmts, fails);
      r.failure.Some? ==> r.failure.value.Encoding?
    decreases |stmts|
  {
    if |stmts| > 0 {
      var n := |stmts| - 1;
      StopsOnlyOnEncoding(cfg, stmts[..n], fails[..n]);
    }
  }

  /** When every row after the skipped ones gives a non-empty statement and
      the copy does not stop, every row is counted. */
  lemma EveryRowCounted(cfg: CopyConfig, stmts: seq<Result<string, Panic>>, fails: seq<bool>)
    requires |fails| == |stmts|
    requires forall i :: Skipped(cfg, |stmts|) <= i < |stmts| ==> stmts[i].Ok? && stmts[i].value != ""
    requires Run(cfg, stmts, fails).failure.None?
    ensures Run(cfg, stmts, fails).count == |stmts|
  {
    var s := Skipped(cfg, |stmts|);
    CopyCount(cfg, stmts, fails);
    WritesAllNonEmpty(stmts[s..]);
  }

  /** A copy counts at most one per row. */
  lemma {:induction false} RunCountBound(cfg: CopyConfig, stmts: seq<Result<string, Panic>>, fails: seq<bool>)
    requires |fails| == |stmts|
    ensures Run(cfg, stmts, fails).count <= |stmts|
    decreases |stmts|
  {
    if |stmts| > 0 {
      var n := |stmts| - 1;
      RunCountBound(cfg, stmts[..n], fails[..n]);
    }
  }

  /** Once past the skipped rows, the count has reached skipRows. */
  lemma PastSkipped(cfg: CopyConfig, stmts: seq<Result<string, Panic>>, fails: seq<bool>, i: nat)
    requires |fails| == |stmts| && Skipped(cfg, |stmts|) <= i < |stmts|
    ensures Run(cfg, stmts[..i], fails[..i]).count >= cfg.skipRows
  {
    RunAfterSkipping(cfg, stmts, fails, i);
  }

  /** Under the strict policy, the first row past the skipped ones whose
      non-empty statement fails to be written stops the copy, reporting that
      statement as the last one sent. */
  lemma StrictStopsAtFailedWrite(cfg: CopyConfig, stmts: seq<Result<string, Panic>>, fails: seq<bool>, i: nat, q: string)
    requires |fails| == |stmts| && Strict(cfg)
    requires Skipped(cfg, |stmts|) <= i < |stmts|
    requires Run(cfg, stmts[..i], fails[..i]).failure.None?
    requires stmts[i] == Ok(q) && q != "" && fails[i]
    ensures var r := Run(cfg, stmts, fails);
      r.failure == Some(WriteFailed(q)) && 0 < |r.sent| && r.sent[|r.sent| - 1] == q
  {
    PastSkipped(cfg, stmts, fails, i);
    RunNext(cfg, stmts, fails, i);
    RunStopped(cfg, stmts, fails, i + 1);
  }

  /** A copy that stops has a first row at which it stops. */
  lemma {:induction false} FirstStop(cfg: CopyConfig, stmts: seq<Result<string, Panic>>, fails: seq<bool>)
    requires |fails| == |stmts| && Run(cfg, stmts, fails).failure.Some?
    ensures exists i :: 0 <= i < |stmts| && Run(cfg, stmts[..i], fails[..i]).failure.None?
                                         && Run(cfg, stmts[..i + 1], fails[..i + 1]).failure.Some?
    decreases |stmts|
  {
    var n := |stmts| - 1;
    if Run(cfg, stmts[..n], fails[..n]).failure.Some? {
      FirstStop(cfg, stmts[..n], fails[..n]);
      var i :| 0 <= i < n && Run(cfg, stmts[..n][..i], fails[..n][..i]).failure.None?
                          && Run(cfg, stmts[..n][..i + 1], fails[..n][..i + 1]).failure.Some?;
      assert stmts[..n][..i] == stmts[..i] && fails[..n][..i] == fails[..i];
      assert stmts[..n][..i + 1] == stmts[..i + 1] && fails[..n][..i + 1] == fails[..i + 1];
    } else {
      assert stmts[..n + 1] == stmts && fails[..n + 1] == fails;
    }
  }

  /** What a copy that stops at row i has done: the row is past the skipped
      ones; the copy has sent the non-empty statements of the rows before it,
      and, when the row's write failed under the strict policy, that row's
      statement too; a panicking statement is reported as such; the count is
      the skipped rows plus the statements sent. */
  lemma StoppedAt(cfg: CopyConfig, stmts: seq<Result<string, Panic>>, fails: seq<bool>, i: nat)
    requires |fails| == |stmts| && i < |stmts|
    requires Run(cfg, stmts[..i], fails[..i]).failure.None?
    requires Run(cfg, stmts[..i + 1], fails[..i + 1]).failure.Some?
    ensures var s := Skipped(cfg, |stmts|);
      var r := Run(cfg, stmts, fails);
      && s <= i && Writes(stmts[s..i]).Ok? && r.count == s + |r.sent|
      && match stmts[i]
         case Err(p) => r.failure == Some(Encoding(p)) && r.sent == Writes(stmts[s..i]).value
         case Ok(q) => Strict(cfg) && fails[i] && q != "" && r.failure == Some(WriteFailed(q))
                       && r.sent == Writes(stmts[s..i]).value + [q]
  {
    var s := Skipped(cfg, |stmts|);
    RunNext(cfg, stmts, fails, i);
    RunStopped(cfg, stmts, fails, i + 1);
    RunCountBound(cfg, stmts[..i], fails[..i]);
    assert Skipped(cfg, i) == s;
    CopyCount(cfg, stmts[..i], fails[..i]);
    assert stmts[..i][s..] == stmts[s..i];
  }

  /** Statements that are all non-empty give one write each. */
  lemma {:induction false} WritesAllNonEmpty(stmts: seq<Result<string, Panic>>)
    requires forall i :: 0 <= i < |stmts| ==> stmts[i].Ok? && stmts[i].value != ""
    ensures Writes(stmts).Ok? && |Writes(stmts).value| == |stmts|
    decreases |stmts|
  {
    if |stmts| > 0 {
      var n := |stmts| - 1;
      WritesAllNonEmpty(stmts[..n]);
    }
  }
}
