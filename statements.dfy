/** The statement builders of cassandra.go: CREATE TABLE from a table's
    metadata (getCreateTableQuery), and INSERT from one row
    (getTableColumnsName, getInsertDataQuery). */
module Statements {
  import opened Wrappers
  import opened GoText
  import opened Timestamps
  import opened CqlLiteral

  /** The fields of gocql's ColumnMetadata the builders read. */
  datatype Column = Column(name: string, validator: string, order: bool, clusteringOrder: string)

  /** The fields of gocql's TableMetadata the builders read. The columns are
      listed in the order Go's iteration over the column map yields them; the
      partition and clustering keys in metadata order. */
  datatype Table = Table(name: string, columns: seq<Column>,
                         partitionKey: seq<string>, clusteringColumns: seq<string>)

  // ---------------------------------------------------------------------------
  // Order-preserving selection, used for the ordered clustering columns and for
  // the columns an INSERT keeps.

  /** keep applied to each element, in order. */
  function Flags<T>(keep: T -> bool, xs: seq<T>): (r: seq<bool>)
    ensures |r| == |xs|
  {
    if |xs| == 0 then [] else Flags(keep, xs[..|xs| - 1]) + [keep(xs[|xs| - 1])]
  }

  /** The elements of xs whose flag is set, in order. */
  function Select<T>(xs: seq<T>, flags: seq<bool>): (r: seq<T>)
    requires |flags| == |xs|
    ensures |r| <= |xs|
  {
    if |xs| == 0 then []
    else
      var n := |xs| - 1;
      Select(xs[..n], flags[..n]) + (if flags[n] then [xs[n]] else [])
  }

  /** The positions of the set flags, in increasing order. */
  function Marked(flags: seq<bool>): (r: seq<nat>)
    ensures |r| <= |flags|
    ensures forall j :: 0 <= j < |r| ==> r[j] < |flags| && flags[r[j]]
    ensures forall j, k :: 0 <= j < k < |r| ==> r[j] < r[k]
    ensures forall i :: 0 <= i < |flags| && flags[i] ==> i in r
  {
    if |flags| == 0 then []
    else
      var r := Marked(flags[..|flags| - 1]);
      if flags[|flags| - 1] then r + [|flags| - 1] else r
  }

  /** The positions of the elements of xs that keep accepts. */
  function Positions<T>(keep: T -> bool, xs: seq<T>): seq<nat> {
    Marked(Flags(keep, xs))
  }

  /** The elements of xs at the given positions. */
  function Pick<T>(xs: seq<T>, positions: seq<nat>): (r: seq<T>)
    requires forall j :: 0 <= j < |positions| ==> positions[j] < |xs|
    ensures |r| == |positions|
    ensures forall j :: 0 <= j < |positions| ==> r[j] == xs[positions[j]]
  {
    seq(|positions|, j requires 0 <= j < |positions| => xs[positions[j]])
  }

  lemma {:induction false} FlagsAt<T>(keep: T -> bool, xs: seq<T>)
    ensures forall i :: 0 <= i < |xs| ==> Flags(keep, xs)[i] == keep(xs[i])
    decreases |xs|
  {
    if |xs| > 0 {
      var n := |xs| - 1;
      FlagsAt(keep, xs[..n]);
      assert forall i :: 0 <= i < n ==> xs[..n][i] == xs[i];
    }
  }

  /** The positions keep selects are exactly those of the elements it accepts,
      in increasing order. */
  lemma PositionsExactly<T>(keep: T -> bool, xs: seq<T>)
    ensures var ps := Positions(keep, xs);
      && (forall j :: 0 <= j < |ps| ==> ps[j] < |xs| && keep(xs[ps[j]]))
      && (forall j, k :: 0 <= j < k < |ps| ==> ps[j] < ps[k])
      && (forall i :: 0 <= i < |xs| && keep(xs[i]) ==> i in ps)
  {
    FlagsAt(keep, xs);
  }

  lemma PositionsNoneIff<T>(keep: T -> bool, xs: seq<T>)
    ensures Positions(keep, xs) == [] <==> forall i :: 0 <= i < |xs| ==> !keep(xs[i])
  {
    PositionsExactly(keep, xs);
    var r := Positions(keep, xs);
    if r != [] {
      assert keep(xs[r[0]]);
    }
  }

  lemma FlagsExtend<T>(keep: T -> bool, xs: seq<T>, x: T)
    ensures Flags(keep, xs + [x]) == Flags(keep, xs) + [keep(x)]
  {
    assert (xs + [x])[..|xs|] == xs;
  }

  lemma SelectExtend<T>(xs: seq<T>, flags: seq<bool>, x: T, b: bool)
    requires |flags| == |xs|
    ensures Select(xs + [x], flags + [b]) == Select(xs, flags) + (if b then [x] else [])
  {
    assert (xs + [x])[..|xs|] == xs;
    assert (flags + [b])[..|flags|] == flags;
  }

  /** How many elements are selected depends on the flags alone. */
  lemma {:induction false} SelectLength<S, T>(xs: seq<S>, ys: seq<T>, flags: seq<bool>)
    requires |flags| == |xs| == |ys|
    ensures |Select(xs, flags)| == |Select(ys, flags)|
    decreases |flags|
  {
    if |flags| > 0 {
      var n := |flags| - 1;
      SelectLength(xs[..n], ys[..n], flags[..n]);
    }
  }

  /** Selecting by flags is picking the marked positions. */
  lemma {:induction false} SelectIsPick<T>(xs: seq<T>, flags: seq<bool>)
    requires |flags| == |xs|
    ensures Select(xs, flags) == Pick(xs, Marked(flags))
    decreases |xs|
  {
    if |xs| > 0 {
      var n := |xs| - 1;
      SelectIsPick(xs[..n], flags[..n]);
      PickLast(xs, Marked(flags[..n]));
    }
  }

  /** Picking from xs at positions before its last element, and then maybe at
      the last one too. */
  lemma PickLast<T>(xs: seq<T>, positions: seq<nat>)
    requires |xs| > 0
    requires forall j :: 0 <= j < |positions| ==> positions[j] < |xs| - 1
    ensures Pick(xs, positions) == Pick(xs[..|xs| - 1], positions)
    ensures Pick(xs, positions + [|xs| - 1]) == Pick(xs[..|xs| - 1], positions) + [xs[|xs| - 1]]
  {
  }

  // ---------------------------------------------------------------------------
  // CREATE TABLE

  /** "name validator", the definition of one column. */
  function Definition(c: Column): string {
    c.name + " " + c.validator
  }

  /** "name order", one entry of the clustering order clause. */
  function OrderedDefinition(c: Column): string {
    c.name + " " + c.clusteringOrder
  }

  predicate IsOrdered(c: Column) {
    c.order
  }

  /** Every column, once each, as "name validator", in iteration order. */
  function ColumnDefinitions(cols: seq<Column>): (r: seq<string>)
    ensures |r| == |cols|
  {
    MapSeq(Definition, cols)
  }

  /** A proof step of OrderIgnoredWithoutClustering: the i-th definition is
      the i-th column's name and validator. */
  lemma ColumnDefinitionsExactly(cols: seq<Column>)
    ensures forall i :: 0 <= i < |cols| ==> ColumnDefinitions(cols)[i] == cols[i].name + " " + cols[i].validator
  {
  }

  /** The entries of the clustering order clause: the columns whose Order flag
      is set, as "name order", in iteration order. */
  function OrderedColumns(cols: seq<Column>): (r: seq<string>)
    ensures |r| <= |cols|
  {
    MapSeq(OrderedDefinition, Select(cols, Flags(IsOrdered, cols)))
  }

  const CreatePrefix := "CREATE TABLE IF NOT EXISTS "
  const KeyClause := ", PRIMARY KEY "
  const OrderedClose := ")) WITH CLUSTERING ORDER BY ("

  /** The text every shape begins with: "CREATE TABLE IF NOT EXISTS ks.name (",
      the column definitions, ", PRIMARY KEY ((" and the partition key with
      its closing parenthesis. */
  function CreateHead(keyspace: string, t: Table): string {
    CreatePrefix + keyspace + "." + t.name + " (" + Join(ColumnDefinitions(t.columns), ",")
      + KeyClause + "((" + Join(t.partitionKey, ",") + ")"
  }

  /** How the primary key clause ends: with the clustering columns and the
      clustering order clause when some column is ordered and there are
      clustering columns, with the clustering columns alone when there are
      any, and right after the partition key otherwise. */
  function Ending(t: Table): string {
    var clustering := Join(t.clusteringColumns, ",");
    var ordered := OrderedColumns(t.columns);
    if |ordered| > 0 && |t.clusteringColumns| > 0 then
      ", " + clustering + OrderedClose + Join(ordered, ",") + ");"
    else if |t.clusteringColumns| > 0 then
      ", " + clustering + "));"
    else
      "));"
  }

  /** getCreateTableQuery. */
  function CreateTable(keyspace: string, t: Table): string {
    CreateHead(keyspace, t) + Ending(t)
  }

  /** The clustering order clause lists exactly the ordered columns: each entry
      is "name order" of an ordered column, every ordered column has an entry,
      and entries follow the columns' order. */
  lemma OrderedColumnsExactly(cols: seq<Column>)
    ensures var ps := Positions(IsOrdered, cols);
      && |OrderedColumns(cols)| == |ps|
      && (forall j :: 0 <= j < |ps| ==>
            cols[ps[j]].order && OrderedColumns(cols)[j] == cols[ps[j]].name + " " + cols[ps[j]].clusteringOrder)
      && (forall j, k :: 0 <= j < k < |ps| ==> ps[j] < ps[k])
      && (forall i :: 0 <= i < |cols| && cols[i].order ==> i in ps)
  {
    PositionsExactly(IsOrdered, cols);
    SelectIsPick(cols, Flags(IsOrdered, cols));
    var ps := Positions(IsOrdered, cols);
    forall i | 0 <= i < |cols| && cols[i].order
      ensures i in ps
    {
      assert IsOrdered(cols[i]);
    }
  }

  function ClearOrder(c: Column): Column {
    c.(order := false)
  }

  /** Without clustering columns the Order flags change nothing in the statement. */
  lemma OrderIgnoredWithoutClustering(keyspace: string, t: Table)
    requires t.clusteringColumns == []
    ensures CreateTable(keyspace, t) == CreateTable(keyspace, t.(columns := MapSeq(ClearOrder, t.columns)))
  {
    var u := t.(columns := MapSeq(ClearOrder, t.columns));
    ColumnDefinitionsExactly(t.columns);
    ColumnDefinitionsExactly(u.columns);
    assert ColumnDefinitions(u.columns) == ColumnDefinitions(t.columns);
  }

  // ---------------------------------------------------------------------------
  // INSERT

  /** One entry of the row map the driver's MapScan fills. */
  datatype Cell = Cell(name: string, value: Value)

  /** A row, in the order Go's iteration over the row map yields its entries. */
  type Row = seq<Cell>

  /** The row's column names in iteration order. */
  function ColumnNames(row: Row): (names: seq<string>)
    ensures |names| == |row|
  {
    if |row| == 0 then [] else ColumnNames(row[..|row| - 1]) + [row[|row| - 1].name]
  }

  /** The i-th name is the i-th cell's: every key of the row once, in order. */
  lemma {:induction false} ColumnNamesAt(row: Row)
    ensures forall i :: 0 <= i < |row| ==> ColumnNames(row)[i] == row[i].name
    decreases |row|
  {
    if |row| > 0 {
      var n := |row| - 1;
      ColumnNamesAt(row[..n]);
      assert forall i :: 0 <= i < n ==> row[..n][i] == row[i];
    }
  }

  /** getTableColumnsName: the keys of the row map, appended one by one. */
  method TableColumnsName(row: Row) returns (columnsName: seq<string>)
    ensures columnsName == ColumnNames(row)
  {
    columnsName := [];
    var i := 0;
    while i < |row|
      invariant 0 <= i <= |row| && columnsName == ColumnNames(row[..i])
    {
      assert row[..i + 1][..i] == row[..i];
      columnsName := columnsName + [row[i].name];
      i := i + 1;
    }
    assert row[..i] == row;
  }

  /** The metadata of a column by name; gocql's map lookup yields nil for a
      name the table does not have. */
  function Lookup(cols: seq<Column>, name: string): (r: Option<Column>)
    ensures r.Some? ==> r.value in cols && r.value.name == name
    ensures r.None? <==> forall i :: 0 <= i < |cols| ==> cols[i].name != name
  {
    if |cols| == 0 then None
    else if cols[0].name == name then Some(cols[0])
    else Lookup(cols[1..], name)
  }

  /** The literal of one cell: its value encoded against its column's validator;
      a column missing from the metadata dereferences a nil pointer. */
  function CellLiteral(t: Table, c: Cell): Result<string, Panic> {
    match Lookup(t.columns, c.name)
    case None => Err(NilColumnMetadata(c.name))
    case Some(col) => ValueLiteral(c.value, col.validator)
  }

  /** f applied to each element in order; the first element f fails on stops
      the whole with its error. */
  function MapResult<A, B, E>(f: A -> Result<B, E>, xs: seq<A>): (r: Result<seq<B>, E>)
    ensures r.Ok? ==> |r.value| == |xs|
    decreases |xs|
  {
    if |xs| == 0 then Ok([])
    else
      var n := |xs| - 1;
      match MapResult(f, xs[..n])
      case Err(e) => Err(e)
      case Ok(ys) =>
        match f(xs[n])
        case Err(e) => Err(e)
        case Ok(y) => Ok(ys + [y])
  }

  function CellEncoder(t: Table): Cell -> Result<string, Panic> {
    c => CellLiteral(t, c)
  }

  /** The literals of all cells in order; the first cell that cannot be encoded
      stops the encoding with its panic. */
  function EncodeCells(t: Table, cells: seq<Cell>): Result<seq<string>, Panic> {
    MapResult(CellEncoder(t), cells)
  }

  /** Whether a literal survives into the statement: the empty text, an empty
      string literal, zero and nil are all taken for "no value". */
  predicate Kept(lit: string) {
    lit != "" && lit != "''" && lit != "0" && lit != "<nil>"
  }

  /** getInsertDataQuery, as a function of the row: the names and literals
      of the cells whose literal is kept, or the empty text when none is. */
  function InsertStatement(keyspace: string, t: Table, row: Row): Result<string, Panic> {
    InsertWith(CellEncoder(t), keyspace, t.name, row)
  }

  /** The same statement for any encoder of the cells into literals. */
  function InsertWith(encode: Cell -> Result<string, Panic>, keyspace: string, tableName: string,
                      row: Row): Result<string, Panic> {
    match MapResult(encode, row)
    case Err(e) => Err(e)
    case Ok(lits) =>
      var flags := Flags(Kept, lits);
      var values := Select(lits, flags);
      if |values| == 0 then Ok("")
      else Ok("INSERT INTO " + keyspace + "." + tableName
              + " (" + Join(Select(ColumnNames(row), flags), ",") + ") VALUES ("
              + Join(values, ",") + ")")
  }

  /** MapResult succeeds exactly when f succeeds on every element, and then
      holds f's results in order; otherwise it fails with f's error on the
      first element f fails on. */
  lemma {:induction false} MapResultSpec<A, B, E>(f: A -> Result<B, E>, xs: seq<A>)
    ensures var r := MapResult(f, xs);
      && (r.Ok? <==> forall i :: 0 <= i < |xs| ==> f(xs[i]).Ok?)
      && (r.Ok? ==> forall i :: 0 <= i < |xs| ==> f(xs[i]) == Ok(r.value[i]))
      && (r.Err? ==> exists i :: 0 <= i < |xs| && f(xs[i]) == Err(r.error)
                                && forall j :: 0 <= j < i ==> f(xs[j]).Ok?)
    decreases |xs|
  {
    if |xs| > 0 {
      var n := |xs| - 1;
      MapResultSpec(f, xs[..n]);
      assert forall i :: 0 <= i < n ==> xs[..n][i] == xs[i];
    }
  }

  /** One more element mapped: the results so far grow by its result. */
  lemma MapResultStep<A, B, E>(f: A -> Result<B, E>, xs: seq<A>, i: nat, ys: seq<B>, y: B)
    requires i < |xs| && MapResult(f, xs[..i]) == Ok(ys) && f(xs[i]) == Ok(y)
    ensures MapResult(f, xs[..i + 1]) == Ok(ys + [y])
  {
    assert xs[..i + 1][..i] == xs[..i];
  }

  /** An element f fails on after elements it does not: its error is the whole's. */
  lemma {:induction false} MapResultStops<A, B, E>(f: A -> Result<B, E>, xs: seq<A>, i: nat, ys: seq<B>, e: E)
    requires i < |xs| && MapResult(f, xs[..i]) == Ok(ys) && f(xs[i]) == Err(e)
    ensures MapResult(f, xs) == Err(e)
    decreases |xs|
  {
    var n := |xs| - 1;
    if n == i {
      assert xs[..n] == xs[..i];
    } else {
      assert xs[..n][..i] == xs[..i];
      assert xs[..n][i] == xs[i];
      MapResultStops(f, xs[..n], i, ys, e);
    }
  }

  /** The names getInsertDataQuery's loop holds once it has looked at the
      first |flags| literals: the kept names among those, then all the rest. */
  ghost predicate NamesPending<T>(columnsName: seq<T>, names: seq<T>, flags: seq<bool>)
    requires |flags| <= |names|
  {
    columnsName == Select(names[..|flags|], flags) + names[|flags|..]
  }

  /** One more flag over the prefix of names it covers. */
  lemma SelectPrefixStep<T>(names: seq<T>, flags: seq<bool>, b: bool)
    requires |flags| < |names|
    ensures Select(names[..|flags| + 1], flags + [b])
            == Select(names[..|flags|], flags) + (if b then [names[|flags|]] else [])
  {
    var k := |flags|;
    var prefix := names[..k + 1];
    assert prefix[..k] == names[..k];
    assert (flags + [b])[..k] == flags;
  }

  /** The bookkeeping of getInsertDataQuery's loop when the next literal is
      kept: columnsName stays as it is. */
  lemma KeptBranch<T>(names: seq<T>, flags: seq<bool>, columnsName: seq<T>)
    requires |flags| < |names|
    requires NamesPending(columnsName, names, flags)
    ensures NamesPending(columnsName, names, flags + [true])
  {
    var i := |flags|;
    var kept := Select(names[..i], flags);
    SelectPrefixStep(names, flags, true);
    assert kept + names[i..] == (kept + [names[i]]) + names[i + 1..] by {
      assert names[i..] == [names[i]] + names[i + 1..];
    }
  }

  /** The bookkeeping when the next literal is dropped: the current name, which
      sits in columnsName at the index the number of names kept so far gives,
      is cut out there. */
  lemma DroppedBranch<T>(names: seq<T>, flags: seq<bool>, columnsName: seq<T>, k: nat)
    requires |flags| < |names|
    requires NamesPending(columnsName, names, flags)
    requires k == |Select(names[..|flags|], flags)|
    ensures k < |columnsName|
    ensures NamesPending(columnsName[..k] + columnsName[k + 1..], names, flags + [false])
  {
    var i := |flags|;
    var kept := Select(names[..i], flags);
    SelectPrefixStep(names, flags, false);
    assert columnsName[..k] == kept;
    assert columnsName[k + 1..] == names[i + 1..];
  }

  /** What getInsertDataQuery's loop knows after i cells: their literals,
      which of them are kept, the kept literals in values, and the names of the
      dropped ones cut out of columnsName. */
  ghost predicate InsertLoop(encode: Cell -> Result<string, Panic>, row: Row, names: seq<string>, i: nat,
                             lits: seq<string>, values: seq<string>, columnsName: seq<string>)
  {
    && i <= |row| == |names| && |lits| == i
    && MapResult(encode, row[..i]) == Ok(lits)
    && values == Select(lits, Flags(Kept, lits))
    && NamesPending(columnsName, names, Flags(Kept, lits))
  }

  /** Before the first cell: nothing encoded, every name still pending. */
  lemma LoopStart(encode: Cell -> Result<string, Panic>, row: Row)
    ensures InsertLoop(encode, row, ColumnNames(row), 0, [], [], ColumnNames(row))
  {
    assert row[..0] == [];
  }

  /** The next cell's literal is kept: it joins values. */
  lemma KeptStep(encode: Cell -> Result<string, Panic>, row: Row, names: seq<string>, i: nat,
                 lits: seq<string>, values: seq<string>, columnsName: seq<string>, value: string)
    requires InsertLoop(encode, row, names, i, lits, values, columnsName)
    requires i < |row| && encode(row[i]) == Ok(value) && Kept(value)
    ensures InsertLoop(encode, row, names, i + 1, lits + [value], values + [value], columnsName)
  {
    var flags := Flags(Kept, lits);
    MapResultStep(encode, row, i, lits, value);
    FlagsExtend(Kept, lits, value);
    SelectExtend(lits, flags, value, true);
    KeptBranch(names, flags, columnsName);
  }

  /** The next cell's literal is dropped: its name is cut out of columnsName
      at the index the number of values gives. */
  lemma DroppedStep(encode: Cell -> Result<string, Panic>, row: Row, names: seq<string>, i: nat,
                    lits: seq<string>, values: seq<string>, columnsName: seq<string>, value: string)
    requires InsertLoop(encode, row, names, i, lits, values, columnsName)
    requires i < |row| && encode(row[i]) == Ok(value) && !Kept(value)
    ensures |values| < |columnsName|
    ensures InsertLoop(encode, row, names, i + 1, lits + [value], values,
                       columnsName[..|values|] + columnsName[|values| + 1..])
  {
    var flags := Flags(Kept, lits);
    MapResultStep(encode, row, i, lits, value);
    FlagsExtend(Kept, lits, value);
    SelectExtend(lits, flags, value, false);
    DroppedName(names, lits, flags, values, columnsName);
  }

  /** The names when a literal is dropped: the removal index, the number of
      kept literals, names a column, and cutting it out leaves the names
      pending for one more flag, false. */
  lemma DroppedName<S, T>(names: seq<T>, lits: seq<S>, flags: seq<bool>, values: seq<S>, columnsName: seq<T>)
    requires |flags| == |lits| < |names|
    requires values == Select(lits, flags)
    requires NamesPending(columnsName, names, flags)
    ensures |values| < |columnsName|
    ensures NamesPending(columnsName[..|values|] + columnsName[|values| + 1..], names, flags + [false])
  {
    SelectLength(lits, names[..|flags|], flags);
    DroppedBranch(names, flags, columnsName, |values|);
  }

  /** The next cell cannot be encoded: its panic is the row's statement. */
  lemma FailedStep(encode: Cell -> Result<string, Panic>, keyspace: string, tableName: string, row: Row,
                   names: seq<string>, i: nat, lits: seq<string>, values: seq<string>,
                   columnsName: seq<string>, e: Panic)
    requires InsertLoop(encode, row, names, i, lits, values, columnsName)
    requires i < |row| && encode(row[i]) == Err(e)
    ensures InsertWith(encode, keyspace, tableName, row) == Err(e)
  {
    MapResultStops(encode, row, i, lits, e);
  }

  /** What the loop has built once every cell is encoded is the statement. */
  lemma LoopResult(encode: Cell -> Result<string, Panic>, keyspace: string, tableName: string, row: Row,
                   lits: seq<string>, values: seq<string>, columnsName: seq<string>)
    requires InsertLoop(encode, row, ColumnNames(row), |row|, lits, values, columnsName)
    ensures InsertWith(encode, keyspace, tableName, row)
            == if |values| == 0 then Ok("")
               else Ok("INSERT INTO " + keyspace + "." + tableName + " (" + Join(columnsName, ",")
                       + ") VALUES (" + Join(values, ",") + ")")
  {
    var names := ColumnNames(row);
    var flags := Flags(Kept, lits);
    assert row[..|row|] == row;
    assert columnsName == Select(names, flags) by {
      assert names[..|row|] == names && names[|row|..] == [];
    }
  }

  /** The variables getInsertDataQuery's loop updates: the literals computed
      so far (which the source does not keep), the kept literals, and the
      column names not yet removed. */
  datatype Progress = Progress(lits: seq<string>, values: seq<string>, columnsName: seq<string>)

  /** The source's removal of the name at idx from columnsName. Its first
      branch, taken when idx is the length, keeps columnsName[:idx], which is
      all of it; an index past the length, which Go would reject, is folded
      into that branch and is never reached (LoopAfterInvariant). */
  function CutOut(columnsName: seq<string>, idx: nat): seq<string> {
    if |columnsName| <= idx then columnsName
    else columnsName[..idx] + columnsName[idx + 1..]
  }

  /** The loop's variables after the first i cells, one cell at a time as the
      source updates them: a kept literal is appended to values, and a dropped
      one removes the name at index i minus the removals so far, which is the
      number of values. A cell that cannot be encoded stops the loop. */
  function LoopAfter(encode: Cell -> Result<string, Panic>, row: Row, i: nat): Result<Progress, Panic>
    requires i <= |row|
  {
    if i == 0 then Ok(Progress([], [], ColumnNames(row)))
    else match LoopAfter(encode, row, i - 1)
      case Err(e) => Err(e)
      case Ok(p) =>
        match encode(row[i - 1])
        case Err(e) => Err(e)
        case Ok(value) =>
          if Kept(value) then Ok(Progress(p.lits + [value], p.values + [value], p.columnsName))
          else Ok(Progress(p.lits + [value], p.values, CutOut(p.columnsName, |p.values|)))
  }

  /** After i cells the loop's variables hold what InsertLoop says: the
      literals of those cells, the kept ones among them, and the names of the
      dropped ones removed from the rest; the removal index always names a
      column, so the `len(columnsName) == idx` branch is never taken. */
  lemma {:induction false} LoopAfterInvariant(encode: Cell -> Result<string, Panic>, row: Row, i: nat)
    requires i <= |row| && LoopAfter(encode, row, i).Ok?
    ensures var p := LoopAfter(encode, row, i).value;
            InsertLoop(encode, row, ColumnNames(row), i, p.lits, p.values, p.columnsName)
    decreases i
  {
    if i == 0 {
      LoopStart(encode, row);
    } else {
      LoopAfterInvariant(encode, row, i - 1);
      var p := LoopAfter(encode, row, i - 1).value;
      var value := encode(row[i - 1]).value;
      if Kept(value) {
        KeptAfter(encode, row, i - 1, p, value);
      } else {
        DroppedAfter(encode, row, i - 1, p, value);
      }
    }
  }

  /** A kept literal: the invariant carries over to the next cell. */
  lemma KeptAfter(encode: Cell -> Result<string, Panic>, row: Row, i: nat, p: Progress, value: string)
    requires i < |row| && LoopAfter(encode, row, i) == Ok(p)
    requires InsertLoop(encode, row, ColumnNames(row), i, p.lits, p.values, p.columnsName)
    requires encode(row[i]) == Ok(value) && Kept(value)
    ensures LoopAfter(encode, row, i + 1) == Ok(Progress(p.lits + [value], p.values + [value], p.columnsName))
    ensures var q := LoopAfter(encode, row, i + 1).value;
            InsertLoop(encode, row, ColumnNames(row), i + 1, q.lits, q.values, q.columnsName)
  {
    KeptStep(encode, row, ColumnNames(row), i, p.lits, p.values, p.columnsName, value);
  }

  /** A dropped literal: the removal index names a column, the name there is
      cut out, and the invariant carries over to the next cell. */
  lemma DroppedAfter(encode: Cell -> Result<string, Panic>, row: Row, i: nat, p: Progress, value: string)
    requires i < |row| && LoopAfter(encode, row, i) == Ok(p)
    requires InsertLoop(encode, row, ColumnNames(row), i, p.lits, p.values, p.columnsName)
    requires encode(row[i]) == Ok(value) && !Kept(value)
    ensures |p.values| < |p.columnsName|
    ensures var cut := p.columnsName[..|p.values|] + p.columnsName[|p.values| + 1..];
            LoopAfter(encode, row, i + 1) == Ok(Progress(p.lits + [value], p.values, cut))
    ensures var q := LoopAfter(encode, row, i + 1).value;
            InsertLoop(encode, row, ColumnNames(row), i + 1, q.lits, q.values, q.columnsName)
  {
    DroppedStep(encode, row, ColumnNames(row), i, p.lits, p.values, p.columnsName, value);
  }

  /** Before a dropped cell the name to remove is still in columnsName:
      the removal index is below its length. */
  lemma PendingName(encode: Cell -> Result<string, Panic>, row: Row, i: nat)
    requires i < |row| && LoopAfter(encode, row, i).Ok?
    ensures |LoopAfter(encode, row, i).value.values| < |LoopAfter(encode, row, i).value.columnsName|
  {
    var p := LoopAfter(encode, row, i).value;
    var names := ColumnNames(row);
    LoopAfterInvariant(encode, row, i);
    SelectLength(p.lits, names[..i], Flags(Kept, p.lits));
    DroppedBranch(names, Flags(Kept, p.lits), p.columnsName, |p.values|);
  }

  /** A cell that cannot be encoded makes its panic the statement. */
  lemma LoopAfterFails(encode: Cell -> Result<string, Panic>, keyspace: string, tableName: string,
                       row: Row, i: nat, e: Panic)
    requires i < |row| && LoopAfter(encode, row, i).Ok? && encode(row[i]) == Err(e)
    ensures InsertWith(encode, keyspace, tableName, row) == Err(e)
  {
    var p := LoopAfter(encode, row, i).value;
    LoopAfterInvariant(encode, row, i);
    FailedStep(encode, keyspace, tableName, row, ColumnNames(row), i, p.lits, p.values, p.columnsName, e);
  }

  /** Once every cell is encoded, the loop's variables give the statement. */
  lemma LoopAfterResult(encode: Cell -> Result<string, Panic>, keyspace: string, tableName: string, row: Row)
    requires LoopAfter(encode, row, |row|).Ok?
    ensures var p := LoopAfter(encode, row, |row|).value;
            InsertWith(encode, keyspace, tableName, row)
            == if |p.values| == 0 then Ok("")
               else Ok("INSERT INTO " + keyspace + "." + tableName + " (" + Join(p.columnsName, ",")
                       + ") VALUES (" + Join(p.values, ",") + ")")
  {
    var p := LoopAfter(encode, row, |row|).value;
    LoopAfterInvariant(encode, row, |row|);
    LoopResult(encode, keyspace, tableName, row, p.lits, p.values, p.columnsName);
  }

  /** getInsertDataQuery: the literal of each cell is computed against the
      row's table. */
  method BuildInsert(keyspace: string, t: Table, row: Row) returns (r: Result<string, Panic>)
    ensures r == InsertStatement(keyspace, t, row)
  {
    r := CollectInsert(CellEncoder(t), keyspace, t.name, row);
  }

  /** getInsertDataQuery's loop as written: the names of dropped columns are
      removed from columnsName in place, at the index the count of earlier
      removals shifts, while the kept literals are appended to values. */
  method CollectInsert(encode: Cell -> Result<string, Panic>, keyspace: string, tableName: string,
                       row: Row) returns (r: Result<string, Panic>)
    ensures r == InsertWith(encode, keyspace, tableName, row)
  {
    var columnsName := TableColumnsName(row);
    var columnsNameCopy := columnsName;
    var removedElementsCount := 0;
    var values: seq<string> := [];
    ghost var lits: seq<string> := [];
    var i := 0;
    while i < |columnsNameCopy|
      invariant i <= |row| && LoopAfter(encode, row, i) == Ok(Progress(lits, values, columnsName))
      invariant removedElementsCount == i - |values|
    {
      var v := encode(row[i]);
      if v.Err? {
        LoopAfterFails(encode, keyspace, tableName, row, i, v.error);
        return Err(v.error);
      }
      var value := v.value;
      if Kept(value) {
        values := values + [value];
      } else {
        PendingName(encode, row, i);
        var idx := i - removedElementsCount;
        if |columnsName| == idx {
          // Unreachable: idx counts the names kept so far, and the current
          // name still follows them in columnsName.
          assert false;
        } else {
          columnsName := columnsName[..idx] + columnsName[idx + 1..];
        }
        removedElementsCount := removedElementsCount + 1;
      }
      lits := lits + [value];
      i := i + 1;
    }
    LoopAfterResult(encode, keyspace, tableName, row);
    if |values| == 0 {
      return Ok("");
    }
    return Ok("INSERT INTO " + keyspace + "." + tableName + " (" + Join(columnsName, ",")
              + ") VALUES (" + Join(values, ",") + ")");
  }

  /** The statement is empty exactly when every literal of the row is dropped;
      a row that cannot be encoded panics instead. */
  lemma InsertEmptyIff(keyspace: string, t: Table, row: Row)
    requires EncodeCells(t, row).Ok?
    ensures InsertStatement(keyspace, t, row) == Ok("")
            <==> forall i :: 0 <= i < |row| ==> !Kept(EncodeCells(t, row).value[i])
  {
    var lits := EncodeCells(t, row).value;
    SelectIsPick(lits, Flags(Kept, lits));
    PositionsNoneIff(Kept, lits);
  }

  /** The kept names and the kept literals stay aligned: the j-th name and the
      j-th literal of the statement both come from the same cell, cells appear
      in row order, and every cell whose literal is not dropped is there. */
  lemma InsertColumnsAligned(t: Table, row: Row)
    requires EncodeCells(t, row).Ok?
    ensures var lits := EncodeCells(t, row).value;
      var flags := Flags(Kept, lits);
      var ps := Positions(Kept, lits);
      var names := Select(ColumnNames(row), flags);
      var values := Select(lits, flags);
      && |names| == |values| == |ps|
      && (forall j :: 0 <= j < |ps| ==>
            ps[j] < |row| && names[j] == row[ps[j]].name
            && CellLiteral(t, row[ps[j]]) == Ok(values[j]) && Kept(values[j]))
      && (forall j, k :: 0 <= j < k < |ps| ==> ps[j] < ps[k])
      && (forall i :: 0 <= i < |row| && Kept(lits[i]) ==> i in ps)
  {
    MapResultSpec(CellEncoder(t), row);
    var lits := EncodeCells(t, row).value;
    PositionsExactly(Kept, lits);
    SelectIsPick(lits, Flags(Kept, lits));
    SelectIsPick(ColumnNames(row), Flags(Kept, lits));
    ColumnNamesAt(row);
  }

  /** Which scalar values the drop rule loses: an empty string, zero, nil and
      the zero time; every other string, integer and time is kept. */
  lemma ScalarDropPolicy(v: Value)
    ensures v.Str? ==> (Kept(ScalarLiteral(v)) <==> v.s != "")
    ensures v.Int? ==> (Kept(ScalarLiteral(v)) <==> v.n != 0)
    ensures v.Time? ==> (Kept(ScalarLiteral(v)) <==> !IsZero(v.t))
    ensures v.Nil? ==> !Kept(ScalarLiteral(v))
    ensures (v.IntSlice? || v.Int64Slice? || v.StrSlice? || v.StrMap? || v.Int64StrMap?) ==> Kept(ScalarLiteral(v))
  {
    match v
    case Str(s) =>
      QuoteShape(s);
    case Int(n) =>
      DecimalIsZeroText(n as int);
      assert ScalarLiteral(v) == Decimal(n as int);
      assert Decimal(n as int) != "''" && Decimal(n as int) != "<nil>";
    case Time(t) =>
      if !IsZero(t) {
        assert |ScalarLiteral(v)| > 2;
      }
    case IntSlice(_) => assert ScalarLiteral(v)[0] == '[';
    case Int64Slice(_) => assert ScalarLiteral(v)[0] == '[';
    case StrSlice(_) => assert ScalarLiteral(v)[0] == '[';
    case StrMap(_) => assert ScalarLiteral(v)[0] == 'm';
    case Int64StrMap(_) => assert ScalarLiteral(v)[0] == 'm';
    case _ =>
  }

  /** A collection is never dropped, not even an empty one. */
  lemma CollectionsKept(v: Value, validator: string)
    requires Classify(validator) != Scalar && ValueLiteral(v, validator).Ok?
    ensures Kept(ValueLiteral(v, validator).value)
  {
    var lit := ValueLiteral(v, validator).value;
    assert lit[0] == '[' || lit[0] == '{';
  }
}
