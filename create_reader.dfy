/** A reader for the CREATE TABLE statements of getCreateTableQuery: it takes
    a statement apart at its punctuation, and gives back what the builder put
    in, for names and types that do not use that punctuation themselves. */
module CreateReader {
  import opened Wrappers
  import opened GoText
  import opened CqlLiteral
  import opened Statements

  /** What a CREATE TABLE statement says: the keyspace and table, the column
      definitions, the partition key, the clustering columns and the entries
      of the clustering order clause. */
  datatype CreateSummary = CreateSummary(keyspace: string, table: string, definitions: seq<string>,
                                         partitionKey: seq<string>, clustering: seq<string>,
                                         ordered: seq<string>)

  /** The clustering order clause past the parenthesis that closes the
      primary key. */
  const OrderClause := OrderedClose[1..]

  /** A comma-separated list; the empty text is the empty list. */
  function ListOf(text: string): seq<string> {
    if text == "" then [] else Split(text, ',')
  }

  /** Reads "CREATE TABLE IF NOT EXISTS ks.name (" and what follows. */
  function ParseCreate(s: string): Option<CreateSummary> {
    if |s| < |CreatePrefix| || s[..|CreatePrefix|] != CreatePrefix then None
    else match Cut(s[|CreatePrefix|..], '.')
      case None => None
      case Some((keyspace, afterDot)) =>
        match Cut(afterDot, '(')
        case None => None
        case Some((nameSpace, afterParen)) =>
          if |nameSpace| == 0 || nameSpace[|nameSpace| - 1] != ' ' then None
          else ParseColumns(keyspace, nameSpace[..|nameSpace| - 1], afterParen)
  }

  /** Reads "definitions, PRIMARY KEY ((" and what follows. */
  function ParseColumns(keyspace: string, table: string, s: string): Option<CreateSummary> {
    match Cut(s, '(')
    case None => None
    case Some((defsKey, afterParen)) =>
      if |defsKey| < |KeyClause| || defsKey[|defsKey| - |KeyClause|..] != KeyClause then None
      else if |afterParen| == 0 || afterParen[0] != '(' then None
      else ParseKeys(keyspace, table, ListOf(defsKey[..|defsKey| - |KeyClause|]), afterParen[1..])
  }

  /** Reads "partition key)" and one of the three endings. */
  function ParseKeys(keyspace: string, table: string, definitions: seq<string>, s: string): Option<CreateSummary> {
    match Cut(s, ')')
    case None => None
    case Some((key, ending)) =>
      ParseEnding(CreateSummary(keyspace, table, definitions, ListOf(key), [], []), ending)
  }

  /** Reads what follows the partition key: "));" alone, or ", clustering)"
      and then ");" or the clustering order clause. */
  function ParseEnding(summary: CreateSummary, ending: string): Option<CreateSummary> {
    if ending == "));" then Some(summary)
    else if |ending| < 2 || ending[..2] != ", " then None
    else match Cut(ending[2..], ')')
      case None => None
      case Some((clustering, rest)) => ParseOrder(summary.(clustering := ListOf(clustering)), rest)
  }

  /** Reads ");" alone, or the clustering order clause and its entries. */
  function ParseOrder(summary: CreateSummary, rest: string): Option<CreateSummary> {
    if rest == ");" then Some(summary)
    else if |rest| < |OrderClause| + 2 || rest[..|OrderClause|] != OrderClause
            || rest[|rest| - 2..] != ");" then None
    else Some(summary.(ordered := ListOf(rest[|OrderClause|..|rest| - 2])))
  }

  /** Free of the characters the statement's punctuation is made of. */
  predicate Bare(s: string) {
    ',' !in s && '(' !in s && ')' !in s
  }

  /** Names and types the reader can tell apart from the punctuation: a
      keyspace without a dot, and names, types and orders without commas or
      parentheses; key column names are not empty. */
  predicate Readable(keyspace: string, t: Table) {
    && '.' !in keyspace && Bare(t.name)
    && (forall i :: 0 <= i < |t.columns| ==>
          Bare(t.columns[i].name) && Bare(t.columns[i].validator) && Bare(t.columns[i].clusteringOrder))
    && (forall i :: 0 <= i < |t.partitionKey| ==> t.partitionKey[i] != "" && Bare(t.partitionKey[i]))
    && (forall i :: 0 <= i < |t.clusteringColumns| ==> t.clusteringColumns[i] != "" && Bare(t.clusteringColumns[i]))
  }

  lemma {:induction false} ListOfJoin(xs: seq<string>)
    requires forall i :: 0 <= i < |xs| ==> xs[i] != "" && ',' !in xs[i]
    ensures ListOf(Join(xs, ",")) == xs
  {
    if |xs| > 0 {
      JoinNonEmpty(xs, ",");
      SplitOfJoin(xs, ',');
    }
  }

  lemma {:induction false} JoinFree(xs: seq<string>, c: char)
    requires c != ',' && forall i :: 0 <= i < |xs| ==> c !in xs[i]
    ensures c !in Join(xs, ",")
    decreases |xs|
  {
    if |xs| > 1 {
      JoinFree(xs[1..], c);
    }
  }

  lemma ParseCreateStep(keyspace: string, table: string, s: string)
    requires '.' !in keyspace && '(' !in table
    ensures ParseCreate(CreatePrefix + keyspace + "." + table + " (" + s) == ParseColumns(keyspace, table, s)
  {
    var afterDot := table + " (" + s;
    var tail := keyspace + ['.'] + afterDot;
    ConcatAssoc6(CreatePrefix, keyspace, ".", table, " (", s);
    DropPrefix(CreatePrefix, tail);
    CutAtFirst(keyspace, '.', afterDot);
    NameBeforeParen(table, s);
    assert ParseCreate(CreatePrefix + tail)
           == ParseColumns(keyspace, (table + " ")[..|table|], s);
  }

  /** The text after the dot: the table name, a space, the opening parenthesis. */
  lemma NameBeforeParen(table: string, s: string)
    requires '(' !in table
    ensures Cut(table + " (" + s, '(') == Some((table + " ", s))
    ensures (table + " ")[..|table|] == table && (table + " ")[|table|] == ' '
  {
    assert table + " (" + s == (table + " ") + ['('] + s;
    CutAtFirst(table + " ", '(', s);
    DropPrefix(table, " ");
  }

  lemma ParseColumnsStep(keyspace: string, table: string, definitions: string, s: string)
    requires '(' !in definitions
    ensures ParseColumns(keyspace, table, definitions + KeyClause + "((" + s)
            == ParseKeys(keyspace, table, ListOf(definitions), s)
  {
    var whole := definitions + KeyClause + "((" + s;
    var defsKey := definitions + KeyClause;
    OpenTwice(defsKey, s);
    CutAtFirst(defsKey, '(', "(" + s);
    assert Cut(whole, '(') == Some((defsKey, "(" + s));
    DropPrefix(definitions, KeyClause);
    assert ("(" + s)[1..] == s;
    assert ParseColumns(keyspace, table, whole)
           == ParseKeys(keyspace, table, ListOf(defsKey[..|definitions|]), ("(" + s)[1..]);
  }

  lemma ParseKeysStep(keyspace: string, table: string, definitions: seq<string>, t: Table)
    requires Readable(keyspace, t)
    ensures ParseKeys(keyspace, table, definitions, Join(t.partitionKey, ",") + ")" + Ending(t))
            == Some(CreateSummary(keyspace, table, definitions, t.partitionKey, t.clusteringColumns,
                                  if |t.clusteringColumns| > 0 then OrderedColumns(t.columns) else []))
  {
    var key := Join(t.partitionKey, ",");
    JoinFree(t.partitionKey, ')');
    ListOfJoin(t.partitionKey);
    CutAtFirst(key, ')', Ending(t));
    EndingRead(CreateSummary(keyspace, table, definitions, t.partitionKey, [], []), t);
  }

  /** Each of the three endings reads back as the clustering columns and the
      clustering order entries it was built from. */
  lemma EndingRead(summary: CreateSummary, t: Table)
    requires summary.clustering == [] && summary.ordered == []
    requires forall i :: 0 <= i < |t.clusteringColumns| ==> t.clusteringColumns[i] != "" && Bare(t.clusteringColumns[i])
    requires forall i :: 0 <= i < |t.columns| ==> Bare(t.columns[i].name) && Bare(t.columns[i].clusteringOrder)
    ensures ParseEnding(summary, Ending(t))
            == Some(summary.(clustering := t.clusteringColumns,
                             ordered := if |t.clusteringColumns| > 0 then OrderedColumns(t.columns) else []))
  {
    if |t.clusteringColumns| > 0 {
      var ordered := OrderedColumns(t.columns);
      if |ordered| > 0 {
        OrderedEntriesBare(t.columns);
        OrderedEndingRead(summary, t.clusteringColumns, ordered);
      } else {
        ClusteringEndingRead(summary, t.clusteringColumns);
      }
    }
  }

  /** ", clustering));" reads back as the clustering columns. */
  lemma ClusteringEndingRead(summary: CreateSummary, clustering: seq<string>)
    requires 0 < |clustering|
    requires forall i :: 0 <= i < |clustering| ==> clustering[i] != "" && Bare(clustering[i])
    ensures ParseEnding(summary, ", " + Join(clustering, ",") + "));")
            == Some(summary.(clustering := clustering))
  {
    var list := Join(clustering, ",");
    var ending := ", " + list + "));";
    ClusteringEndingSplit(list);
    JoinFree(clustering, ')');
    CutAtFirst(list, ')', ");");
    ListOfJoin(clustering);
    assert ParseEnding(summary, ending) == ParseOrder(summary.(clustering := clustering), ");");
  }

  /** ", clustering)) WITH CLUSTERING ORDER BY (ordered);" reads back as the
      clustering columns and the order entries. */
  lemma OrderedEndingRead(summary: CreateSummary, clustering: seq<string>, ordered: seq<string>)
    requires 0 < |clustering| && 0 < |ordered|
    requires forall i :: 0 <= i < |clustering| ==> clustering[i] != "" && Bare(clustering[i])
    requires forall i :: 0 <= i < |ordered| ==> ordered[i] != "" && ',' !in ordered[i]
    ensures ParseEnding(summary, ", " + Join(clustering, ",") + OrderedClose + Join(ordered, ",") + ");")
            == Some(summary.(clustering := clustering, ordered := ordered))
  {
    var list := Join(clustering, ",");
    var entries := Join(ordered, ",");
    var rest := OrderClause + entries + ");";
    OrderedEndingSplit(list, entries);
    JoinFree(clustering, ')');
    CutAtFirst(list, ')', rest);
    ListOfJoin(clustering);
    OrderRead(summary.(clustering := clustering), ordered);
  }

  /** The ordered ending: a leading ", ", then the clustering list, the
      parenthesis that closes it, and the clustering order clause. */
  lemma OrderedEndingSplit(clustering: string, ordered: string)
    ensures var ending := ", " + clustering + OrderedClose + ordered + ");";
            && ending != "));" && |ending| >= 2 && ending[..2] == ", "
            && ending[2..] == clustering + [')'] + (OrderClause + ordered + ");")
  {
    var body := clustering + OrderedClose + ordered + ");";
    ConcatAssoc5(", ", clustering, OrderedClose, ordered, ");");
    CommaLead(body);
    CloseThenOrder();
    SplitAtClose(clustering, OrderedClose, OrderClause, ordered, ");");
  }

  lemma CloseThenOrder()
    ensures OrderedClose == [')'] + OrderClause
  {
    Rebuild(OrderedClose);
  }

  /** The ending without an order clause: a leading ", ", then the clustering
      list and the parenthesis that closes it. */
  lemma ClusteringEndingSplit(clustering: string)
    ensures var ending := ", " + clustering + "));";
            && ending != "));" && |ending| >= 2 && ending[..2] == ", "
            && ending[2..] == clustering + [')'] + ");"
  {
    var close := "));";
    assert close == [')'] + ");";
    CommaLead(clustering + close);
  }

  /** A text behind ", " is not "));" and drops the two characters. */
  lemma CommaLead(x: string)
    ensures var ending := ", " + x;
            && ending != "));" && |ending| >= 2 && ending[..2] == ", " && ending[2..] == x
  {
    var ending := ", " + x;
    assert ending[0] == ',';
    DropPrefix(", ", x);
  }

  /** A text between an opening and a closing text is recovered by slicing. */
  lemma Enclosed(open: string, x: string, close: string)
    ensures var w := open + x + close;
            && |w| == |open| + |x| + |close|
            && w[..|open|] == open && w[|w| - |close|..] == close && w[|open|..|w| - |close|] == x
  {
    var w := open + x + close;
    assert w[..|open|] == open;
    assert w[|w| - |close|..] == close;
    assert w[|open|..|w| - |close|] == x;
  }

  lemma SplitAtClose(a: string, close: string, tail: string, b: string, c: string)
    requires close == [')'] + tail
    ensures a + close + b + c == a + [')'] + (tail + b + c)
  {
  }

  /** The clustering order clause reads back as its entries. */
  lemma OrderRead(summary: CreateSummary, ordered: seq<string>)
    requires 0 < |ordered|
    requires forall i :: 0 <= i < |ordered| ==> ordered[i] != "" && ',' !in ordered[i]
    ensures ParseOrder(summary, OrderClause + Join(ordered, ",") + ");") == Some(summary.(ordered := ordered))
  {
    var entries := Join(ordered, ",");
    Enclosed(OrderClause, entries, ");");
    ListOfJoin(ordered);
  }

  lemma OrderedEntriesBare(cols: seq<Column>)
    requires forall i :: 0 <= i < |cols| ==> Bare(cols[i].name) && Bare(cols[i].clusteringOrder)
    ensures forall j :: 0 <= j < |OrderedColumns(cols)| ==> OrderedColumns(cols)[j] != "" && ',' !in OrderedColumns(cols)[j]
  {
    SelectIsPick(cols, Flags(IsOrdered, cols));
  }

  lemma DefinitionsBare(cols: seq<Column>)
    requires forall i :: 0 <= i < |cols| ==> Bare(cols[i].name) && Bare(cols[i].validator)
    ensures forall j :: 0 <= j < |ColumnDefinitions(cols)| ==>
              ColumnDefinitions(cols)[j] != "" && ',' !in ColumnDefinitions(cols)[j]
              && '(' !in ColumnDefinitions(cols)[j]
  {
  }

  lemma OpenTwice(u: string, s: string)
    ensures u + "((" + s == u + ['('] + ("(" + s)
  {
  }

  /** The statement can be read back: for names and types that do not use the
      statement's punctuation, it gives back the keyspace, the table name, every
      column definition in order, the partition key and the clustering columns,
      and the clustering order entries exactly when there are clustering
      columns. */
  lemma CreateTableRoundTrip(keyspace: string, t: Table)
    requires Readable(keyspace, t)
    ensures ParseCreate(CreateTable(keyspace, t))
            == Some(CreateSummary(keyspace, t.name, ColumnDefinitions(t.columns), t.partitionKey,
                                  t.clusteringColumns,
                                  if |t.clusteringColumns| > 0 then OrderedColumns(t.columns) else []))
  {
    var lead := CreatePrefix + keyspace + "." + t.name + " (";
    var defs := Join(ColumnDefinitions(t.columns), ",");
    var key := Join(t.partitionKey, ",");
    var rest := key + ")" + Ending(t);
    ConcatAssoc(lead + defs + KeyClause + "((", key, ")", Ending(t));
    ConcatAssoc5(lead, defs, KeyClause, "((", rest);
    DefinitionsBare(t.columns);
    JoinFree(ColumnDefinitions(t.columns), '(');
    ListOfJoin(ColumnDefinitions(t.columns));
    ParseCreateStep(keyspace, t.name, defs + KeyClause + "((" + rest);
    ParseColumnsStep(keyspace, t.name, defs, rest);
    ParseKeysStep(keyspace, t.name, ColumnDefinitions(t.columns), t);
  }
}
