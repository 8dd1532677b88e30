# cassandra-migrator, modelled in Dafny

cassandra-migrator copies one Cassandra keyspace into another cluster. This
model covers the parts of that copy that decide what gets sent to the target
cluster:

- **Flags and connection.** The `transfer` command checks its flags and fills
  in the missing target keyspace. A host argument is split into a contact
  host and a port.
- **Tables.** The optional table name selects which tables are created and
  which are copied. Each created table gets a `CREATE TABLE IF NOT EXISTS`
  statement built from the table's metadata.
- **Row copy.** `syncData` scans the rows and counts the skipped ones. For
  each later row whose statement is not empty it sends that INSERT. It stops
  on a panic.
- **INSERT statements.** Each value of a row becomes a CQL literal through
  `getStringOrNumber` and `getValueString`. `getInsertDataQuery` drops the
  columns whose literal reads as "no value" and joins the rest into one
  INSERT.

Every operation is paired with something to check it against:

- The literal encoder has a reader for the literals it writes:
  - strings and integers read back as the value encoded;
  - lists, sets and maps read back as the collection encoded;
  - a time reads back only in part. The encoder prints the hour on a 12-hour
    clock without AM or PM, so the reader gives back every field but the
    hour, and the hour only on the 12-hour clock. This is the finding below.
    The corrected 24-hour layout reads back in full.
  - nil prints as "<nil>", and a value of another driver type as its `%v`
    text. Neither has a reader. Integer slices printed with `%v` read back,
    and so do non-empty string slices whose elements hold no space.
- A CREATE TABLE statement has a reader that gives back the keyspace, the
  table, the column definitions, the partition key, the clustering columns
  and the clustering order entries. This holds when the names and types do
  not themselves contain the statement's commas, parentheses or dots.
- The host parser is inverted for every host without a colon and every
  64-bit port.
- Each of the four imperative loops is proved equal to a specification
  function:
  - the key collection of `getTableColumnsName`;
  - the in-place column removal of `getInsertDataQuery`, including its dead
    `len(columnsName) == idx` branch;
  - the table creation loop;
  - the `syncData` loop.

  Lemmas about those functions then state what the source promises: which
  columns survive and in which order, how rows are counted, and when a copy
  stops.

Files, one module each:

| file | module | models |
|---|---|---|
| `wrappers.dfy` | `Wrappers` | `Option` and `Result` |
| `go_text.dfy` | `GoText` | the Go library pieces the code relies on: `strconv.Itoa`/`Atoi` on 64-bit integers, `strings.Join`, `strings.Split`, and `strings.Cut` for the CREATE TABLE reader |
| `timestamps.dfy` | `Timestamps` | `time.Time.Format` with the encoder's 12-hour layout and its partial reader; the corrected 24-hour layout with a full round trip |
| `cql_literal.dfy` | `CqlLiteral` | `getStringOrNumber`, `getValueString`, and the literal reader |
| `statements.dfy` | `Statements` | `getCreateTableQuery`, `getTableColumnsName`, `getInsertDataQuery` |
| `create_reader.dfy` | `CreateReader` | a reader for the CREATE TABLE statements, the partner of `getCreateTableQuery` |
| `replication.dfy` | `Replication` | host parsing, the table filters, the creation loop, `syncData` |
| `command.dfy` | `Command` | the `transfer` command's flags and its `PreRunE` hook |

Go's map iteration order is unspecified. The model therefore takes every map
the code ranges over as a sequence in the order the iteration happens to
yield. That covers four maps:

- the keyspace's tables, which the creation loop and the copy loop range
  over separately, each in its own order;
- the table's column metadata;
- a scanned row;
- a map value inside a row.

Every property below holds for any such order. Replication.CreatedAreCopiedAnyOrder
compares the two loops over the tables under two independent orders.

## Model

| member | source | states |
|---|---|---|
| Command.Resolve | transfer.go:20-34 | the hook fails exactly when a host is missing, with the source host checked first and its message; on success only the target keyspace can change, and an empty one becomes the source keyspace |
| Command.ResolveIdempotent | transfer.go:29-31 | running the hook again on the flags it completed gives the same result |
| Command.Flags.constructor | transfer.go:8-15 | every flag starts at its default: empty texts, false, zero rows to skip |
| Command.Flags.PreRun | transfer.go:20-34 | the hook on the flag variables: an error for a missing host leaves them untouched; otherwise they become the completed flags |
| Replication.ParseHost | cassandra.go:17-29 | a host without a colon is used as is on port 9042; a parsed host never holds a colon |
| Replication.ParseHostPieces | cassandra.go:19-28 | for "h:p…" the host is the text before the first colon and the port is the second colon-separated piece read by Atoi; a piece Atoi rejects is the panic |
| Replication.ParseHostRoundTrip | cassandra.go:17-29 | "h:" followed by the decimal of any 64-bit port parses back to exactly that host and port |
| Replication.TablesToSync | cassandra.go:307-316 | the tables copied are exactly the tables the filter admits, and all of them when no table is named |
| Replication.TablesToCreate | cassandra.go:289-298 | without a name every table is created; with one at most one table is, and it carries that name |
| Replication.CreatedAreCopied | cassandra.go:289-316 | when table names are distinct, the tables created are exactly the tables copied, despite the creation loop's early break |
| Replication.CreatedAreCopiedAnyOrder | cassandra.go:289-316 | the same for the two loops' own iteration orders over the table map: a table is created exactly when it is copied |
| Replication.CreateTables | cassandra.go:289-298 | the creation loop, each statement sent by createTable (cassandra.go:215-222): the statements sent are a prefix of the creation plan (none when table creation is skipped); a statement the target rejects is the last one sent and is reported; without a rejection the whole plan is sent |
| Replication.CopyTable | cassandra.go:224-268 | the copy loop's count, sent statements and stopping panic equal the fold of the per-row step over the rows' statements |
| Replication.SkippedRowsIgnored | cassandra.go:238-264 | the first skipRows rows are only counted: the copy sends exactly what a copy of the remaining rows without skipping sends, and its count is that copy's plus the skipped rows |
| Replication.CopyCount | cassandra.go:230-257 | the final count is the skipped rows plus the statements sent; a copy that does not stop sends exactly the non-empty statements of the rows after the skipped ones, in order |
| Replication.WriteFailureNeedsStrict | cassandra.go:244-252 | a failed write stops the copy only when neither table creation nor row errors are skipped, and the statement it reports is the last one sent |
| Replication.StopsOnlyOnEncoding | cassandra.go:240-252 | under a lenient policy, or when no write fails, a copy stops only on a row whose statement panics |
| Replication.EveryRowCounted | cassandra.go:238-264 | if every row after the skipped ones gives a non-empty statement and the copy does not stop, the count equals the number of rows |
| Replication.RunStopped | cassandra.go:240-252 | once a row has stopped the copy, the later rows change neither the count, nor what was sent, nor the panic |
| Replication.StrictStopsAtFailedWrite | cassandra.go:244-252 | when neither skip flag is set, the first row after the skipped ones whose non-empty statement fails to write stops the copy, with that statement reported and sent last |
| Replication.FirstStop | cassandra.go:238-264 | a copy that stops has a first row at which it stops |
| Replication.StoppedAt | cassandra.go:238-257 | at the row that stops a copy, the statements sent are the non-empty statements of the rows between the skipped ones and that row, plus that row's statement when its write failed; the panic is that row's encoding panic or its failed write, the latter only when neither skip flag is set; the count is the skipped rows plus the statements sent |
| CreateReader.CreateTableRoundTrip | cassandra.go:45-81 | for names and types without commas or parentheses, a keyspace without a dot and non-empty key columns, reading the statement back gives the keyspace, the table name, every column definition in order, the partition key, the clustering columns, and the clustering order entries exactly when there are clustering columns |
| Statements.OrderedColumnsExactly | cassandra.go:52-54 | the clustering order list holds "name order" for exactly the columns whose Order flag is set, each once, in column order |
| Statements.OrderIgnoredWithoutClustering | cassandra.go:67-80 | with no clustering columns, the columns' Order flags do not change the statement |
| Statements.TableColumnsName | cassandra.go:83-90 | the loop returns the row's keys, each once, in iteration order |
| Statements.BuildInsert | cassandra.go:175-213 | getInsertDataQuery for a table's row equals the INSERT specification over the table's cell encoder |
| Statements.CollectInsert | cassandra.go:176-212 | the loop as written equals the INSERT specification: its variables follow LoopAfter, the step-by-step removal at index i minus the removals so far; the first cell that cannot be encoded panics |
| Statements.LoopAfterInvariant | cassandra.go:186-203 | after any number of cells the kept literals are exactly the non-dropped ones in order, and columnsName holds the names of the kept cells followed by the names not yet visited |
| Statements.PendingName | cassandra.go:194-199 | the removal index is always below the length of columnsName, so the `len(columnsName) == idx` branch is never taken |
| Statements.InsertEmptyIff | cassandra.go:186-207 | the statement is the empty text exactly when every literal of the row is "", "''", "0" or "<nil>" |
| Statements.InsertColumnsAligned | cassandra.go:186-212 | the j-th name in the column list is the name of the cell whose literal is the j-th value; the kept cells appear in row order and each is kept |
| Statements.ScalarDropPolicy | cassandra.go:92-105 | under the scalar rule a string is dropped exactly when empty, an integer exactly when zero, a time exactly when zero, nil always, and a slice or map printed with %v never |
| Statements.CollectionsKept | cassandra.go:112-169 | a list, set or map literal is never dropped, even when the collection is empty |
| Statements.Lookup | cassandra.go:188 | the column metadata found carries the name; none is found exactly when no column has it |
| Statements.MapResultSpec | cassandra.go:187-188 | encoding the cells succeeds exactly when every cell encodes, and then holds each cell's literal in order; otherwise it fails with the first failing cell's panic |
| CqlLiteral.ScalarLiteralReadsBack | cassandra.go:92-105 | a string literal reads back as the string and an integer as the integer; a non-zero time reads back as its 12-hour text, which gives back every field but the hour, and the hour on the 12-hour clock (12 for noon and midnight); only the zero time gives the empty text, and nil prints "<nil>" |
| CqlLiteral.GoFormatIntsReadBack | cassandra.go:103 | %v of an integer slice is "[]" exactly when the slice is empty; otherwise the text between the brackets, split at its spaces, gives one piece per element that Atoi reads as that element |
| CqlLiteral.GoFormatStringsReadBack | cassandra.go:103 | %v of a non-empty string slice whose elements hold no space reads back as the slice |
| CqlLiteral.ValueLiteral | cassandra.go:107-173 | encoding succeeds exactly when the value has the Go type the validator asserts; unknown validators and "text" use the scalar rule; a mismatch is a type-assertion panic |
| CqlLiteral.ElementsUseScalarRule | cassandra.go:114-166 | list and set elements and map keys and values are each encoded with the scalar rule, with a map entry written as key ":" value |
| CqlLiteral.CollectionRoundTrip | cassandra.go:113-169 | each list, set and map literal decodes back to the collection it encodes, elements and entries in order |
| CqlLiteral.ValueLiteralRoundTrip | cassandra.go:107-173 | whatever a collection validator's encoding writes decodes back to the value given |
| CqlLiteral.QuoteRoundTrip | cassandra.go:95 | a string with its quotes doubled and put between quotes reads back as the string, the following text untouched |
| CqlLiteral.IntTokenRoundTrip | cassandra.go:103 | the decimal of any 64-bit integer reads back as that integer |
| CqlLiteral.Find | cassandra.go:112-170 | a collection encoding is chosen only by a validator the switch names for it |
| Timestamps.AsWrittenConflatesMorningAndAfternoon | cassandra.go:101 | with the layout as written, any time before noon and the time twelve hours later are different timestamps that print the same text |
| Timestamps.FormatAsWrittenReadsBack | cassandra.go:101 | the text of the layout as written reads back as the year, month, day, minute and second, and the hour on the 12-hour clock |
| Timestamps.FormatAsWrittenEqualIff | cassandra.go:101 | two timestamps print alike with the layout as written exactly when they agree on every field but the hour and their hours agree modulo 12 |
| Timestamps.FormatAsWrittenHasNoQuote | cassandra.go:101 | the text of the layout as written holds no quote, so the quoted literal needs no escaping |
| Timestamps.FormatRoundTrip | cassandra.go:101 | with a 24-hour layout, the text reads back as the timestamp's year, month, day, hour, minute and second |
| Timestamps.FormatInjective | cassandra.go:101 | with a 24-hour layout, two timestamps that print alike agree to the second |
| Timestamps.FormatHasNoQuote | cassandra.go:101 | the text of the 24-hour layout holds no quote either |
| GoText.AtoiOfDecimal | cassandra.go:23 | Atoi reads back the decimal text of any 64-bit integer |
| GoText.SplitOfJoin | cassandra.go:20 | splitting at a separator undoes joining with it, provided no piece holds the separator |

## Left out

- Sessions, queries and iterators of the gocql driver are not modelled. The
  model takes their results as parameters instead:
  - the rows a scan yields;
  - whether the target rejects a CREATE TABLE statement (`rejects`);
  - whether an INSERT's write fails (`fails`).
- Timeouts and consistency settings are not modelled. A connection error is
  also left out, since it only panics.
- The keyspace metadata lookup and the `CREATE KEYSPACE` statement
  (cassandra.go:276-286) are left out. They are fixed text plus driver calls.
- Logging is left out, including the progress lines every 100 and every 1000
  rows. It does not affect what is sent or counted.
- The goroutines and the wait group (cassandra.go:303-318) are left out. Each
  table's copy is modelled on its own, with the target cluster as a
  parameter.
- Replication.StopsOnlyOnEncoding, Replication.StoppedAt and the other lemmas
  about a stopped copy describe only the copy whose row panicked. Nothing in
  the program recovers from a panic, so an encoding panic or a failed strict
  write in one table's goroutine ends the whole process. The other tables'
  copies then stop wherever they happen to be, which the model does not
  capture.
- The order of map iteration is not modelled. It is an input, as described
  above.
- Replication.CopyTable, Replication.CreateTables and Statements.CollectInsert
  take their builder or encoder as a parameter. The source fixes it:
  - Replication.InsertQuery for CopyTable;
  - Replication.CreateQuery for CreateTables;
  - Statements.CellEncoder for CollectInsert.

  The source's own combination is Statements.BuildInsert.
- CreateReader.CreateTableRoundTrip: proved only for names and types without
  commas or parentheses, a keyspace without a dot, and non-empty key columns.
  A validator such as `map<text, text>` holds a comma, so its statement is not
  read back unambiguously. The builder itself is modelled for every table.
- Timestamps: only UTC fields are kept. Time zones and sub-second digits are
  left out, because the layout prints neither.
- CqlLiteral.Value covers the Go types the encoder's switch and type
  assertions distinguish. Any other driver type is taken as its `%v` text.
- The command-line parsing of cobra is left out, because it is not part of
  this model. That includes `cmd/transfer.go` and `commands/root.go`.
  `SkipInsertRowErrors` takes its default from `SkipCreateTables`, and both
  are false.
- Where the program's description and its code differ, the model follows
  the code:
  - A failed write stops the copy only when neither `skipCreateTables` nor
    `skipInsertRowErrors` is set (cassandra.go:245-251).
  - After the skipped rows, the count grows only for non-empty statements
    (cassandra.go:242-243).
  - Validators the switch does not name use the scalar rule
    (cassandra.go:170-171).

## Findings

| source | as written | input that shows it | evidently intended | confidence | as-written member | corrected member |
|---|---|---|---|---|---|---|
| cassandra.go:101 | the layout "2006-01-02 03:04:05" prints the hour on a 12-hour clock and has no AM/PM field | 2020-01-01 01:00:00 and 2020-01-01 13:00:00 both print "2020-01-01 01:00:00" | a 24-hour hour field ("15"), so that the literal names the stored time | not executed | Timestamps.AsWrittenConflatesMorningAndAfternoon | Timestamps.FormatRoundTrip |
