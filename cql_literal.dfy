/** The value-to-literal encoder: how one value of a row becomes CQL text in an
    INSERT statement (getStringOrNumber and getValueString in cassandra.go),
    together with a reader for the literals it produces, so that what the
    encoder writes can be shown to denote the value it was given. */
module CqlLiteral {
  import opened Wrappers
  import opened GoText
  import opened Timestamps

  /** A value of a row as the driver hands it over, distinguished by the Go
      dynamic type the encoder's type switch and type assertions look at.
      Map entries are listed in the order Go's map iteration yields them. */
  datatype Value =
    | Nil                                      // a nil interface value
    | Str(s: string)                           // string
    | Int(n: int64)                            // int or int64
    | Time(t: Timestamp)                       // time.Time
    | IntSlice(ints: seq<int64>)               // []int
    | Int64Slice(ints: seq<int64>)             // []int64
    | StrSlice(strs: seq<string>)              // []string
    | StrMap(entries: seq<(string, string)>)   // map[string]string
    | Int64StrMap(pairs: seq<(int64, string)>) // map[int64]string
    | Other(text: string)                      // any other driver type, by its %v text

  /** What a failed Go type assertion or nil dereference would panic with. */
  datatype Panic =
    | TypeAssertion(validator: string)
    | NilColumnMetadata(column: string)

  /** The element type of a list or set validator. */
  datatype Elem = IntElem | BigintElem | TextElem

  /** The encodings the validator table selects. */
  datatype Kind =
    | Scalar
    | ListOf(elem: Elem)
    | SetOf(elem: Elem)
    | MapTextText
    | MapBigintText

  const Marshal := "org.apache.cassandra.db.marshal."

  /** The closed table of validator strings, in the short CQL spelling and the
      marshal class spelling, with the encoding each selects. */
  const Validators: seq<(string, Kind)> := [
    ("text", Scalar),
    ("list<int>", ListOf(IntElem)),
    (Marshal + "ListType(" + Marshal + "Int32Type)", ListOf(IntElem)),
    ("list<bigint>", ListOf(BigintElem)),
    (Marshal + "ListType(" + Marshal + "LongType)", ListOf(BigintElem)),
    ("list<text>", ListOf(TextElem)),
    (Marshal + "ListType(" + Marshal + "UTF8Type)", ListOf(TextElem)),
    ("set<int>", SetOf(IntElem)),
    (Marshal + "SetType(" + Marshal + "Int32Type)", SetOf(IntElem)),
    ("set<bigint>", SetOf(BigintElem)),
    (Marshal + "SetType(" + Marshal + "LongType)", SetOf(BigintElem)),
    ("set<text>", SetOf(TextElem)),
    (Marshal + "SetType(" + Marshal + "UTF8Type)", SetOf(TextElem)),
    ("map<text, text>", MapTextText),
    (Marshal + "MapType(" + Marshal + "UTF8Type, " + Marshal + "UTF8Type)", MapTextText),
    ("map<bigint, text>", MapBigintText),
    (Marshal + "MapType(" + Marshal + "LongType, " + Marshal + "UTF8Type)", MapBigintText)
  ]

  /** The encoding of the first entry of the table naming the validator; every
      validator the table does not name uses the scalar rule. */
  function Classify(validator: string): Kind {
    Find(Validators, validator)
  }

  function Find(table: seq<(string, Kind)>, validator: string): (k: Kind)
    ensures k != Scalar ==> exists i :: 0 <= i < |table| && table[i] == (validator, k)
  {
    if |table| == 0 then Scalar
    else if table[0].0 == validator then table[0].1
    else Find(table[1..], validator)
  }

  /** Whether the type assertion of a collection encoding succeeds on v. */
  predicate ShapeMatches(kind: Kind, v: Value) {
    match kind
    case Scalar => true
    case ListOf(e) => ElemShape(e, v)
    case SetOf(e) => ElemShape(e, v)
    case MapTextText => v.StrMap?
    case MapBigintText => v.Int64StrMap?
  }

  predicate ElemShape(e: Elem, v: Value) {
    match e
    case IntElem => v.IntSlice?
    case BigintElem => v.Int64Slice?
    case TextElem => v.StrSlice?
  }

  // ---------------------------------------------------------------------------
  // Scalars

  /** strings.Replace(s, "'", "''", -1): every single quote doubled. */
  function Escape(s: string): string {
    if |s| == 0 then ""
    else (if s[0] == '\'' then "''" else [s[0]]) + Escape(s[1..])
  }

  /** A CQL string literal. */
  function Quote(s: string): string {
    "'" + Escape(s) + "'"
  }

  /** Escaping never shortens the text. */
  lemma {:induction false} EscapeLength(s: string)
    ensures |Escape(s)| >= |s|
    decreases |s|
  {
    if |s| > 0 {
      EscapeLength(s[1..]);
    }
  }

  /** A string literal opens with a quote and is at least two characters
      longer than the string; the empty string's literal is "''". */
  lemma QuoteShape(s: string)
    ensures Quote(s)[0] == '\'' && |Quote(s)| >= |s| + 2
    ensures s == "" ==> Quote(s) == "''"
  {
    EscapeLength(s);
  }

  /** getStringOrNumber: strings are quoted with their quotes doubled, a zero
      time is the empty text, a non-zero time is its quoted text, and anything
      else is printed with %v. */
  function ScalarLiteral(v: Value): string {
    match v
    case Str(s) => Quote(s)
    case Time(t) => if IsZero(t) then "" else "'" + FormatAsWritten(t) + "'"
    case _ => GoFormat(v)
  }

  /** What the scalar rule writes: a string literal reads back as the string,
      an integer as the integer, and a non-zero time as its 12-hour text, which
      gives back every field but the hour, and the hour only on the 12-hour
      clock. Only the zero time gives the empty text, and nil prints as "<nil>". */
  lemma ScalarLiteralReadsBack(v: Value)
    ensures v.Str? ==> ParseQuoted(ScalarLiteral(v)) == Some((v.s, ""))
    ensures v.Int? ==> Atoi(ScalarLiteral(v)) == Some(v.n)
    ensures v.Time? ==> (ScalarLiteral(v) == "" <==> IsZero(v.t))
    ensures v.Time? && !IsZero(v.t) ==> ParseQuoted(ScalarLiteral(v)) == Some((FormatAsWritten(v.t), ""))
    ensures v.Time? ==> ParseFormatted(FormatAsWritten(v.t)) == Some(FieldsOf(v.t).(hour := Hour12(v.t.hour)))
    ensures v.Nil? ==> ScalarLiteral(v) == "<nil>"
  {
    match v
    case Str(s) =>
      assert ScalarLiteral(v) == Quote(s) + "";
      QuoteRoundTrip(s, "");
    case Time(t) =>
      FormatAsWrittenReadsBack(t);
      if !IsZero(t) {
        TimeLiteralReadsBack(t);
      }
    case Int(n) =>
      assert ScalarLiteral(v) == Decimal(n as int);
      AtoiOfDecimal(n);
    case _ =>
  }

  lemma TimeLiteralReadsBack(t: Timestamp)
    requires !IsZero(t)
    ensures ParseQuoted(ScalarLiteral(Time(t))) == Some((FormatAsWritten(t), ""))
  {
    assert ScalarLiteral(Time(t)) == "'" + FormatAsWritten(t) + "'";
    FormatAsWrittenHasNoQuote(t);
    QuoteFreeRoundTrip(FormatAsWritten(t));
  }

  /** fmt's %v for the values the scalar rule leaves to it. Slices print as
      "[a b c]", maps as "map[k:v k:v]" with their keys sorted, as fmt does. */
  function GoFormat(v: Value): string
    requires !v.Str? && !v.Time?
  {
    match v
    case Nil => "<nil>"
    case Int(n) => Decimal(n as int)
    case IntSlice(xs) => "[" + Join(MapSeq(DecimalOf, xs), " ") + "]"
    case Int64Slice(xs) => "[" + Join(MapSeq(DecimalOf, xs), " ") + "]"
    case StrSlice(xs) => "[" + Join(xs, " ") + "]"
    case StrMap(es) =>
      "map[" + Join(MapSeq(PlainTextEntry, SortByKey(es, LessText)), " ") + "]"
    case Int64StrMap(ps) =>
      "map[" + Join(MapSeq(PlainBigintEntry, SortByKey(ps, LessInt)), " ") + "]"
    case Other(text) => text
  }

  /** %v of an integer slice reads back: the empty slice prints as "[]", and
      otherwise the text between the brackets, split at its spaces, gives
      one piece per element, in order, which Atoi reads as that element. */
  lemma GoFormatIntsReadBack(v: Value)
    requires v.IntSlice? || v.Int64Slice?
    ensures GoFormat(v) == "[]" <==> |v.ints| == 0
    ensures Unwrap(GoFormat(v), '[', ']').Some?
    ensures 0 < |v.ints| ==>
              var pieces := Split(Unwrap(GoFormat(v), '[', ']').value, ' ');
              && |pieces| == |v.ints|
              && forall i :: 0 <= i < |v.ints| ==> Atoi(pieces[i]) == Some(v.ints[i])
  {
    var texts := MapSeq(DecimalOf, v.ints);
    var body := Join(texts, " ");
    Enclose(body);
    if 0 < |v.ints| {
      forall i | 0 <= i < |texts|
        ensures ' ' !in texts[i]
      {
        DecimalHasNoSpace(v.ints[i] as int);
      }
      JoinNonEmpty(texts, " ");
      SplitOfJoin(texts, ' ');
      forall i | 0 <= i < |v.ints|
        ensures Atoi(texts[i]) == Some(v.ints[i])
      {
        AtoiOfDecimal(v.ints[i]);
      }
    }
  }

  /** %v of a string slice reads back when no element holds a space and the
      slice is not empty: the text between the brackets, split at its spaces,
      is the slice. */
  lemma GoFormatStringsReadBack(v: Value)
    requires v.StrSlice? && 0 < |v.strs|
    requires forall i :: 0 <= i < |v.strs| ==> ' ' !in v.strs[i]
    ensures Unwrap(GoFormat(v), '[', ']').Some?
    ensures Split(Unwrap(GoFormat(v), '[', ']').value, ' ') == v.strs
  {
    Enclose(Join(v.strs, " "));
    SplitOfJoin(v.strs, ' ');
  }

  lemma Enclose(body: string)
    ensures Unwrap("[" + body + "]", '[', ']') == Some(body)
    ensures "[" + body + "]" == "[]" <==> body == ""
  {
    var w := "[" + body + "]";
    assert w[1..|w| - 1] == body;
  }

  lemma DecimalHasNoSpace(n: int)
    ensures ' ' !in Decimal(n)
  {
    var d := Digits(if n < 0 then -n else n);
    assert forall i :: 0 <= i < |d| ==> IsDigit(d[i]);
    if n < 0 {
      assert Decimal(n) == "-" + d;
    }
  }

  function DecimalOf(n: int64): string {
    Decimal(n as int)
  }

  function PlainTextEntry(e: (string, string)): string {
    e.0 + ":" + e.1
  }

  function PlainBigintEntry(e: (int64, string)): string {
    Decimal(e.0 as int) + ":" + e.1
  }

  function MapSeq<A, B>(f: A -> B, xs: seq<A>): (r: seq<B>)
    ensures |r| == |xs|
    ensures forall i :: 0 <= i < |xs| ==> r[i] == f(xs[i])
  {
    seq(|xs|, i requires 0 <= i < |xs| => f(xs[i]))
  }

  /** Byte-wise (code point) order of Go's string comparison. */
  function LessText(a: string, b: string): bool {
    if |a| == 0 then |b| > 0
    else if |b| == 0 then false
    else if a[0] != b[0] then a[0] < b[0]
    else LessText(a[1..], b[1..])
  }

  function LessInt(a: int64, b: int64): bool {
    a < b
  }

  function SortByKey<K, V>(es: seq<(K, V)>, less: (K, K) -> bool): seq<(K, V)> {
    if |es| == 0 then [] else InsertByKey(es[0], SortByKey(es[1..], less), less)
  }

  function InsertByKey<K, V>(e: (K, V), sorted: seq<(K, V)>, less: (K, K) -> bool): seq<(K, V)> {
    if |sorted| == 0 then [e]
    else if less(sorted[0].0, e.0) then [sorted[0]] + InsertByKey(e, sorted[1..], less)
    else [e] + sorted
  }

  // ---------------------------------------------------------------------------
  // Collections

  /** Each element of a collection is encoded with the scalar rule. */
  function IntElement(n: int64): (r: string)
  {
    Decimal(n as int)
  }

  function TextElement(s: string): (r: string)
  {
    Quote(s)
  }

  function TextTextEntry(e: (string, string)): (r: string)
  {
    Quote(e.0) + ":" + Quote(e.1)
  }

  function BigintTextEntry(e: (int64, string)): (r: string)
  {
    Decimal(e.0 as int) + ":" + Quote(e.1)
  }

  /** The element and entry encoders are the scalar rule applied to each part. */
  lemma ElementsUseScalarRule(n: int64, s: string, k: string, v: string)
    ensures IntElement(n) == ScalarLiteral(Int(n))
    ensures TextElement(s) == ScalarLiteral(Str(s))
    ensures TextTextEntry((k, v)) == ScalarLiteral(Str(k)) + ":" + ScalarLiteral(Str(v))
    ensures BigintTextEntry((n, v)) == ScalarLiteral(Int(n)) + ":" + ScalarLiteral(Str(v))
  {
  }

  /** The element literals of a collection value, in its order. */
  function Items(v: Value): seq<string> {
    match v
    case IntSlice(xs) => MapSeq(IntElement, xs)
    case Int64Slice(xs) => MapSeq(IntElement, xs)
    case StrSlice(xs) => MapSeq(TextElement, xs)
    case StrMap(es) => MapSeq(TextTextEntry, es)
    case Int64StrMap(ps) => MapSeq(BigintTextEntry, ps)
    case _ => []
  }

  /** Lists in square brackets, sets and maps in braces, items comma-joined. */
  function CollectionLiteral(kind: Kind, v: Value): string
    requires kind != Scalar
  {
    if kind.ListOf? then "[" + Join(Items(v), ",") + "]"
    else "{" + Join(Items(v), ",") + "}"
  }

  /** getValueString: the validator picks the encoding; a collection value whose
      Go type is not the one its validator asserts is a panic. */
  function ValueLiteral(v: Value, validator: string): (r: Result<string, Panic>)
    ensures r.Ok? <==> ShapeMatches(Classify(validator), v)
    ensures Classify(validator) == Scalar ==> r == Ok(ScalarLiteral(v))
    ensures r.Err? ==> r.error == TypeAssertion(validator)
  {
    var kind := Classify(validator);
    if kind == Scalar then Ok(ScalarLiteral(v))
    else if ShapeMatches(kind, v) then Ok(CollectionLiteral(kind, v))
    else Err(TypeAssertion(validator))
  }

  // ---------------------------------------------------------------------------
  // Reading literals back

  /** The rest of a string literal after its opening quote: text up to the
      first quote that is not doubled, and what follows that quote. */
  function ParseQuotedBody(s: string): (r: Option<(string, string)>)
    ensures r.Some? ==> |r.value.1| < |s|
    decreases |s|
  {
    if |s| == 0 then None
    else if s[0] == '\'' then
      if 2 <= |s| && s[1] == '\'' then
        match ParseQuotedBody(s[2..])
        case None => None
        case Some((x, rest)) => Some(("'" + x, rest))
      else Some(("", s[1..]))
    else
      match ParseQuotedBody(s[1..])
      case None => None
      case Some((x, rest)) => Some(([s[0]] + x, rest))
  }

  /** A CQL string literal at the front of s: its text and what follows it. */
  function ParseQuoted(s: string): (r: Option<(string, string)>)
    ensures r.Some? ==> |r.value.1| < |s|
  {
    if 0 < |s| && s[0] == '\'' then ParseQuotedBody(s[1..]) else None
  }

  lemma {:induction false} QuotedBodyRoundTrip(x: string, rest: string)
    requires rest == "" || rest[0] != '\''
    ensures ParseQuotedBody(Escape(x) + "'" + rest) == Some((x, rest))
    decreases |x|
  {
    if |x| == 0 {
      var s := Escape(x) + "'" + rest;
      assert s == "'" + rest;
      assert s[1..] == rest;
    } else {
      QuotedBodyRoundTrip(x[1..], rest);
      if x[0] == '\'' {
        DoubledQuoteStep(x, rest);
      } else {
        PlainCharStep(x, rest);
      }
    }
  }

  lemma DoubledQuoteStep(x: string, rest: string)
    requires 0 < |x| && x[0] == '\''
    requires ParseQuotedBody(Escape(x[1..]) + "'" + rest) == Some((x[1..], rest))
    ensures ParseQuotedBody(Escape(x) + "'" + rest) == Some((x, rest))
  {
    var t := Escape(x[1..]) + "'" + rest;
    ConcatAssoc("''", Escape(x[1..]), "'", rest);
    DropPrefix("''", t);
    Rebuild(x);
  }

  lemma PlainCharStep(x: string, rest: string)
    requires 0 < |x| && x[0] != '\''
    requires ParseQuotedBody(Escape(x[1..]) + "'" + rest) == Some((x[1..], rest))
    ensures ParseQuotedBody(Escape(x) + "'" + rest) == Some((x, rest))
  {
    var t := Escape(x[1..]) + "'" + rest;
    ConcatAssoc([x[0]], Escape(x[1..]), "'", rest);
    Behead(x[0], t);
    Rebuild(x);
  }

  /** A quoted string reads back as the string, whatever it holds. */
  lemma QuoteRoundTrip(x: string, rest: string)
    requires rest == "" || rest[0] != '\''
    ensures ParseQuoted(Quote(x) + rest) == Some((x, rest))
  {
    var s := Quote(x) + rest;
    assert s[1..] == Escape(x) + "'" + rest;
    QuotedBodyRoundTrip(x, rest);
  }

  /** Text with no quote in it, between quotes, reads back unchanged. */
  lemma QuoteFreeRoundTrip(x: string)
    requires '\'' !in x
    ensures ParseQuoted("'" + x + "'") == Some((x, ""))
  {
    EscapeQuoteFree(x);
    QuoteRoundTrip(x, "");
    assert Quote(x) + "" == "'" + x + "'";
  }

  lemma {:induction false} EscapeQuoteFree(x: string)
    requires '\'' !in x
    ensures Escape(x) == x
    decreases |x|
  {
    if |x| > 0 {
      EscapeQuoteFree(x[1..]);
      assert [x[0]] + x[1..] == x;
    }
  }

  /** The length of the run of digits at the front of s. */
  function DigitRun(s: string): (k: nat)
    ensures k <= |s| && AllDigits(s[..k])
    ensures k < |s| ==> !IsDigit(s[k])
    decreases |s|
  {
    if 0 < |s| && IsDigit(s[0]) then
      var k := 1 + DigitRun(s[1..]);
      assert s[..k] == [s[0]] + s[1..][..k - 1];
      k
    else 0
  }

  /** A run of digits at the front of s: its value and what follows it. */
  function ParseUnsigned(s: string): (r: Option<(nat, string)>)
    ensures r.Some? ==> |r.value.1| < |s|
  {
    var k := DigitRun(s);
    if k == 0 then None else Some((DigitsValue(s[..k]), s[k..]))
  }

  /** A 64-bit integer literal at the front of s: an optional minus sign and a
      run of digits. */
  function ParseIntToken(s: string): (r: Option<(int64, string)>)
    ensures r.Some? ==> |r.value.1| < |s|
  {
    var negative := 0 < |s| && s[0] == '-';
    match ParseUnsigned(if negative then s[1..] else s)
    case None => None
    case Some((magnitude, rest)) =>
      var n: int := if negative then -(magnitude as int) else magnitude;
      if -0x8000_0000_0000_0000 <= n < 0x8000_0000_0000_0000 then Some((n as int64, rest)) else None
  }

  lemma {:induction false} DigitRunOfDigits(d: string, rest: string)
    requires AllDigits(d)
    requires rest == "" || !IsDigit(rest[0])
    ensures DigitRun(d + rest) == |d|
    decreases |d|
  {
    if |d| > 0 {
      assert (d + rest)[1..] == d[1..] + rest;
      DigitRunOfDigits(d[1..], rest);
    } else {
      assert d + rest == rest;
    }
  }

  lemma UnsignedRoundTrip(m: nat, rest: string)
    requires rest == "" || !IsDigit(rest[0])
    ensures ParseUnsigned(Digits(m) + rest) == Some((m, rest))
  {
    var d := Digits(m);
    DigitRunOfDigits(d, rest);
    assert (d + rest)[..|d|] == d && (d + rest)[|d|..] == rest;
    DigitsValueOfDigits(m);
  }

  lemma IntTokenRoundTrip(n: int64, rest: string)
    requires rest == "" || !IsDigit(rest[0])
    ensures ParseIntToken(IntElement(n) + rest) == Some((n, rest))
  {
    if n < 0 {
      var m: nat := -(n as int);
      UnsignedRoundTrip(m, rest);
      NegativeToken(Digits(m), m, rest);
    } else {
      UnsignedRoundTrip(n as int, rest);
      NonNegativeToken(Digits(n as int), n as int, rest);
    }
  }

  /** A minus sign and digits read as a negative integer. */
  lemma NegativeToken(d: string, m: nat, rest: string)
    requires ParseUnsigned(d + rest) == Some((m, rest)) && m <= 0x8000_0000_0000_0000
    ensures ParseIntToken("-" + d + rest) == Some(((-(m as int)) as int64, rest))
  {
    AfterSeparator('-', d, rest);
  }

  /** Digits with no sign read as a non-negative integer. */
  lemma NonNegativeToken(d: string, m: nat, rest: string)
    requires 1 <= |d| && AllDigits(d)
    requires ParseUnsigned(d + rest) == Some((m, rest)) && m < 0x8000_0000_0000_0000
    ensures ParseIntToken(d + rest) == Some((m as int64, rest))
  {
    assert (d + rest)[0] == d[0];
  }

  /** A "key":"value" entry of a map<text, text> literal. */
  function ParseTextTextEntry(s: string): (r: Option<((string, string), string)>)
    ensures r.Some? ==> |r.value.1| < |s|
  {
    match ParseQuoted(s)
    case None => None
    case Some((k, afterKey)) =>
      if 0 < |afterKey| && afterKey[0] == ':' then
        match ParseQuoted(afterKey[1..])
        case None => None
        case Some((v, rest)) => Some(((k, v), rest))
      else None
  }

  /** A key:"value" entry of a map<bigint, text> literal. */
  function ParseBigintTextEntry(s: string): (r: Option<((int64, string), string)>)
    ensures r.Some? ==> |r.value.1| < |s|
  {
    match ParseIntToken(s)
    case None => None
    case Some((k, afterKey)) =>
      if 0 < |afterKey| && afterKey[0] == ':' then
        match ParseQuoted(afterKey[1..])
        case None => None
        case Some((v, rest)) => Some(((k, v), rest))
      else None
  }

  /** An item reader always consumes something. */
  ghost predicate Consumes<T>(item: string -> Option<(T, string)>) {
    forall s :: item(s).Some? ==> |item(s).value.1| < |s|
  }

  /** Items separated by commas, filling all of s. */
  function ParseItems<T>(item: string -> Option<(T, string)>, s: string): Option<seq<T>>
    requires Consumes(item)
    decreases |s|
  {
    match item(s)
    case None => None
    case Some((x, rest)) =>
      if rest == "" then Some([x])
      else if rest[0] != ',' then None
      else
        match ParseItems(item, rest[1..])
        case None => None
        case Some(xs) => Some([x] + xs)
  }

  /** The reader gives back x from its encoding when a comma or the end follows. */
  ghost predicate ReadsBack<T>(item: string -> Option<(T, string)>, enc: T -> string, x: T, rest: string) {
    item(enc(x) + rest) == Some((x, rest))
  }

  ghost predicate ReadsBackAll<T(!new)>(item: string -> Option<(T, string)>, enc: T -> string) {
    forall x, rest {:trigger ReadsBack(item, enc, x, rest)} ::
      (rest == "" || rest[0] == ',') ==> ReadsBack(item, enc, x, rest)
  }

  lemma {:induction false} ParseItemsOfJoin<T(!new)>(item: string -> Option<(T, string)>, enc: T -> string, xs: seq<T>)
    requires Consumes(item) && ReadsBackAll(item, enc)
    requires 1 <= |xs|
    ensures ParseItems(item, Join(MapSeq(enc, xs), ",")) == Some(xs)
    decreases |xs|
  {
    var lits := MapSeq(enc, xs);
    if |xs| == 1 {
      assert ReadsBack(item, enc, xs[0], "");
      assert Join(lits, ",") == enc(xs[0]) + "";
      assert [xs[0]] == xs;
    } else {
      var tail := Join(MapSeq(enc, xs[1..]), ",");
      assert lits[1..] == MapSeq(enc, xs[1..]);
      assert Join(lits, ",") == enc(xs[0]) + ("," + tail);
      assert ReadsBack(item, enc, xs[0], "," + tail);
      assert ("," + tail)[1..] == tail;
      ParseItemsOfJoin(item, enc, xs[1..]);
      assert [xs[0]] + xs[1..] == xs;
    }
  }

  lemma JoinNonEmpty(xs: seq<string>, sep: string)
    requires 1 <= |xs| && xs[0] != ""
    ensures Join(xs, sep) != ""
  {
    if |xs| > 1 {
      assert Join(xs, sep)[0] == xs[0][0];
    }
  }

  function Unwrap(lit: string, open: char, close: char): Option<string> {
    if 2 <= |lit| && lit[0] == open && lit[|lit| - 1] == close then Some(lit[1..|lit| - 1]) else None
  }

  /** Reads a collection literal of the given kind back into a value. */
  function DecodeCollection(kind: Kind, lit: string): Option<Value>
    requires kind != Scalar
  {
    var inner := Unwrap(lit, if kind.ListOf? then '[' else '{', if kind.ListOf? then ']' else '}');
    if inner.None? then None
    else
      var body := inner.value;
      match kind
      case ListOf(e) => DecodeElems(e, body)
      case SetOf(e) => DecodeElems(e, body)
      case MapTextText =>
        if body == "" then Some(StrMap([]))
        else (match ParseItems(ParseTextTextEntry, body)
              case None => None
              case Some(es) => Some(StrMap(es)))
      case MapBigintText =>
        if body == "" then Some(Int64StrMap([]))
        else (match ParseItems(ParseBigintTextEntry, body)
              case None => None
              case Some(ps) => Some(Int64StrMap(ps)))
  }

  function DecodeElems(e: Elem, body: string): Option<Value> {
    match e
    case IntElem =>
      if body == "" then Some(IntSlice([]))
      else (match ParseItems(ParseIntToken, body) case None => None case Some(xs) => Some(IntSlice(xs)))
    case BigintElem =>
      if body == "" then Some(Int64Slice([]))
      else (match ParseItems(ParseIntToken, body) case None => None case Some(xs) => Some(Int64Slice(xs)))
    case TextElem =>
      if body == "" then Some(StrSlice([]))
      else (match ParseItems(ParseQuoted, body) case None => None case Some(xs) => Some(StrSlice(xs)))
  }

  lemma IntItemsReadBack()
    ensures Consumes(ParseIntToken) && ReadsBackAll(ParseIntToken, IntElement)
  {
    forall x: int64, rest: string | rest == "" || rest[0] == ','
      ensures ReadsBack(ParseIntToken, IntElement, x, rest)
    {
      IntTokenRoundTrip(x, rest);
    }
  }

  lemma TextItemsReadBack()
    ensures Consumes(ParseQuoted) && ReadsBackAll(ParseQuoted, TextElement)
  {
    forall x: string, rest: string | rest == "" || rest[0] == ','
      ensures ReadsBack(ParseQuoted, TextElement, x, rest)
    {
      QuoteRoundTrip(x, rest);
    }
  }

  lemma AfterSeparator(sep: char, x: string, rest: string)
    ensures ([sep] + x + rest)[0] == sep && ([sep] + x + rest)[1..] == x + rest
  {
  }

  /** A map<text, text> entry read from its two parsed halves. */
  lemma TextEntryOfParts(s: string, afterKey: string, rest: string, k: string, v: string)
    requires ParseQuoted(s) == Some((k, afterKey))
    requires 0 < |afterKey| && afterKey[0] == ':'
    requires ParseQuoted(afterKey[1..]) == Some((v, rest))
    ensures ParseTextTextEntry(s) == Some(((k, v), rest))
  {
  }

  /** A map<bigint, text> entry read from its two parsed halves. */
  lemma BigintEntryOfParts(s: string, afterKey: string, rest: string, k: int64, v: string)
    requires ParseIntToken(s) == Some((k, afterKey))
    requires 0 < |afterKey| && afterKey[0] == ':'
    requires ParseQuoted(afterKey[1..]) == Some((v, rest))
    ensures ParseBigintTextEntry(s) == Some(((k, v), rest))
  {
  }

  lemma TextTextEntryRoundTrip(e: (string, string), rest: string)
    requires rest == "" || rest[0] == ','
    ensures ParseTextTextEntry(TextTextEntry(e) + rest) == Some((e, rest))
  {
    var afterKey := ":" + Quote(e.1) + rest;
    AfterSeparator(':', Quote(e.1), rest);
    QuoteRoundTrip(e.0, afterKey);
    QuoteRoundTrip(e.1, rest);
    ConcatAssoc(Quote(e.0), ":", Quote(e.1), rest);
    TextEntryOfParts(TextTextEntry(e) + rest, afterKey, rest, e.0, e.1);
  }

  lemma BigintTextEntryRoundTrip(e: (int64, string), rest: string)
    requires rest == "" || rest[0] == ','
    ensures ParseBigintTextEntry(BigintTextEntry(e) + rest) == Some((e, rest))
  {
    var afterKey := ":" + Quote(e.1) + rest;
    AfterSeparator(':', Quote(e.1), rest);
    IntTokenRoundTrip(e.0, afterKey);
    QuoteRoundTrip(e.1, rest);
    ConcatAssoc(IntElement(e.0), ":", Quote(e.1), rest);
    BigintEntryOfParts(BigintTextEntry(e) + rest, afterKey, rest, e.0, e.1);
  }

  lemma TextTextEntriesReadBack()
    ensures Consumes(ParseTextTextEntry) && ReadsBackAll(ParseTextTextEntry, TextTextEntry)
  {
    forall e: (string, string), rest: string | rest == "" || rest[0] == ','
      ensures ReadsBack(ParseTextTextEntry, TextTextEntry, e, rest)
    {
      TextTextEntryRoundTrip(e, rest);
    }
  }

  lemma BigintTextEntriesReadBack()
    ensures Consumes(ParseBigintTextEntry) && ReadsBackAll(ParseBigintTextEntry, BigintTextEntry)
  {
    forall e: (int64, string), rest: string | rest == "" || rest[0] == ','
      ensures ReadsBack(ParseBigintTextEntry, BigintTextEntry, e, rest)
    {
      BigintTextEntryRoundTrip(e, rest);
    }
  }

  /** Items that read back, comma-joined, read back as all of them; the text
      is not empty when the first item's encoding is not. */
  lemma ItemsRoundTrip<T(!new)>(item: string -> Option<(T, string)>, enc: T -> string, xs: seq<T>)
    requires Consumes(item) && ReadsBackAll(item, enc)
    requires 1 <= |xs| && enc(xs[0]) != ""
    ensures Join(MapSeq(enc, xs), ",") != ""
    ensures ParseItems(item, Join(MapSeq(enc, xs), ",")) == Some(xs)
  {
    ParseItemsOfJoin(item, enc, xs);
    JoinNonEmpty(MapSeq(enc, xs), ",");
  }

  /** The brackets of a collection literal enclose its comma-joined items. */
  lemma CollectionBody(kind: Kind, v: Value)
    requires kind != Scalar
    ensures Unwrap(CollectionLiteral(kind, v), if kind.ListOf? then '[' else '{', if kind.ListOf? then ']' else '}')
            == Some(Join(Items(v), ","))
  {
    var lit := CollectionLiteral(kind, v);
    assert lit[1..|lit| - 1] == Join(Items(v), ",");
  }

  /** The items of a list or set read back as the elements. */
  lemma ElemsRoundTrip(e: Elem, v: Value)
    requires ElemShape(e, v)
    ensures DecodeElems(e, Join(Items(v), ",")) == Some(v)
  {
    match v
    case IntSlice(xs) =>
      if |xs| > 0 {
        IntItemsReadBack();
        ItemsRoundTrip(ParseIntToken, IntElement, xs);
      }
    case Int64Slice(xs) =>
      if |xs| > 0 {
        IntItemsReadBack();
        ItemsRoundTrip(ParseIntToken, IntElement, xs);
      }
    case StrSlice(xs) =>
      if |xs| > 0 {
        TextItemsReadBack();
        QuoteShape(xs[0]);
        ItemsRoundTrip(ParseQuoted, TextElement, xs);
      }
  }

  /** The entries of a map read back as the entries, in their order. */
  lemma EntriesRoundTrip(kind: Kind, v: Value)
    requires kind == MapTextText || kind == MapBigintText
    requires ShapeMatches(kind, v)
    ensures DecodeCollection(kind, CollectionLiteral(kind, v)) == Some(v)
  {
    CollectionBody(kind, v);
    match v
    case StrMap(es) =>
      if |es| > 0 {
        TextTextEntriesReadBack();
        QuoteShape(es[0].0);
        ItemsRoundTrip(ParseTextTextEntry, TextTextEntry, es);
      }
    case Int64StrMap(ps) =>
      if |ps| > 0 {
        BigintTextEntriesReadBack();
        ItemsRoundTrip(ParseBigintTextEntry, BigintTextEntry, ps);
      }
  }

  /** Every collection literal the encoder writes reads back as the value it
      was given: same elements, same order, same entries. */
  lemma CollectionRoundTrip(kind: Kind, v: Value)
    requires kind != Scalar && ShapeMatches(kind, v)
    ensures DecodeCollection(kind, CollectionLiteral(kind, v)) == Some(v)
  {
    match kind
    case ListOf(e) =>
      CollectionBody(kind, v);
      ElemsRoundTrip(e, v);
    case SetOf(e) =>
      CollectionBody(kind, v);
      ElemsRoundTrip(e, v);
    case _ =>
      EntriesRoundTrip(kind, v);
  }

  /** What getValueString writes for a collection validator reads back as the
      row's value. */
  lemma ValueLiteralRoundTrip(v: Value, validator: string)
    requires Classify(validator) != Scalar
    requires ValueLiteral(v, validator).Ok?
    ensures DecodeCollection(Classify(validator), ValueLiteral(v, validator).value) == Some(v)
  {
    CollectionRoundTrip(Classify(validator), v);
  }
}
