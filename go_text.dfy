/** The pieces of Go's standard library the migrator's text handling relies on:
    decimal printing of integers (fmt's %v, strconv.Itoa), strconv.Atoi,
    strings.Join and strings.Split with a one-character separator. */
module GoText {
  import opened Wrappers

  /** Go's int64 (and int, which is 64 bits wide on the platforms the tool targets). */
  newtype int64 = x: int | -0x8000_0000_0000_0000 <= x < 0x8000_0000_0000_0000

  predicate IsDigit(c: char) {
    '0' <= c <= '9'
  }

  predicate AllDigits(s: string) {
    forall i :: 0 <= i < |s| ==> IsDigit(s[i])
  }

  function DigitChar(d: nat): (c: char)
    requires d < 10
    ensures IsDigit(c)
  {
    ('0' as int + d) as char
  }

  function DigitValue(c: char): (d: nat)
    requires IsDigit(c)
    ensures d < 10 && DigitChar(d) == c
  {
    c as int - '0' as int
  }

  /** The decimal digits of n, most significant first, with no leading zero. */
  function Digits(n: nat): (s: string)
    ensures 1 <= |s| && AllDigits(s)
    ensures |s| > 1 ==> s[0] != '0'
    decreases n
  {
    if n < 10 then [DigitChar(n)] else Digits(n / 10) + [DigitChar(n % 10)]
  }

  /** The number a string of decimal digits denotes (leading zeros allowed). */
  function DigitsValue(s: string): nat
    requires AllDigits(s)
  {
    if |s| == 0 then 0 else DigitsValue(s[..|s| - 1]) * 10 + DigitValue(s[|s| - 1])
  }

  lemma {:induction false} DigitsValueOfDigits(n: nat)
    ensures DigitsValue(Digits(n)) == n
  {
    if n >= 10 {
      var s := Digits(n);
      assert s[..|s| - 1] == Digits(n / 10);
      DigitsValueOfDigits(n / 10);
    }
  }

  function Zeros(k: nat): (s: string)
    ensures |s| == k && AllDigits(s)
  {
    seq(k, _ => '0')
  }

  /** Leading zeros do not change the value of a digit string. */
  lemma {:induction false} DigitsValueLeadingZeros(k: nat, s: string)
    requires AllDigits(s)
    ensures DigitsValue(Zeros(k) + s) == DigitsValue(s)
    decreases |s|
  {
    if |s| == 0 {
      ZerosValue(k);
      assert Zeros(k) + s == Zeros(k);
    } else {
      var t := Zeros(k) + s;
      assert t[..|t| - 1] == Zeros(k) + s[..|s| - 1];
      DigitsValueLeadingZeros(k, s[..|s| - 1]);
    }
  }

  lemma {:induction false} ZerosValue(k: nat)
    ensures DigitsValue(Zeros(k)) == 0
  {
    if k > 0 {
      assert Zeros(k)[..k - 1] == Zeros(k - 1);
      ZerosValue(k - 1);
    }
  }

  /** How fmt's %v (and strconv.Itoa) print an integer. */
  function Decimal(n: int): (s: string)
    ensures 1 <= |s|
    ensures n >= 0 <==> IsDigit(s[0])
  {
    if n < 0 then "-" + Digits(-n) else Digits(n)
  }

  /** The decimal text of an integer is "0" only for zero. */
  lemma DecimalIsZeroText(n: int)
    ensures Decimal(n) == "0" <==> n == 0
  {
    if Decimal(n) == "0" {
      DigitsValueOfDigits(n);
      assert DigitsValue("0") == 0;
    }
  }

  /** strconv.Atoi on a 64-bit platform: an optional '+' or '-' followed by one
      or more decimal digits, whose value must fit in 64 bits; anything else is
      an error (None). */
  function Atoi(s: string): (r: Option<int64>)
    ensures r.Some? ==> 0 < |s|
    ensures r.Some? && IsDigit(s[0]) ==> AllDigits(s) && r.value as int == DigitsValue(s)
  {
    var signed := 0 < |s| && (s[0] == '-' || s[0] == '+');
    var body := if signed then s[1..] else s;
    if |body| == 0 || !AllDigits(body) then None
    else
      var magnitude: int := DigitsValue(body);
      var v := if signed && s[0] == '-' then -magnitude else magnitude;
      if -0x8000_0000_0000_0000 <= v < 0x8000_0000_0000_0000 then Some(v as int64) else None
  }

  /** Atoi of a minus sign and digits. */
  lemma AtoiNegative(d: string, m: nat)
    requires 1 <= |d| && AllDigits(d) && DigitsValue(d) == m && m <= 0x8000_0000_0000_0000
    ensures Atoi("-" + d) == Some((-(m as int)) as int64)
  {
    Behead('-', d);
  }

  /** Atoi reads back what Decimal prints, for every 64-bit integer. */
  lemma AtoiOfDecimal(n: int64)
    ensures Atoi(Decimal(n as int)) == Some(n)
  {
    if n < 0 {
      DigitsValueOfDigits(-(n as int));
      AtoiNegative(Digits(-(n as int)), -(n as int));
    } else {
      DigitsValueOfDigits(n as int);
    }
  }

  // Small facts about texts, stated once so that proofs about particular
  // texts need not re-derive them.

  lemma Behead(c: char, t: string)
    ensures ([c] + t)[0] == c && ([c] + t)[1..] == t
  {
  }

  lemma Rebuild(x: string)
    requires 0 < |x|
    ensures [x[0]] + x[1..] == x
  {
  }

  lemma DropPrefix(p: string, t: string)
    ensures (p + t)[..|p|] == p && (p + t)[|p|..] == t
  {
  }

  lemma ConcatAssoc(a: string, b: string, c: string, d: string)
    ensures a + b + c + d == a + (b + c + d)
  {
  }

  lemma ConcatAssoc6(a: string, b: string, c: string, d: string, e: string, f: string)
    ensures a + b + c + d + e + f == a + (b + c + (d + e + f))
  {
  }

  lemma ConcatAssoc5(a: string, b: string, c: string, d: string, e: string)
    ensures a + b + c + d + e == a + (b + c + d + e)
  {
  }

  /** strings.Join. */
  function Join(xs: seq<string>, sep: string): string {
    if |xs| == 0 then ""
    else if |xs| == 1 then xs[0]
    else xs[0] + sep + Join(xs[1..], sep)
  }

  /** strings.Split with a one-character separator: the pieces between the
      separators, always at least one piece. */
  function Split(s: string, c: char): (r: seq<string>)
    ensures 1 <= |r|
    ensures c in s ==> 2 <= |r|
    ensures forall i :: 0 <= i < |r| ==> c !in r[i]
    decreases |s|
  {
    if |s| == 0 then [""]
    else
      var rest := Split(s[1..], c);
      if s[0] == c then [""] + rest
      else [[s[0]] + rest[0]] + rest[1..]
  }

  lemma {:induction false} SplitWithoutSeparator(s: string, c: char)
    requires c !in s
    ensures Split(s, c) == [s]
    decreases |s|
  {
    if |s| > 0 {
      SplitWithoutSeparator(s[1..], c);
      assert [s[0]] + s[1..] == s;
    }
  }

  /** The first piece ends at the first separator. */
  lemma {:induction false} SplitAtFirstSeparator(a: string, c: char, b: string)
    requires c !in a
    ensures Split(a + [c] + b, c) == [a] + Split(b, c)
    decreases |a|
  {
    var s := a + [c] + b;
    if |a| == 0 {
      assert s[1..] == b;
    } else {
      assert s[1..] == a[1..] + [c] + b;
      SplitAtFirstSeparator(a[1..], c, b);
      assert [a[0]] + a[1..] == a;
    }
  }

  /** Splitting a join gives back the pieces, when no piece holds the separator. */
  lemma {:induction false} SplitOfJoin(xs: seq<string>, c: char)
    requires 1 <= |xs|
    requires forall i :: 0 <= i < |xs| ==> c !in xs[i]
    ensures Split(Join(xs, [c]), c) == xs
    decreases |xs|
  {
    if |xs| == 1 {
      SplitWithoutSeparator(xs[0], c);
    } else {
      SplitOfJoin(xs[1..], c);
      SplitAtFirstSeparator(xs[0], c, Join(xs[1..], [c]));
      assert [xs[0]] + xs[1..] == xs;
    }
  }

  /** strings.Cut with a one-character separator: the text before the first
      separator and the text after it, or nothing when there is none. */
  function Cut(s: string, c: char): (r: Option<(string, string)>)
    ensures r.None? <==> c !in s
    ensures r.Some? ==> c !in r.value.0 && s == r.value.0 + [c] + r.value.1
    decreases |s|
  {
    if |s| == 0 then None
    else if s[0] == c then Some(("", s[1..]))
    else match Cut(s[1..], c)
      case None => None
      case Some((before, after)) => Some(([s[0]] + before, after))
  }

  /** Cutting at the first separator gives back the texts on either side. */
  lemma {:induction false} CutAtFirst(a: string, c: char, b: string)
    requires c !in a
    ensures Cut(a + [c] + b, c) == Some((a, b))
    decreases |a|
  {
    var s := a + [c] + b;
    if |a| == 0 {
      assert s[1..] == b;
    } else {
      assert s[1..] == a[1..] + [c] + b;
      CutAtFirst(a[1..], c, b);
      assert [a[0]] + a[1..] == a;
    }
  }
}
