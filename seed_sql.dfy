/**
 * The SQL seed generator: every (passport, destination) entry of the two
 * lookup files becomes a row tuple `('<passport>','<destination>',<policy>,<duration>)`
 * with the strings written as SQL character string literals, and the
 * tuples go 200 at a time into `INSERT ... ON CONFLICT ... DO UPDATE`
 * statements, joined by newlines into the seed file.
 */
module SeedSql {
  import opened JsValues
  import opened Slices
  import opened PolicyData

  const Quote: char := '\''

  // ---------------------------------------------------------------------
  // String literals (the <quote symbol> rule of section 5.3 of ISO/IEC 9075-2)
  // ---------------------------------------------------------------------

  /** The number of single quotes in `s`. */
  function QuoteCount(s: string): nat {
    if s == [] then 0 else (if s[0] == Quote then 1 else 0) + QuoteCount(s[1..])
  }

  /** `s.replace(/'/g, "''")`: every single quote doubled. */
  function Escape(s: string): (e: string)
    ensures |e| == |s| + QuoteCount(s)
  {
    if s == [] then ""
    else (if s[0] == Quote then [Quote, Quote] else [s[0]]) + Escape(s[1..])
  }

  /** Undoing the escape: every doubled quote back to one quote. */
  function Unescape(e: string): string {
    if e == [] then ""
    else if |e| >= 2 && e[0] == Quote && e[1] == Quote then [Quote] + Unescape(e[2..])
    else [e[0]] + Unescape(e[1..])
  }

  /** Quotes come in adjacent pairs only: no quote in `e` is unpaired. */
  predicate Paired(e: string) {
    if e == [] then true
    else if e[0] == Quote then |e| >= 2 && e[1] == Quote && Paired(e[2..])
    else Paired(e[1..])
  }

  /** Escaping loses nothing: un-doubling the quotes gives the original string back. */
  lemma {:induction false} UnescapeEscape(s: string)
    ensures Unescape(Escape(s)) == s
  {
    if s != [] {
      var head := if s[0] == Quote then [Quote, Quote] else [s[0]];
      assert Escape(s) == head + Escape(s[1..]);
      UnescapeEscape(s[1..]);
      if s[0] == Quote {
        assert (head + Escape(s[1..]))[2..] == Escape(s[1..]);
      } else {
        assert (head + Escape(s[1..]))[1..] == Escape(s[1..]);
      }
    }
  }

  /** Every quote of an escaped string has its partner right after it. */
  lemma {:induction false} EscapePaired(s: string)
    ensures Paired(Escape(s))
  {
    if s != [] {
      var head := if s[0] == Quote then [Quote, Quote] else [s[0]];
      EscapePaired(s[1..]);
      if s[0] == Quote {
        assert (head + Escape(s[1..]))[2..] == Escape(s[1..]);
      } else {
        assert (head + Escape(s[1..]))[1..] == Escape(s[1..]);
      }
    }
  }

  /**
   * `${sEsc}'` followed by `rest`: the body of a character string literal
   * whose opening quote has already been written, its closing quote, and
   * what follows the literal.
   */
  function Quoted(s: string, rest: string): string {
    Escape(s) + [Quote] + rest
  }

  /**
   * Reads the body of a character string literal whose opening quote has
   * been consumed: a doubled quote stands for one quote, a single quote
   * ends the literal. Gives the string and what follows the closing quote,
   * or `None` when the literal is not closed.
   */
  function ReadQuoted(t: string): Option<(string, string)> {
    if t == [] then None
    else if t[0] == Quote then
      if |t| >= 2 && t[1] == Quote then
        match ReadQuoted(t[2..])
        case None => None
        case Some(res) => Some(([Quote] + res.0, res.1))
      else Some(("", t[1..]))
    else
      match ReadQuoted(t[1..])
      case None => None
      case Some(res) => Some(([t[0]] + res.0, res.1))
  }

  /**
   * A reader of SQL literals gets back exactly the escaped string, and
   * stops at the closing quote, whatever follows it (when it does not
   * start with a quote, as in the tuples, where a comma follows).
   */
  lemma {:induction false} ReadQuotedEscape(s: string, rest: string)
    requires rest == [] || rest[0] != Quote
    ensures ReadQuoted(Quoted(s, rest)) == Some((s, rest))
  {
    if s == [] {
      var t := [Quote] + rest;
      assert Quoted(s, rest) == t;
      assert t[1..] == rest;
      assert !(|t| >= 2 && t[1] == Quote);
    } else {
      var tail := Quoted(s[1..], rest);
      QuotedCons(s, rest);
      ReadQuotedEscape(s[1..], rest);
      if s[0] == Quote {
        var t := [Quote, Quote] + tail;
        assert t[2..] == tail;
        assert [Quote] + s[1..] == s;
        assert ReadQuoted(t) == Some(([Quote] + s[1..], rest));
      } else {
        var t := [s[0]] + tail;
        assert t[1..] == tail;
        assert [s[0]] + s[1..] == s;
        assert ReadQuoted(t) == Some(([s[0]] + s[1..], rest));
      }
    }
  }

  /** The first character of the name, escaped, comes first. */
  lemma QuotedCons(s: string, rest: string)
    requires s != []
    ensures Quoted(s, rest) == (if s[0] == Quote then [Quote, Quote] else [s[0]]) + Quoted(s[1..], rest)
  {
    var head := if s[0] == Quote then [Quote, Quote] else [s[0]];
    assert Escape(s) == head + Escape(s[1..]);
    Assoc3(head, Escape(s[1..]), [Quote] + rest);
    Assoc3(Escape(s), [Quote], rest);
    Assoc3(Escape(s[1..]), [Quote], rest);
  }

  lemma Assoc3(a: string, b: string, c: string)
    ensures a + b + c == a + (b + c)
  {
  }

  // ---------------------------------------------------------------------
  // Integers as JavaScript writes them in a template literal
  // ---------------------------------------------------------------------

  function DigitChar(d: nat): char
    requires d < 10
  {
    ('0' as int + d) as char
  }

  predicate IsDigit(c: char) {
    '0' <= c <= '9'
  }

  /** The decimal digits of `n`, without leading zeros. */
  function Digits(n: nat): (s: string)
    ensures |s| > 0
    ensures forall i :: 0 <= i < |s| ==> IsDigit(s[i])
  {
    if n < 10 then [DigitChar(n)] else Digits(n / 10) + [DigitChar(n % 10)]
  }

  /** `${n}` for an integer `n`: a minus sign for a negative one, then its digits. */
  function Decimal(n: int): string {
    if n < 0 then "-" + Digits(-n) else Digits(n)
  }

  function DigitValue(c: char): (v: nat)
    requires IsDigit(c)
    ensures v < 10
  {
    (c as int - '0' as int) as nat
  }

  function DigitsValue(s: string): nat
    requires forall i :: 0 <= i < |s| ==> IsDigit(s[i])
  {
    if s == [] then 0 else DigitsValue(s[..|s| - 1]) * 10 + DigitValue(s[|s| - 1])
  }

  /** Reads an optional minus sign followed by one or more digits. */
  function ParseInt(s: string): Option<int> {
    if |s| > 1 && s[0] == '-' && forall i :: 1 <= i < |s| ==> IsDigit(s[i]) then Some(0 - DigitsValue(s[1..]))
    else if |s| > 0 && forall i :: 0 <= i < |s| ==> IsDigit(s[i]) then Some(DigitsValue(s))
    else None
  }

  lemma {:induction false} DigitsRoundTrip(n: nat)
    ensures DigitsValue(Digits(n)) == n
  {
    if n >= 10 {
      DigitsRoundTrip(n / 10);
      var s := Digits(n);
      assert s == Digits(n / 10) + [DigitChar(n % 10)];
      assert s[..|s| - 1] == Digits(n / 10);
    }
  }

  /** Reading back what `${n}` wrote gives `n`. */
  lemma DecimalRoundTrip(n: int)
    ensures ParseInt(Decimal(n)) == Some(n)
  {
    if n < 0 {
      NegativeRoundTrip(n);
    } else {
      DigitsRoundTrip(n);
      var s := Digits(n);
      assert IsDigit(s[0]);
      assert ParseInt(s) == Some(DigitsValue(s));
    }
  }

  lemma NegativeRoundTrip(n: int)
    requires n < 0
    ensures ParseInt(Decimal(n)) == Some(n)
  {
    var ds := Digits(-n);
    assert Decimal(n) == "-" + ds;
    ParseNegative(ds);
    DigitsRoundTrip(-n);
  }

  /** A minus sign followed by digits reads as the negated value of the digits. */
  lemma ParseNegative(ds: string)
    requires |ds| > 0 && forall i :: 0 <= i < |ds| ==> IsDigit(ds[i])
    ensures ParseInt("-" + ds) == Some(0 - DigitsValue(ds))
  {
    var s := "-" + ds;
    assert s[1..] == ds;
    assert forall i :: 1 <= i < |s| ==> IsDigit(s[i]) by {
      forall i | 1 <= i < |s| ensures IsDigit(s[i]) {
        assert s[i] == ds[i - 1];
      }
    }
  }

  // ---------------------------------------------------------------------
  // Row tuples
  // ---------------------------------------------------------------------

  /**
   * The template literal `('${pEsc}','${dEsc}',${policy},${duration})`,
   * grouped as it is read: `('`, the passport literal's body and closing
   * quote, `,'`, the destination literal's body and closing quote, then
   * the two integers.
   */
  function Tuple(r: Row): (t: string)
    ensures |t| > 2 && t[..2] == "('" && t[|t| - 1] == ')'
  {
    "('" + Quoted(r.passport, ",'" + Quoted(r.destination, Numbers(r.policy, r.duration)))
  }

  /** `,${policy},${duration})` */
  function Numbers(x: int, y: int): string {
    "," + Decimal(x) + "," + Decimal(y) + ")"
  }

  /** Splits `t` at the first `c`: what comes before it and what comes after it, or `None` without a `c`. */
  function SplitAt(t: string, c: char): Option<(string, string)> {
    if t == [] then None
    else if t[0] == c then Some(("", t[1..]))
    else match SplitAt(t[1..], c)
      case None => None
      case Some(res) => Some(([t[0]] + res.0, res.1))
  }

  lemma {:induction false} SplitAtFirst(x: string, c: char, y: string)
    requires c !in x
    ensures SplitAt(x + [c] + y, c) == Some((x, y))
  {
    if x == [] {
      assert x + [c] + y == [c] + y;
    } else {
      assert x[0] != c && [x[0]] + x[1..] == x;
      assert (x + [c] + y)[1..] == x[1..] + [c] + y;
      SplitAtFirst(x[1..], c, y);
    }
  }

  /** Reads `,<integer>,<integer>)` and nothing after it. */
  function ParseNumbers(t: string): Option<(int, int)> {
    if |t| < 1 || t[0] != ',' then None
    else match SplitAt(t[1..], ',')
      case None => None
      case Some((a, rest)) =>
        match SplitAt(rest, ')')
        case None => None
        case Some((b, end)) =>
          if end != "" then None
          else match (ParseInt(a), ParseInt(b))
            case (Some(x), Some(y)) => Some((x, y))
            case _ => None
  }

  /** Reads a row tuple back: two string literals and two integers, in parentheses, separated by commas. */
  function ParseTuple(t: string): Option<Row> {
    if |t| < 2 || t[..2] != "('" then None
    else match ReadQuoted(t[2..])
      case None => None
      case Some((p, r1)) =>
        if |r1| < 2 || r1[..2] != ",'" then None
        else match ReadQuoted(r1[2..])
          case None => None
          case Some((d, r2)) =>
            match ParseNumbers(r2)
            case None => None
            case Some((policy, duration)) => Some(Row(p, d, policy, duration))
  }

  lemma DecimalHasNo(n: int, c: char)
    requires c == ',' || c == ')'
    ensures c !in Decimal(n)
  {
    var s := Decimal(n);
    var digits := if n < 0 then Digits(-n) else Digits(n);
    assert n < 0 ==> s == "-" + digits;
    forall i | 0 <= i < |s| ensures s[i] != c {
      if n < 0 && i > 0 {
        assert s[i] == digits[i - 1];
      }
    }
  }

  lemma NumbersRoundTrip(x: int, y: int)
    ensures ParseNumbers(Numbers(x, y)) == Some((x, y))
  {
    var a, b := Decimal(x), Decimal(y);
    var t := Numbers(x, y);
    assert t[1..] == a + [','] + (b + ")");
    DecimalHasNo(x, ',');
    SplitAtFirst(a, ',', b + ")");
    assert b + ")" == b + [')'] + "";
    DecimalHasNo(y, ')');
    SplitAtFirst(b, ')', "");
    DecimalRoundTrip(x);
    DecimalRoundTrip(y);
  }

  /**
   * The tuple text is unambiguous: reading it back gives the row it was
   * made from, whatever quotes or commas the passport and destination
   * names contain.
   */
  lemma TupleRoundTrip(r: Row)
    ensures ParseTuple(Tuple(r)) == Some(r)
  {
    var numbers := Numbers(r.policy, r.duration);
    var tail := Quoted(r.destination, numbers);
    var r1 := ",'" + tail;
    DropPrefix("('", Quoted(r.passport, r1));
    ReadQuotedEscape(r.passport, r1);
    DropPrefix(",'", tail);
    ReadQuotedEscape(r.destination, numbers);
    NumbersRoundTrip(r.policy, r.duration);
  }

  lemma DropPrefix(a: string, b: string)
    ensures (a + b)[..|a|] == a && (a + b)[|a|..] == b
  {
  }

  // ---------------------------------------------------------------------
  // Statements and the seed file
  // ---------------------------------------------------------------------

  const BatchSize := 200

  const InsertHead := "INSERT INTO visa_policies (passport, destination, policy, duration) VALUES\n"
  const ConflictTail := "\nON CONFLICT (passport, destination) DO UPDATE SET policy=EXCLUDED.policy, duration=EXCLUDED.duration;\n"

  /** One INSERT statement for a batch of tuples, one tuple per line. */
  function Statement(batch: seq<string>): (stmt: string)
    ensures |stmt| >= |InsertHead| + |ConflictTail|
    ensures stmt[..|InsertHead|] == InsertHead && stmt[|stmt| - |ConflictTail|..] == ConflictTail
  {
    InsertHead + Join(batch, ",\n") + ConflictTail
  }

  /** The tuple texts of the rows, in order. */
  function Tuples(rows: seq<Row>): (ts: seq<string>)
    ensures |ts| == |rows|
  {
    seq(|rows|, i requires 0 <= i < |rows| => Tuple(rows[i]))
  }

  /** The statements for a list of tuples: one per batch of 200. */
  function Statements(allRows: seq<string>): seq<string> {
    var batches := Batches(allRows, BatchSize);
    seq(|batches|, k requires 0 <= k < |batches| => Statement(batches[k]))
  }

  /**
   * The nested loops over passports and their destinations: one tuple per
   * (passport, destination) entry of `visaPolicy`, in enumeration order.
   */
  method CollectTuples(visaPolicy: Nested, visaDuration: Nested) returns (allRows: seq<string>)
    requires ValidNested(visaPolicy)
    ensures allRows == Tuples(AllRows(visaPolicy, visaDuration))
  {
    allRows := [];
    var passports := visaPolicy.keys;
    for i := 0 to |passports|
      invariant allRows == Tuples(RowsOf(visaPolicy, visaDuration, passports[..i]))
    {
      var tuples := PassportTuples(visaPolicy, visaDuration, passports[i]);
      TuplesAppend(RowsOf(visaPolicy, visaDuration, passports[..i]),
                   PassportRows(visaPolicy, visaDuration, passports[i]));
      RowsOfStep(visaPolicy, visaDuration, passports, i);
      allRows := allRows + tuples;
    }
    assert passports[..|passports|] == passports;
  }

  /** The inner loop: the tuples of one passport, one per destination in enumeration order. */
  method PassportTuples(visaPolicy: Nested, visaDuration: Nested, passport: string) returns (tuples: seq<string>)
    requires ValidNested(visaPolicy) && passport in visaPolicy.fields
    ensures tuples == Tuples(PassportRows(visaPolicy, visaDuration, passport))
  {
    tuples := [];
    ghost var mine := PassportRows(visaPolicy, visaDuration, passport);
    var destinations := visaPolicy.fields[passport].keys;
    for j := 0 to |destinations|
      invariant tuples == Tuples(mine[..j])
    {
      var dest := destinations[j];
      var policy := visaPolicy.fields[passport].fields[dest];
      var duration := if passport in visaDuration.fields && dest in visaDuration.fields[passport].fields
                          && visaDuration.fields[passport].fields[dest] != 0
                       then visaDuration.fields[passport].fields[dest] else 0;
      var row := Row(passport, dest, policy, duration);
      assert duration == DurationOf(visaDuration, passport, dest);
      assert mine[j] == row;
      PrefixSnoc(mine, j);
      TuplesAppend(mine[..j], [row]);
      assert Tuples([row]) == [Tuple(row)];
      tuples := tuples + [Tuple(row)];
    }
    assert mine[..|destinations|] == mine;
  }

  lemma TuplesAppend(a: seq<Row>, b: seq<Row>)
    ensures Tuples(a + b) == Tuples(a) + Tuples(b)
  {
    var l, r := Tuples(a + b), Tuples(a) + Tuples(b);
    assert |l| == |r|;
    forall i | 0 <= i < |l| ensures l[i] == r[i] {
      if i < |a| {
        assert (a + b)[i] == a[i];
      } else {
        assert (a + b)[i] == b[i - |a|];
      }
    }
  }

  lemma RowsOfStep(vp: Nested, vd: Nested, ps: seq<string>, i: nat)
    requires ValidNested(vp) && i < |ps| && forall k :: 0 <= k < |ps| ==> ps[k] in vp.fields
    ensures RowsOf(vp, vd, ps[..i + 1]) == RowsOf(vp, vd, ps[..i]) + PassportRows(vp, vd, ps[i])
  {
    assert ps[..i + 1][..i] == ps[..i];
  }

  /** The stride loop: one statement per slice of 200 tuples. */
  method BuildStatements(allRows: seq<string>) returns (lines: seq<string>)
    ensures lines == Statements(allRows)
  {
    lines := [];
    var i := 0;
    while i < |allRows|
      invariant i == |lines| * BatchSize
      invariant |lines| <= CeilDiv(|allRows|, BatchSize)
      invariant forall k :: 0 <= k < |lines| ==>
        lines[k] == Statement(Slice(allRows, k * BatchSize, k * BatchSize + BatchSize))
    {
      var batch := Slice(allRows, i, i + BatchSize);
      lines := lines + [Statement(batch)];
      i := i + BatchSize;
    }
  }

  /**
   * The generator: the seed file's text, with the number of rows and of
   * statements it reports.
   */
  method Generate(visaPolicy: Nested, visaDuration: Nested) returns (seedSql: string, rowCount: nat, batchCount: nat)
    requires ValidNested(visaPolicy)
    ensures seedSql == Join(Statements(Tuples(AllRows(visaPolicy, visaDuration))), "\n")
    ensures rowCount == Entries(visaPolicy)
    ensures batchCount == CeilDiv(Entries(visaPolicy), BatchSize)
  {
    var allRows := CollectTuples(visaPolicy, visaDuration);
    var lines := BuildStatements(allRows);
    AllRowsExact(visaPolicy, visaDuration);
    seedSql := Join(lines, "\n");
    rowCount := |allRows|;
    batchCount := |lines|;
  }

  /**
   * The statements partition the tuples: laid end to end, their batches are
   * the tuples in order; there are ceil(n/200) of them; each holds at least
   * one and at most 200 tuples, and all but the last exactly 200.
   */
  lemma StatementsPartition(allRows: seq<string>)
    ensures |Statements(allRows)| == CeilDiv(|allRows|, BatchSize)
    ensures Concat(Batches(allRows, BatchSize)) == allRows
    ensures forall k :: 0 <= k < |Statements(allRows)| ==>
      var b := Batches(allRows, BatchSize)[k];
      Statements(allRows)[k] == Statement(b) && 0 < |b| <= BatchSize
    ensures forall k :: 0 <= k < |Statements(allRows)| - 1 ==> |Batches(allRows, BatchSize)[k]| == BatchSize
  {
    BatchesPartition(allRows, BatchSize);
  }
}
