/**
  The writer of MySQL INSERT statements, and a reader of them after MySQL's own lexical
  rules for string literals and quoted identifiers: what is written reads back unchanged.
 */
module SqlWriter {
  import opened Wrappers
  import opened Decimals

  // ----- the writer

  /** `s.replace(c, r)` for a one-character pattern. */
  function Replace(s: string, c: char, r: string): string {
    if s == "" then "" else (if s[0] == c then r else [s[0]]) + Replace(s[1..], c, r)
  }

  const NUL: char := '\0'
  const SUB: char := '\U{1A}'

  function Escaped(s: string): string {
    Replace(Replace(Replace(Replace(Replace(Replace(s, '\\', "\\\\"), NUL, "\\0"), '\'', "''"), '\n', "\\n"), '\r',
                    "\\r"), SUB, "\\Z")
  }

  /** `_sql_quote` */
  function SqlQuote(s: string): string { "'" + Escaped(s) + "'" }

  /** `_quote_identifier` */
  function QuoteIdentifier(s: string): string { "`" + Replace(s, '`', "``") + "`" }

  datatype SqlValue = Null | Boolean(b: bool) | Integer(i: int) | Text(s: string)

  /** `_literal` */
  function Literal(v: SqlValue): string {
    match v
    case Null => "NULL"
    case Boolean(b) => if b then "1" else "0"
    case Integer(i) => IntText(i)
    case Text(s) => SqlQuote(s)
  }

  function Names(columns: seq<string>): string {
    if columns == [] then ""
    else if |columns| == 1 then QuoteIdentifier(columns[0])
    else QuoteIdentifier(columns[0]) + ", " + Names(columns[1..])
  }

  function Values(values: seq<SqlValue>): string {
    if values == [] then ""
    else if |values| == 1 then Literal(values[0])
    else Literal(values[0]) + ", " + Values(values[1..])
  }

  function InsertLine(table: string, columns: seq<string>, values: seq<SqlValue>): string {
    "INSERT INTO " + (QuoteIdentifier(table) + (" (" + (Names(columns) + (") VALUES (" + (Values(values) + ");")))))
  }

  type Row = map<string, SqlValue>

  predicate HasAll(row: Row, columns: seq<string>) { forall c :: c in columns ==> c in row }

  function Pick(row: Row, columns: seq<string>): seq<SqlValue>
    requires HasAll(row, columns)
  {
    seq(|columns|, i requires 0 <= i < |columns| => row[columns[i]])
  }

  /** `_insert_lines`; a row without one of the columns raises. */
  method InsertLines(table: string, columns: seq<string>, rows: seq<Row>) returns (r: Result<seq<string>, string>)
    ensures r.Success? <==> forall i :: 0 <= i < |rows| ==> HasAll(rows[i], columns)
    ensures r.Success? ==>
              && |r.value| == |rows| + 1
              && r.value[0] == "-- " + table + ": " + Digits(|rows|) + " rows"
              && forall i :: 0 <= i < |rows| ==> r.value[i + 1] == InsertLine(table, columns, Pick(rows[i], columns))
  {
    var lines := ["-- " + table + ": " + Digits(|rows|) + " rows"];
    var i := 0;
    while i < |rows|
      invariant 0 <= i <= |rows| && |lines| == i + 1
      invariant lines[0] == "-- " + table + ": " + Digits(|rows|) + " rows"
      invariant forall k :: 0 <= k < i
                            ==> HasAll(rows[k], columns)
                                && lines[k + 1] == InsertLine(table, columns, Pick(rows[k], columns))
    {
      if !HasAll(rows[i], columns) {
        return Failure("missing column");
      }
      lines := lines + [InsertLine(table, columns, Pick(rows[i], columns))];
      i := i + 1;
    }
    r := Success(lines);
  }

  // ----- the six replacements are one encoding

  function EscapeChar(c: char): string {
    if c == '\\' then "\\\\"
    else if c == NUL then "\\0"
    else if c == '\'' then "''"
    else if c == '\n' then "\\n"
    else if c == '\r' then "\\r"
    else if c == SUB then "\\Z"
    else [c]
  }

  function Encode(s: string): string {
    if s == "" then "" else EscapeChar(s[0]) + Encode(s[1..])
  }

  lemma {:induction false} ReplaceConcat(a: string, b: string, c: char, r: string)
    ensures Replace(a + b, c, r) == Replace(a, c, r) + Replace(b, c, r)
  {
    if a == "" {
      assert a + b == b;
    } else {
      assert (a + b)[1..] == a[1..] + b;
      ReplaceConcat(a[1..], b, c, r);
    }
  }

  lemma ReplaceShort(x: char, y: char, c: char, r: string)
    ensures Replace([x], c, r) == if x == c then r else [x]
    ensures Replace([x, y], c, r) == (if x == c then r else [x]) + (if y == c then r else [y])
  {
    assert [x][1..] == "" && [x, y][1..] == [y] && [y][1..] == "";
    assert Replace("", c, r) == "";
    assert Replace([y], c, r) == (if y == c then r else [y]) + "";
    assert Replace([x], c, r) == (if x == c then r else [x]) + "";
  }

  lemma EscapedConcat(a: string, b: string)
    ensures Escaped(a + b) == Escaped(a) + Escaped(b)
  {
    var a1, b1 := Replace(a, '\\', "\\\\"), Replace(b, '\\', "\\\\");
    ReplaceConcat(a, b, '\\', "\\\\");
    var a2, b2 := Replace(a1, NUL, "\\0"), Replace(b1, NUL, "\\0");
    ReplaceConcat(a1, b1, NUL, "\\0");
    var a3, b3 := Replace(a2, '\'', "''"), Replace(b2, '\'', "''");
    ReplaceConcat(a2, b2, '\'', "''");
    var a4, b4 := Replace(a3, '\n', "\\n"), Replace(b3, '\n', "\\n");
    ReplaceConcat(a3, b3, '\n', "\\n");
    var a5, b5 := Replace(a4, '\r', "\\r"), Replace(b4, '\r', "\\r");
    ReplaceConcat(a4, b4, '\r', "\\r");
    ReplaceConcat(a5, b5, SUB, "\\Z");
  }

  /** The text `x` unless it is the pattern. */
  lemma Keeps(x: string, c: char, r: string)
    requires c !in x && 1 <= |x| <= 2
    ensures Replace(x, c, r) == x
  {
    assert x[0] in x && x[|x| - 1] in x;
    ReplaceShort(x[0], x[|x| - 1], c, r);
    assert |x| == 1 ==> x == [x[0]];
    assert |x| == 2 ==> x == [x[0], x[1]];
  }

  lemma EscapedChar(c: char)
    ensures Escaped([c]) == EscapeChar(c)
  {
    ReplaceShort(c, c, '\\', "\\\\");
    var x1 := Replace([c], '\\', "\\\\");
    if c == '\\' {
      Keeps(x1, NUL, "\\0");
      Keeps(x1, '\'', "''");
      Keeps(x1, '\n', "\\n");
      Keeps(x1, '\r', "\\r");
      Keeps(x1, SUB, "\\Z");
    } else {
      ReplaceShort(c, c, NUL, "\\0");
      var x2 := Replace(x1, NUL, "\\0");
      if c == NUL {
        Keeps(x2, '\'', "''");
        Keeps(x2, '\n', "\\n");
        Keeps(x2, '\r', "\\r");
        Keeps(x2, SUB, "\\Z");
      } else {
        ReplaceShort(c, c, '\'', "''");
        ReplaceShort(c, c, '\n', "\\n");
        ReplaceShort(c, c, '\r', "\\r");
        ReplaceShort(c, c, SUB, "\\Z");
        if c == '\'' {
          Keeps("''", '\n', "\\n");
          Keeps("''", '\r', "\\r");
          Keeps("''", SUB, "\\Z");
        } else if c == '\n' {
          Keeps("\\n", '\r', "\\r");
          Keeps("\\n", SUB, "\\Z");
        } else if c == '\r' {
          Keeps("\\r", SUB, "\\Z");
        }
      }
    }
  }

  /** No replacement touches what an earlier one produced: the chain encodes character by character. */
  lemma {:induction false} ChainIsOneEncoding(s: string)
    ensures Escaped(s) == Encode(s)
  {
    if s == "" {
      assert Replace("", '\\', "\\\\") == "";
    } else {
      assert s == [s[0]] + s[1..];
      EscapedConcat([s[0]], s[1..]);
      EscapedChar(s[0]);
      ChainIsOneEncoding(s[1..]);
    }
  }

  // ----- MySQL's reading of literals

  /** The character an escape sequence stands for; `\%` and `\_` keep their backslash. */
  function Unescape(c: char): string {
    if c == '0' then [NUL]
    else if c == 'b' then ['\U{8}']
    else if c == 'n' then "\n"
    else if c == 'r' then "\r"
    else if c == 't' then "\t"
    else if c == 'Z' then [SUB]
    else if c == '%' then "\\%"
    else if c == '_' then "\\_"
    else [c]
  }

  datatype Read<T> = Read(value: T, rest: string)

  /** The inside of a string literal, up to its closing quote. */
  function ReadString(s: string): Option<Read<string>>
    decreases |s|
  {
    if s == "" then None
    else if s[0] == '\\' then
      if |s| < 2 then None else Prepend(Unescape(s[1]), ReadString(s[2..]))
    else if s[0] == '\'' then
      if |s| >= 2 && s[1] == '\'' then Prepend("'", ReadString(s[2..])) else Some(Read("", s[1..]))
    else Prepend([s[0]], ReadString(s[1..]))
  }

  function Prepend(x: string, r: Option<Read<string>>): Option<Read<string>> {
    match r
    case None => None
    case Some(Read(v, rest)) => Some(Read(x + v, rest))
  }

  lemma ReadEscapedChar(c: char, rest: string)
    ensures ReadString(EscapeChar(c) + rest) == Prepend([c], ReadString(rest))
  {
    var s := EscapeChar(c) + rest;
    if |EscapeChar(c)| == 1 {
      assert ReadString(s) == Prepend([s[0]], ReadString(s[1..]));
    } else if c == '\'' {
      assert ReadString(s) == Prepend("'", ReadString(s[2..]));
    } else {
      assert ReadString(s) == Prepend(Unescape(s[1]), ReadString(s[2..]));
    }
  }

  /** The reader recovers the text and stops exactly at the closing quote. */
  lemma {:induction false} StringRoundTrip(s: string, rest: string)
    requires rest != "" ==> rest[0] != '\''
    ensures ReadString(Encode(s) + "'" + rest) == Some(Read(s, rest))
  {
    if s == "" {
      assert Encode(s) + "'" + rest == "'" + rest;
      assert ("'" + rest)[1..] == rest;
    } else {
      hide ReadString, EscapeChar;
      assert Encode(s) + "'" + rest == EscapeChar(s[0]) + (Encode(s[1..]) + "'" + rest);
      ReadEscapedChar(s[0], Encode(s[1..]) + "'" + rest);
      StringRoundTrip(s[1..], rest);
      assert [s[0]] + s[1..] == s;
    }
  }

  /** The inside of a quoted identifier. */
  function ReadIdentifier(s: string): Option<Read<string>>
    decreases |s|
  {
    if s == "" then None
    else if s[0] == '`' then
      if |s| >= 2 && s[1] == '`' then Prepend("`", ReadIdentifier(s[2..])) else Some(Read("", s[1..]))
    else Prepend([s[0]], ReadIdentifier(s[1..]))
  }

  lemma {:induction false} IdentifierRoundTrip(s: string, rest: string)
    requires rest != "" ==> rest[0] != '`'
    ensures ReadIdentifier(Replace(s, '`', "``") + "`" + rest) == Some(Read(s, rest))
  {
    if s == "" {
      assert Replace(s, '`', "``") + "`" + rest == "`" + rest;
      assert ("`" + rest)[1..] == rest;
    } else {
      var first := if s[0] == '`' then "``" else [s[0]];
      var tail := Replace(s[1..], '`', "``") + "`" + rest;
      assert Replace(s, '`', "``") + "`" + rest == first + tail;
      IdentifierRoundTrip(s[1..], rest);
      assert [s[0]] + s[1..] == s;
    }
  }

  // ----- numbers

  function DigitRun(s: string): (n: nat)
    ensures n <= |s| && AllDigits(s[..n])
  {
    if s != "" && IsDigit(s[0]) then
      var n := 1 + DigitRun(s[1..]);
      assert s[..n] == [s[0]] + s[1..][..n - 1];
      n
    else 0
  }

  lemma {:induction false} DigitRunStops(d: string, rest: string)
    requires AllDigits(d) && (rest != "" ==> !IsDigit(rest[0]))
    ensures DigitRun(d + rest) == |d| && (d + rest)[..|d|] == d && (d + rest)[|d|..] == rest
  {
    if d == "" {
      assert d + rest == rest;
    } else {
      assert (d + rest)[1..] == d[1..] + rest;
      DigitRunStops(d[1..], rest);
    }
  }

  function ReadNatural(s: string): Option<Read<nat>> {
    var n := DigitRun(s);
    if n == 0 then None else Some(Read(ReadDigits(s[..n]), s[n..]))
  }

  function ReadLiteral(s: string): Option<Read<SqlValue>> {
    if s == "" then None
    else if s[0] == '\'' then
      match ReadString(s[1..])
      case None => None
      case Some(Read(v, rest)) => Some(Read(Text(v), rest))
    else if "NULL" <= s then Some(Read(Null, s[4..]))
    else if s[0] == '-' then
      match ReadNatural(s[1..])
      case None => None
      case Some(Read(n, rest)) => Some(Read(Integer(0 - n as int), rest))
    else
      match ReadNatural(s)
      case None => None
      case Some(Read(n, rest)) => Some(Read(Integer(n as int), rest))
  }

  /** MySQL has no boolean literal of its own here: a boolean is read as the integer it was written as. */
  function Stored(v: SqlValue): SqlValue {
    if v.Boolean? then Integer(if v.b then 1 else 0) else v
  }

  /** After a literal the writer puts a comma or a closing parenthesis. */
  predicate Delimited(rest: string) { rest != "" && (rest[0] == ',' || rest[0] == ')') }

  lemma NaturalRoundTrip(n: nat, rest: string)
    requires Delimited(rest)
    ensures ReadNatural(Digits(n) + rest) == Some(Read(n, rest))
  {
    DigitsRoundTrip(n);
    DigitRunStops(Digits(n), rest);
  }

  lemma NegativeRoundTrip(n: nat, rest: string)
    requires Delimited(rest)
    ensures ReadLiteral("-" + Digits(n) + rest) == Some(Read(Integer(0 - n as int), rest))
  {
    NaturalRoundTrip(n, rest);
    var s := "-" + Digits(n) + rest;
    assert s[0] == '-' && s[1..] == Digits(n) + rest;
  }

  lemma PositiveRoundTrip(n: nat, rest: string)
    requires Delimited(rest)
    ensures ReadLiteral(Digits(n) + rest) == Some(Read(Integer(n as int), rest))
  {
    DigitsRoundTrip(n);
    NaturalRoundTrip(n, rest);
    var s := Digits(n) + rest;
    assert s[0] == Digits(n)[0] && IsDigit(s[0]);
  }

  lemma IntegerRoundTrip(i: int, rest: string)
    requires Delimited(rest)
    ensures ReadLiteral(IntText(i) + rest) == Some(Read(Integer(i), rest))
  {
    if i < 0 {
      NegativeRoundTrip(-i, rest);
    } else {
      PositiveRoundTrip(i, rest);
    }
  }

  lemma NullRoundTrip(rest: string)
    ensures ReadLiteral("NULL" + rest) == Some(Read(Null, rest))
  {
    var s := "NULL" + rest;
    assert s[0] == 'N' && s[4..] == rest;
  }

  lemma TextRoundTrip(t: string, rest: string)
    requires Delimited(rest)
    ensures ReadLiteral(SqlQuote(t) + rest) == Some(Read(Text(t), rest))
  {
    hide Escaped, ReadString, Encode;
    ChainIsOneEncoding(t);
    StringRoundTrip(t, rest);
    var s := SqlQuote(t) + rest;
    assert s[0] == '\'' && s[1..] == Encode(t) + "'" + rest;
  }

  lemma LiteralRoundTrip(v: SqlValue, rest: string)
    requires Delimited(rest)
    ensures ReadLiteral(Literal(v) + rest) == Some(Read(Stored(v), rest))
  {
    hide ReadLiteral, SqlQuote;
    match v {
      case Null => NullRoundTrip(rest);
      case Boolean(b) =>
        assert IntText(1) == "1" && IntText(0) == "0";
        IntegerRoundTrip(if b then 1 else 0, rest);
      case Integer(i) => IntegerRoundTrip(i, rest);
      case Text(s) => TextRoundTrip(s, rest);
    }
  }

  // ----- whole statements

  function ReadName(s: string): Option<Read<string>> {
    if s != "" && s[0] == '`' then ReadIdentifier(s[1..]) else None
  }

  function ReadNames(s: string): Option<Read<seq<string>>>
    decreases |s|
  {
    match ReadName(s)
    case None => None
    case Some(Read(name, rest)) =>
      if ", " <= rest && |rest| < |s| then
        match ReadNames(rest[2..])
        case None => None
        case Some(Read(names, after)) => Some(Read([name] + names, after))
      else Some(Read([name], rest))
  }

  function ReadValues(s: string): Option<Read<seq<SqlValue>>>
    decreases |s|
  {
    match ReadLiteral(s)
    case None => None
    case Some(Read(v, rest)) =>
      if ", " <= rest && |rest| < |s| then
        match ReadValues(rest[2..])
        case None => None
        case Some(Read(vs, after)) => Some(Read([v] + vs, after))
      else Some(Read([v], rest))
  }

  lemma NameRoundTrip(name: string, rest: string)
    requires Delimited(rest) || (rest != "" && rest[0] == ' ')
    ensures |QuoteIdentifier(name)| >= 2
    ensures ReadName(QuoteIdentifier(name) + rest) == Some(Read(name, rest))
  {
    IdentifierRoundTrip(name, rest);
    assert (QuoteIdentifier(name) + rest)[1..] == Replace(name, '`', "``") + "`" + rest;
  }

  lemma {:induction false} NamesRoundTrip(columns: seq<string>, rest: string)
    requires columns != [] && rest != "" && rest[0] == ')'
    ensures ReadNames(Names(columns) + rest) == Some(Read(columns, rest))
  {
    hide ReadName, QuoteIdentifier;

    if |columns| == 1 {
      NameRoundTrip(columns[0], rest);
      assert columns == [columns[0]];
    } else {
      var tail := ", " + (Names(columns[1..]) + rest);
      assert Names(columns) + rest == QuoteIdentifier(columns[0]) + tail;
      NameRoundTrip(columns[0], tail);
      assert tail[2..] == Names(columns[1..]) + rest;
      NamesRoundTrip(columns[1..], rest);
      assert columns == [columns[0]] + columns[1..];
    }
  }

  function AllStored(values: seq<SqlValue>): seq<SqlValue> {
    seq(|values|, i requires 0 <= i < |values| => Stored(values[i]))
  }

  lemma StoredSteps(values: seq<SqlValue>)
    requires values != []
    ensures AllStored(values) == [Stored(values[0])] + AllStored(values[1..])
    ensures |values| == 1 ==> AllStored(values) == [Stored(values[0])]
  {
  }

  lemma {:induction false} ValuesRoundTrip(values: seq<SqlValue>, rest: string)
    requires values != [] && rest != "" && rest[0] == ')'
    ensures ReadValues(Values(values) + rest) == Some(Read(AllStored(values), rest))
  {
    hide ReadLiteral, Literal, Stored;

    if |values| == 1 {
      LiteralRoundTrip(values[0], rest);
      LiteralIsNotEmpty(values[0]);
      StoredSteps(values);
    } else {
      var tail := ", " + (Values(values[1..]) + rest);
      assert Values(values) + rest == Literal(values[0]) + tail;
      LiteralRoundTrip(values[0], tail);
      LiteralIsNotEmpty(values[0]);
      assert tail[2..] == Values(values[1..]) + rest;
      ValuesRoundTrip(values[1..], rest);
      StoredSteps(values);
    }
  }

  lemma LiteralIsNotEmpty(v: SqlValue)
    ensures |Literal(v)| > 0
  {
    if v.Integer? {
      DigitsRoundTrip(if v.i < 0 then -v.i else v.i);
    }
  }

  datatype Insert = Insert(table: string, columns: seq<string>, values: seq<SqlValue>)

  /** A list in parentheses may be empty. */
  function ReadNameList(s: string): Option<Read<seq<string>>> {
    if ")" <= s then Some(Read([], s)) else ReadNames(s)
  }

  function ReadValueList(s: string): Option<Read<seq<SqlValue>>> {
    if ")" <= s then Some(Read([], s)) else ReadValues(s)
  }

  function Expect(s: string, prefix: string): Option<string> {
    if prefix <= s then Some(s[|prefix|..]) else None
  }

  function ReadInsert(line: string): Option<Insert> {
    match Expect(line, "INSERT INTO ")
    case None => None
    case Some(s0) =>
      match ReadName(s0)
      case None => None
      case Some(Read(table, s1)) =>
        match Expect(s1, " (")
        case None => None
        case Some(s2) => ReadRest(table, s2)
  }

  function ReadRest(table: string, s2: string): Option<Insert> {
    match ReadNameList(s2)
    case None => None
    case Some(Read(columns, s3)) =>
      match Expect(s3, ") VALUES (")
      case None => None
      case Some(s4) =>
        match ReadValueList(s4)
        case None => None
        case Some(Read(values, s5)) => if s5 == ");" then Some(Insert(table, columns, values)) else None
  }

  lemma NameListRoundTrip(columns: seq<string>, rest: string)
    requires rest != "" && rest[0] == ')'
    ensures ReadNameList(Names(columns) + rest) == Some(Read(columns, rest))
  {
    if columns == [] {
      assert Names(columns) + rest == rest;
    } else {
      NamesRoundTrip(columns, rest);
      assert (Names(columns) + rest)[0] == '`';
    }
  }

  lemma ValueListRoundTrip(values: seq<SqlValue>, rest: string)
    requires rest != "" && rest[0] == ')'
    ensures ReadValueList(Values(values) + rest) == Some(Read(AllStored(values), rest))
  {
    if values == [] {
      assert Values(values) + rest == rest;
      assert AllStored(values) == [];
    } else {
      ValuesRoundTrip(values, rest);
      FirstOfLiteral(values[0]);
      assert (Values(values) + rest)[0] == Literal(values[0])[0];
    }
  }

  lemma FirstOfLiteral(v: SqlValue)
    ensures |Literal(v)| > 0 && Literal(v)[0] != ')'
  {
    if v.Integer? {
      DigitsRoundTrip(if v.i < 0 then -v.i else v.i);
    }
  }

  /** A whole statement reads back as its table, its columns and its values, in order and in full. */
  lemma InsertRoundTrip(table: string, columns: seq<string>, values: seq<SqlValue>)
    ensures ReadInsert(InsertLine(table, columns, values)) == Some(Insert(table, columns, AllStored(values)))
  {
    hide ReadName, ReadNameList, ReadValueList, Names, Values, QuoteIdentifier, AllStored;
    var s4 := Values(values) + ");";
    var s3 := ") VALUES (" + s4;
    var s2 := Names(columns) + s3;
    var s1 := " (" + s2;
    NameRoundTrip(table, s1);
    NameListRoundTrip(columns, s3);
    ValueListRoundTrip(values, ");");
  }

  /** Every statement of an export reads back as its row. */
  lemma ExportRoundTrip(table: string, columns: seq<string>, rows: seq<Row>, lines: seq<string>)
    requires forall i :: 0 <= i < |rows| ==> HasAll(rows[i], columns)
    requires |lines| == |rows| + 1
    requires forall i :: 0 <= i < |rows| ==> lines[i + 1] == InsertLine(table, columns, Pick(rows[i], columns))
    ensures forall i :: 0 <= i < |rows|
                        ==> ReadInsert(lines[i + 1]) == Some(Insert(table, columns, AllStored(Pick(rows[i], columns))))
  {
    forall i | 0 <= i < |rows|
      ensures ReadInsert(lines[i + 1]) == Some(Insert(table, columns, AllStored(Pick(rows[i], columns))))
    {
      InsertRoundTrip(table, columns, Pick(rows[i], columns));
    }
  }
}
