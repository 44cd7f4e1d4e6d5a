/**
  The filename a client announces, as the reader recovers it: exactly the name when it holds
  no semicolon and neither begins nor ends with a quotation mark, and never otherwise. The
  reader cuts the disposition line at every semicolon before it looks at parameters, quoted
  or not, and strips every quotation mark at either end of the value; the main result comes
  first, the steps of its proof follow in the order of the text.
 */
module UploadName {
  import opened Text
  import opened Utf8
  import opened Multipart

  const DISPOSITION := "Content-Disposition:"
  const FORM_DATA := " form-data"
  const NAME := " name=\"file\""
  const FILENAME := " filename="
  const CONTENT_TYPE := "Content-Type: application/zip"

  function DispositionLine(filename: string): string {
    (DISPOSITION + FORM_DATA) + ";" + (NAME + ";" + (FILENAME + ("\"" + filename + "\"")))
  }

  /** The headers of an uploaded archive. */
  function UploadHeader(filename: string): string { DispositionLine(filename) + "\r\n" + CONTENT_TYPE }

  /** A header parameter cannot hold line ends. */
  predicate OneLine(s: string) { '\r' !in s && '\n' !in s }

  /** The announced name comes back exactly when it holds no semicolon and has no quotation mark at either end. */
  lemma FilenameReadsBackIff(filename: string)
    requires OneLine(filename)
    ensures HeaderFilename(UploadHeader(filename)) == filename
       <==> ';' !in filename && (filename != "" ==> filename[0] != '"' && filename[|filename| - 1] != '"')
  {
    hide UploadHeader, DispositionLine, HeaderFilename, LineFilename, TokenFilename, Split, StripQuotes;
    HeaderLines(filename);
    LineParameters(filename);
    var tokens := Split(FILENAME + ("\"" + filename + "\""), ";");
    if ';' in filename {
      FirstPieceIsClean(FILENAME + ("\"" + filename + "\""), ';');
      PieceStartsWithName(filename);
      YieldIsClean(tokens);
    } else {
      NameParameter(filename);
      QuotesGone("\"" + filename + "\"");
      if filename != "" ==> filename[0] != '"' && filename[|filename| - 1] != '"' {
        QuotedNameBack(filename);
      }
    }
  }

  // ----- the whole upload

  /** What a client sends for an archive of that name, with its header in UTF-8. */
  function UploadBody(boundary: seq<Byte>, filename: string, content: seq<Byte>): seq<Byte> {
    WriteBody(boundary, Encode(UploadHeader(filename)), content, DASHES + CRLF)
  }

  /**
    Parsing an uploaded body gives the very content, and exactly the announced name or, when that holds a
    semicolon or has a quotation mark at an end, another one.
  */
  lemma UploadRoundTrip(boundary: seq<Byte>, filename: string, content: seq<Byte>)
    requires BoundaryOk(boundary) && OneLine(filename)
    requires Absent(DASHES + boundary, Encode(UploadHeader(filename))) && Absent(DASHES + boundary, content)
    ensures var r := ReadBody(UploadBody(boundary, filename, content), boundary);
            && r.Some? && r.value.data == content
            && (r.value.filename == filename
                <==> ';' !in filename && (filename != "" ==> filename[0] != '"' && filename[|filename| - 1] != '"'))
  {
    hide UploadHeader, HeaderFilename, Encode, Decode, WriteBody, ReadBody, Absent, HeaderOk;
    HeaderIsOk(filename);
    BodyRoundTrip(boundary, Encode(UploadHeader(filename)), content, DASHES + CRLF);
    EncodeRoundTrip(UploadHeader(filename));
    FilenameReadsBackIff(filename);
  }

  /** Two nonempty lines of bytes without line ends, not starting with two dashes, are headers. */
  lemma TwoLinesAreHeader(first: seq<Byte>, second: seq<Byte>)
    requires first != [] && second != [] && first[0] != DASH
    requires CR !in first && LF !in first && CR !in second && LF !in second
    ensures HeaderOk(first + CRLF + second)
  {
    var h := first + CRLF + second;
    assert h[0] == first[0] != DASHES[0];
    forall k | 0 <= k < |first|
      ensures !IsEol(h[k])
    {
      assert h[k] == first[k] && first[k] in first;
    }
    forall k | |first| + 2 <= k < |h|
      ensures !IsEol(h[k])
    {
      assert h[k] == second[k - |first| - 2] && second[k - |first| - 2] in second;
    }
  }

  /** A line starting with an ASCII character, in bytes. */
  lemma LineBytes(line: string)
    requires OneLine(line) && line != "" && line[0] as int < 0x80
    ensures CR !in Encode(line) && LF !in Encode(line)
    ensures Encode(line) != [] && Encode(line)[0] == line[0] as Byte
  {
    EncodedAscii(line, CR);
    EncodedAscii(line, LF);
  }

  lemma HeaderBytes(line: string, last: string)
    ensures Encode(line + "\r\n" + last) == Encode(line) + CRLF + Encode(last)
  {
    EncodeConcat(line + "\r\n", last);
    EncodeConcat(line, "\r\n");
    assert Encode("\r\n") == CRLF by {
      assert "\r\n"[1..] == "\n" && "\n"[1..] == "";
    }
  }

  lemma OneLineConcat(s: string, t: string)
    requires OneLine(s) && OneLine(t)
    ensures OneLine(s + t)
  {
  }

  lemma LineIsClean(filename: string)
    requires OneLine(filename)
    ensures OneLine(DispositionLine(filename)) && DispositionLine(filename) != "" && DispositionLine(filename)[0] == 'C'
    ensures OneLine(CONTENT_TYPE)
  {
    assert OneLine(DISPOSITION + FORM_DATA) && OneLine(";") && OneLine(NAME) && OneLine(FILENAME) && OneLine("\"");
    assert OneLine(CONTENT_TYPE);
    assert (DISPOSITION + FORM_DATA)[0] == 'C';
    hide OneLine;
    OneLineConcat("\"", filename);
    OneLineConcat("\"" + filename, "\"");
    OneLineConcat(FILENAME, "\"" + filename + "\"");
    OneLineConcat(NAME, ";");
    OneLineConcat(NAME + ";", FILENAME + ("\"" + filename + "\""));
    OneLineConcat(DISPOSITION + FORM_DATA, ";");
    OneLineConcat((DISPOSITION + FORM_DATA) + ";", NAME + ";" + (FILENAME + ("\"" + filename + "\"")));
  }

  lemma HeaderIsOk(filename: string)
    requires OneLine(filename)
    ensures HeaderOk(Encode(UploadHeader(filename)))
  {
    LineIsClean(filename);
    hide OneLine, Encode, DispositionLine, HeaderOk;
    HeaderBytes(DispositionLine(filename), CONTENT_TYPE);
    LineBytes(DispositionLine(filename));
    LineBytes(CONTENT_TYPE);
    TwoLinesAreHeader(Encode(DispositionLine(filename)), Encode(CONTENT_TYPE));
  }

  // ----- splitting text

  lemma NoOccurrence(s: string, d: string)
    requires d != "" && d[0] !in s
    ensures Index(s, d) < 0 && Split(s, d) == [s]
  {
    IndexIsFirst(s, d);
    forall k: nat | k < |s|
      ensures !OccursAt(s, d, k)
    {
      assert s[k] in s;
      Differs(s, d, k, k);
    }
  }

  lemma FirstOccurrence(a: string, d: string, b: string)
    requires d != "" && d[0] !in a
    ensures Index(a + d + b, d) == |a|
    ensures Split(a + d + b, d) == [a] + Split(b, d)
  {
    var s := a + d + b;
    assert OccursAt(s, d, |a|);
    forall k: nat | k < |a|
      ensures !OccursAt(s, d, k)
    {
      assert s[k] == a[k] && a[k] in a;
      Differs(s, d, k, k);
    }
    IndexAt(s, d, |a|);
    assert s[..|a|] == a && s[|a| + |d|..] == b;
  }

  /** The first piece of a split holds no separator. */
  lemma FirstPieceIsClean(s: string, c: char)
    ensures Split(s, [c]) != [] && c !in Split(s, [c])[0]
    ensures forall x :: x in Split(s, [c])[0] ==> x in s
  {
    IndexIsFirst(s, [c]);
    var i := Index(s, [c]);
    var piece := if i < 0 then s else s[..i];
    forall k: nat | k < |piece|
      ensures piece[k] != c
    {
      assert piece[k] == s[k];
      if s[k] == c {
        assert s[k..k + 1] == [c];
        assert OccursAt(s, [c], k);
      }
    }
  }

  // ----- lower case

  lemma LowerPrefix(p: string, s: string, rest: string)
    requires |p| == |s| && forall i :: 0 <= i < |p| ==> Lower(s[i]) == p[i]
    ensures p <= LowerText(s + rest)
  {
    LowerAt(s + rest);
  }

  lemma LowerNotPrefix(p: string, s: string, i: nat)
    requires i < |p| && i < |s| && Lower(s[i]) != p[i]
    ensures !(p <= LowerText(s))
  {
    LowerAt(s);
  }

  // ----- the two lines, and the parameters of the first

  lemma TwoLines(line: string, second: string)
    requires '\r' !in line && '\r' !in second && !("content-disposition:" <= LowerText(second))
    ensures HeaderFilename(line + "\r\n" + second) == LineFilename(line, DEFAULT_FILENAME)
  {
    FirstOccurrence(line, "\r\n", second);
    NoOccurrence(second, "\r\n");
    var lines := Split(line + "\r\n" + second, "\r\n");
    assert lines == [line] + [second];
    assert lines[0] == line && lines[1..] == [second] && [second][1..] == [];
    var found := LineFilename(line, DEFAULT_FILENAME);
    assert LineFilename(second, found) == found;
    assert LinesFilename(lines, DEFAULT_FILENAME) == LinesFilename([second], found) == LinesFilename([], found)
        == found;
  }

  lemma ConstantsAreClean()
    ensures ';' !in DISPOSITION && ';' !in FORM_DATA && ';' !in NAME && ';' !in FILENAME
  {
  }

  lemma HeaderLines(filename: string)
    requires OneLine(filename)
    ensures HeaderFilename(UploadHeader(filename)) == LineFilename(DispositionLine(filename), DEFAULT_FILENAME)
  {
    hide HeaderFilename, LineFilename, DispositionLine, LowerText;
    LineIsClean(filename);
    ContentTypeIsOther();
    TwoLines(DispositionLine(filename), CONTENT_TYPE);
  }

  lemma ContentTypeIsOther()
    ensures !("content-disposition:" <= LowerText(CONTENT_TYPE))
  {
    LowerNotPrefix("content-disposition:", CONTENT_TYPE, 8);
  }

  /** The parameters of a line, when the first two are passed over. */
  lemma ThirdParameter(head: string, more: string, second: string, third: string)
    requires ';' !in head && ';' !in more && ';' !in second
    requires "content-disposition:" <= LowerText(head + (more + ";" + (second + ";" + third)))
    requires forall rest :: TokenFilename([head + more] + rest, DEFAULT_FILENAME)
                            == TokenFilename(rest, DEFAULT_FILENAME)
    requires forall rest :: TokenFilename([second] + rest, DEFAULT_FILENAME) == TokenFilename(rest, DEFAULT_FILENAME)
    ensures LineFilename((head + more) + ";" + (second + ";" + third), DEFAULT_FILENAME)
         == TokenFilename(Split(third, ";"), DEFAULT_FILENAME)
  {
    hide TokenFilename, LowerText;
    var line := (head + more) + ";" + (second + ";" + third);
    assert line == head + (more + ";" + (second + ";" + third));
    FirstOccurrence(head + more, ";", second + ";" + third);
    FirstOccurrence(second, ";", third);
  }

  lemma LineParameters(filename: string)
    ensures LineFilename(DispositionLine(filename), DEFAULT_FILENAME)
         == TokenFilename(Split(FILENAME + ("\"" + filename + "\""), ";"), DEFAULT_FILENAME)
  {
    hide LineFilename, TokenFilename, Split;
    var last := FILENAME + ("\"" + filename + "\"");
    ConstantsAreClean();
    DispositionPrefix(FORM_DATA + ";" + (NAME + ";" + last));
    forall rest: seq<string>
      ensures TokenFilename([DISPOSITION + FORM_DATA] + rest, DEFAULT_FILENAME) == TokenFilename(rest, DEFAULT_FILENAME)
      ensures TokenFilename([NAME] + rest, DEFAULT_FILENAME) == TokenFilename(rest, DEFAULT_FILENAME)
    {
      EarlyTokens(rest);
    }
    ThirdParameter(DISPOSITION, FORM_DATA, NAME, last);
  }

  lemma DispositionPrefix(rest: string)
    ensures "content-disposition:" <= LowerText(DISPOSITION + rest)
  {
    LowerPrefix("content-disposition:", DISPOSITION, rest);
  }

  lemma EarlyTokens(rest: seq<string>)
    ensures TokenFilename([DISPOSITION + FORM_DATA] + rest, DEFAULT_FILENAME) == TokenFilename(rest, DEFAULT_FILENAME)
    ensures TokenFilename([NAME] + rest, DEFAULT_FILENAME) == TokenFilename(rest, DEFAULT_FILENAME)
  {
    hide TokenFilename;
    var first := DISPOSITION + FORM_DATA;
    assert "" + first == first && first[0] == 'C' && first[|first| - 1] == 'a';
    SkipToken(first, "", first, rest);
    assert NAME == " " + "name=\"file\"";
    SkipToken(NAME, " ", "name=\"file\"", rest);
  }

  /** A parameter that does not start with f is passed over. */
  lemma SkipToken(token: string, pad: string, text: string, rest: seq<string>)
    requires token == pad + text && AllSpace(pad) && text != "" && Trimmed(text) && Lower(text[0]) != 'f'
    ensures TokenFilename([token] + rest, DEFAULT_FILENAME) == TokenFilename(rest, DEFAULT_FILENAME)
  {
    StripPads(pad, text);
    LowerNotPrefix("filename=", text, 0);
    assert ([token] + rest)[0] == token && ([token] + rest)[1..] == rest;
  }

  // ----- what the last parameter yields

  lemma {:induction false} RQuotesGone(s: string)
    ensures RStripQuotes(s) <= s && (RStripQuotes(s) != "" ==> RStripQuotes(s)[|RStripQuotes(s)| - 1] != '"')
  {
    if s != "" && s[|s| - 1] == '"' {
      RQuotesGone(s[..|s| - 1]);
    }
  }

  lemma {:induction false} LQuotesGone(s: string)
    ensures |LStripQuotes(s)| <= |s| && LStripQuotes(s) == s[|s| - |LStripQuotes(s)|..]
    ensures LStripQuotes(s) != "" ==> LStripQuotes(s)[0] != '"'
  {
    if s != "" && s[0] == '"' {
      LQuotesGone(s[1..]);
    }
  }

  lemma QuotesGone(s: string)
    ensures var r := StripQuotes(s);
            && (r != "" ==> r[0] != '"' && r[|r| - 1] != '"')
            && forall x :: x in r ==> x in s
  {
    LQuotesGone(s);
    RQuotesGone(LStripQuotes(s));
  }

  lemma QuotedNameBack(filename: string)
    requires filename != "" ==> filename[0] != '"' && filename[|filename| - 1] != '"'
    ensures StripQuotes("\"" + filename + "\"") == filename
  {
    var s := "\"" + filename + "\"";
    if filename == "" {
      assert s[1..] == "\"" && "\""[1..] == "";
      assert LStripQuotes(s) == LStripQuotes("\"") == LStripQuotes("") == "";
    } else {
      assert s[1..] == filename + "\"";
      assert LStripQuotes(s) == LStripQuotes(filename + "\"") == filename + "\"";
      var t := filename + "\"";
      assert t[..|t| - 1] == filename;
      assert RStripQuotes(t) == RStripQuotes(filename) == filename;
    }
  }

  lemma StrippedParameter(value: string)
    requires value != "" && Trimmed(value)
    ensures Strip(FILENAME + value) == "filename=" + value
  {
    hide Strip;
    var text := "filename=" + value;
    assert FILENAME + value == " " + text;
    assert text[0] == 'f' && text[|text| - 1] == value[|value| - 1];
    StripPads(" ", text);
  }

  lemma ValueAfterEquals(value: string)
    ensures AfterEquals("filename=" + value) == value
  {
    FindFirst("filename", '=', value);
    assert "filename=" + value == "filename" + ['='] + value;
  }

  lemma ParameterValue(value: string)
    requires value != "" && Trimmed(value)
    ensures TokenFilename([FILENAME + value], DEFAULT_FILENAME) == StripQuotes(value)
  {
    hide StripQuotes, Strip, LowerText, AfterEquals;
    StrippedParameter(value);
    LowerPrefix("filename=", "filename=", value);
    ValueAfterEquals(value);
    StripPads("", value);
    assert "" + value == value;
  }

  lemma CleanParameter(before: string, filename: string)
    requires ';' !in before && ';' !in filename
    ensures ';' !in before + ("\"" + filename + "\"")
  {
  }

  lemma NameParameter(filename: string)
    requires ';' !in filename
    ensures TokenFilename(Split(FILENAME + ("\"" + filename + "\""), ";"), DEFAULT_FILENAME)
         == StripQuotes("\"" + filename + "\"")
  {
    hide TokenFilename, StripQuotes, Split;
    var value := "\"" + filename + "\"";
    ConstantsAreClean();
    CleanParameter(FILENAME, filename);
    NoOccurrence(FILENAME + value, ";");
    ParameterValue(value);
  }

  lemma {:induction false} StripKeepsChars(s: string)
    ensures forall x :: x in Strip(s) ==> x in s
  {
    var n := RStripIsPrefix(s);
    LStripKeepsChars(s[..n]);
  }

  lemma {:induction false} LStripKeepsChars(s: string)
    ensures forall x :: x in LStrip(s) ==> x in s
  {
    if s != "" && IsSpace(s[0]) {
      LStripKeepsChars(s[1..]);
    }
  }

  /** Whatever the first parameter yields, it holds no separator. */
  lemma YieldIsClean(tokens: seq<string>)
    requires tokens != [] && ';' !in tokens[0] && "filename=" <= LowerText(Strip(tokens[0]))
    ensures ';' !in TokenFilename(tokens, DEFAULT_FILENAME)
  {
    var token := Strip(tokens[0]);
    StripKeepsChars(tokens[0]);
    var value := AfterEquals(token);
    StripKeepsChars(value);
    QuotesGone(Strip(value));
  }

  lemma NameIsStripped(tail: string)
    ensures "filename=" <= LowerText(Strip(FILENAME + "\"" + tail))
  {
    var body := FILENAME + "\"";
    var t := RStripKeepsBody(body, tail);
    var text := "filename=" + ("\"" + t);
    assert body + t == " " + text;
    LStripPads(" ", text);
    LowerPrefix("filename=", "filename=", "\"" + t);
  }

  lemma PieceStartsWithName(filename: string)
    ensures var piece := Split(FILENAME + ("\"" + filename + "\""), ";")[0];
            "filename=" <= LowerText(Strip(piece))
  {
    hide Strip, LowerText;
    var body := FILENAME + "\"";
    var token := FILENAME + ("\"" + filename + "\"");
    assert token == body + (filename + "\"");
    IndexIsFirst(token, ";");
    var i := Index(token, ";");
    var piece := Split(token, ";")[0];
    ConstantsAreClean();
    if i >= 0 {
      SemicolonAfter(body, filename + "\"", i);
      assert piece == token[..i];
      assert token[..i] == body + token[|body|..i];
      NameIsStripped(token[|body|..i]);
    } else {
      NameIsStripped(filename + "\"");
    }
  }

  lemma SemicolonAfter(body: string, rest: string, i: nat)
    requires ';' !in body && OccursAt(body + rest, ";", i)
    ensures i >= |body|
  {
    var s := body + rest;
    assert s[i] == s[i..i + 1][0] == ';';
    assert forall k :: 0 <= k < |body| ==> s[k] == body[k] && body[k] in body;
  }

  // ----- the delimiter as text

  /** The bytes around a part are those of dashes and line ends. */
  lemma DelimiterText(boundary: string)
    ensures DASHES + Encode(boundary) == Encode("--" + boundary)
    ensures CRLF == Encode("\r\n") && BLANK_LINE == Encode("\r\n\r\n")
  {
    EncodeConcat("--", boundary);
    EncodeConcat("\r\n", "\r\n");
    assert "\r\n" + "\r\n" == "\r\n\r\n";
    assert "--"[1..] == "-" && "-"[1..] == "" && "\r\n"[1..] == "\n" && "\n"[1..] == "";
    assert Encode("-") == [DASH] && Encode("\n") == [LF];
  }

  // ----- any header

  predicate IsDisposition(line: string) { "content-disposition:" <= LowerText(line) }

  predicate IsName(token: string) { "filename=" <= LowerText(Strip(token)) }

  /** The line names a file. */
  ghost predicate Names(line: string) { IsDisposition(line) && exists token <- Split(line, ";") :: IsName(token) }

  lemma {:induction false} FirstNameCounts(before: seq<string>, token: string, after: seq<string>, current: string)
    requires IsName(token) && forall t <- before :: !IsName(t)
    ensures TokenFilename(before + [token] + after, current) == StripQuotes(Strip(AfterEquals(Strip(token))))
  {
    var tokens := before + [token] + after;
    if before == [] {
      assert tokens[0] == token;
    } else {
      assert tokens[0] == before[0] && tokens[1..] == before[1..] + [token] + after;
      assert before[0] in before && !IsName(before[0]);
      FirstNameCounts(before[1..], token, after, current);
    }
  }

  lemma {:induction false} NoToken(tokens: seq<string>, current: string)
    requires forall t <- tokens :: !IsName(t)
    ensures TokenFilename(tokens, current) == current
  {
    if tokens != [] {
      assert tokens[0] in tokens && !IsName(tokens[0]);
      NoToken(tokens[1..], current);
    }
  }

  lemma {:induction false} NoLine(lines: seq<string>, current: string)
    requires forall line <- lines :: !Names(line)
    ensures LinesFilename(lines, current) == current
  {
    if lines != [] {
      assert lines[0] in lines && !Names(lines[0]);
      if IsDisposition(lines[0]) {
        NoToken(Split(lines[0], ";"), current);
      }
      NoLine(lines[1..], current);
    }
  }

  lemma {:induction false} LinesSplit(a: seq<string>, b: seq<string>, current: string)
    ensures LinesFilename(a + b, current) == LinesFilename(b, LinesFilename(a, current))
  {
    if a == [] {
      assert a + b == b;
    } else {
      assert (a + b)[0] == a[0] && (a + b)[1..] == a[1..] + b;
      LinesSplit(a[1..], b, LineFilename(a[0], current));
    }
  }

  /**
    The last line that names a file decides, by its first such parameter, without the spaces and then the
    quotation marks around it; without such a line the name is upload.zip.
  */
  lemma LastNamingLineDecides(header: string, before: seq<string>, line: string, after: seq<string>,
                              first: seq<string>, token: string, more: seq<string>)
    ensures (forall l <- Split(header, "\r\n") :: !Names(l)) ==> HeaderFilename(header) == "upload.zip"
    ensures && Split(header, "\r\n") == before + [line] + after && (forall l <- after :: !Names(l))
            && IsDisposition(line)
            && Split(line, ";") == first + [token] + more && (forall t <- first :: !IsName(t)) && IsName(token)
            ==> HeaderFilename(header) == StripQuotes(Strip(AfterEquals(Strip(token))))
  {
    hide Split, TokenFilename, StripQuotes, Strip, AfterEquals, LowerText;
    if forall l <- Split(header, "\r\n") :: !Names(l) {
      NoLine(Split(header, "\r\n"), DEFAULT_FILENAME);
    }
    if && Split(header, "\r\n") == before + [line] + after && (forall l <- after :: !Names(l)) && IsDisposition(line)
       && Split(line, ";") == first + [token] + more && (forall t <- first :: !IsName(t)) && IsName(token)
    {
      var current := LinesFilename(before, DEFAULT_FILENAME);
      LinesSplit(before + [line], after, DEFAULT_FILENAME);
      LinesSplit(before, [line], DEFAULT_FILENAME);
      FirstNameCounts(first, token, more, current);
      OneLineOnly(line, current);
      NoLine(after, LineFilename(line, current));
    }
  }

  lemma OneLineOnly(line: string, current: string)
    ensures LinesFilename([line], current) == LineFilename(line, current)
  {
    assert [line][1..] == [];
  }
}
