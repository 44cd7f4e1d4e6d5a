/** The reader of an uploaded file in a multipart/form-data body, against the body a client writes. */
module Multipart {
  import opened Wrappers
  import opened Text
  import opened Utf8

  const CR: Byte := 13
  const LF: Byte := 10
  const DASH: Byte := 45
  const CRLF: seq<Byte> := [CR, LF]
  const BLANK_LINE: seq<Byte> := [CR, LF, CR, LF]
  const DASHES: seq<Byte> := [DASH, DASH]

  predicate IsEol(b: Byte) { b == CR || b == LF }

  // ----- searching and splitting

  /** `s.find(d)` */
  function Index<T(==)>(s: seq<T>, d: seq<T>): int {
    if d <= s then 0
    else if s == [] then -1
    else
      var i := Index(s[1..], d);
      if i < 0 then -1 else i + 1
  }

  predicate OccursAt<T(==)>(s: seq<T>, d: seq<T>, i: nat) {
    i + |d| <= |s| && s[i..i + |d|] == d
  }

  lemma {:induction false} IndexIsFirst<T>(s: seq<T>, d: seq<T>)
    ensures Index(s, d) >= 0 ==> OccursAt(s, d, Index(s, d))
    ensures forall i: nat :: OccursAt(s, d, i) ==> 0 <= Index(s, d) <= i
    ensures Index(s, d) <= |s|
  {
    if d <= s {
      assert s[0..|d|] == d;
    } else {
      if s != [] {
        IndexIsFirst(s[1..], d);
        var j := Index(s[1..], d);
        if j >= 0 {
          assert s[j + 1..j + 1 + |d|] == s[1..][j..j + |d|];
        }
      }
      forall i: nat | OccursAt(s, d, i)
        ensures 0 <= Index(s, d) <= i
      {
        assert i > 0 by {
          assert s[0..|d|] == s[..|d|];
        }
        assert OccursAt(s[1..], d, i - 1) by {
          assert s[1..][i - 1..i - 1 + |d|] == s[i..i + |d|];
        }
      }
    }
  }

  /** The index is i when d occurs there and nowhere before. */
  lemma IndexAt<T>(s: seq<T>, d: seq<T>, i: nat)
    requires OccursAt(s, d, i) && forall k: nat :: k < i ==> !OccursAt(s, d, k)
    ensures Index(s, d) == i
  {
    IndexIsFirst(s, d);
  }

  /** `s.split(d)` */
  function Split<T(==)>(s: seq<T>, d: seq<T>): seq<seq<T>>
    requires d != []
    decreases |s|
  {
    var i := Index(s, d);
    IndexIsFirst(s, d);
    if i < 0 then [s] else [s[..i]] + Split(s[i + |d|..], d)
  }

  // ----- the reader

  datatype File = File(filename: string, data: seq<Byte>)

  function LStripEol(s: seq<Byte>): seq<Byte> {
    if s != [] && IsEol(s[0]) then LStripEol(s[1..]) else s
  }

  function StripQuotes(s: string): string {
    RStripQuotes(LStripQuotes(s))
  }

  function LStripQuotes(s: string): string {
    if s != "" && s[0] == '"' then LStripQuotes(s[1..]) else s
  }

  function RStripQuotes(s: string): string {
    if s != "" && s[|s| - 1] == '"' then RStripQuotes(s[..|s| - 1]) else s
  }

  /**
    The value of the first `filename=` parameter of one line. Lower case of ASCII letters decides the two
    comparisons: no other character's lower case starts with one of the letters compared, but for U+0130,
    whose lower case goes on with U+0307.
  */
  function TokenFilename(tokens: seq<string>, current: string): string {
    if tokens == [] then current
    else
      var token := Strip(tokens[0]);
      if "filename=" <= LowerText(token)
      then StripQuotes(Strip(AfterEquals(token)))
      else TokenFilename(tokens[1..], current)
  }

  function AfterEquals(token: string): string {
    var i := Find(token, '=');
    if i < |token| then token[i + 1..] else ""
  }

  function LineFilename(line: string, current: string): string {
    if "content-disposition:" <= LowerText(line) then TokenFilename(Split(line, ";"), current) else current
  }

  function LinesFilename(lines: seq<string>, current: string): string {
    if lines == [] then current else LinesFilename(lines[1..], LineFilename(lines[0], current))
  }

  const DEFAULT_FILENAME := "upload.zip"

  function HeaderFilename(header: string): string { LinesFilename(Split(header, "\r\n"), DEFAULT_FILENAME) }

  function DropFinalEol(s: seq<Byte>): seq<Byte> {
    if |s| >= 2 && s[|s| - 2..] == CRLF then s[..|s| - 2] else s
  }

  /** One part between two delimiters, if it is a file part. */
  function ReadPart(raw: seq<Byte>): Option<File> {
    var part := LStripEol(raw);
    if part == [] || DASHES <= part then None
    else
      var headerEnd := Index(part, BLANK_LINE);
      IndexIsFirst(part, BLANK_LINE);
      if headerEnd < 0 then None
      else Some(File(HeaderFilename(Decode(part[..headerEnd])), DropFinalEol(part[headerEnd + 4..])))
  }

  function FirstFile(parts: seq<seq<Byte>>): Option<File> {
    if parts == [] then None
    else match ReadPart(parts[0])
         case Some(f) => Some(f)
         case None => FirstFile(parts[1..])
  }

  function ReadBody(body: seq<Byte>, boundary: seq<Byte>): Option<File> { FirstFile(Split(body, DASHES + boundary)) }

  /** The loops over header lines and their parameters. */
  method ParseFilename(header: string) returns (filename: string)
    ensures filename == HeaderFilename(header)
  {
    filename := DEFAULT_FILENAME;
    var lines := Split(header, "\r\n");
    var i := 0;
    while i < |lines|
      invariant 0 <= i <= |lines|
      invariant LinesFilename(lines[i..], filename) == HeaderFilename(header)
    {
      var line := lines[i];
      assert lines[i..][0] == line && lines[i..][1..] == lines[i + 1..];
      if "content-disposition:" <= LowerText(line) {
        filename := ParseTokens(Split(line, ";"), filename);
      }
      i := i + 1;
    }
  }

  method ParseTokens(tokens: seq<string>, current: string) returns (filename: string)
    ensures filename == TokenFilename(tokens, current)
  {
    var i := 0;
    while i < |tokens|
      invariant 0 <= i <= |tokens|
      invariant TokenFilename(tokens[i..], current) == TokenFilename(tokens, current)
    {
      var token := Strip(tokens[i]);
      assert tokens[i..][0] == tokens[i] && tokens[i..][1..] == tokens[i + 1..];
      if "filename=" <= LowerText(token) {
        return StripQuotes(Strip(AfterEquals(token)));
      }
      i := i + 1;
    }
    filename := current;
  }

  /** `_parse_multipart_file` */
  method ParseMultipartFile(body: seq<Byte>, boundary: seq<Byte>) returns (r: Option<File>)
    ensures r == ReadBody(body, boundary)
  {
    var parts := Split(body, DASHES + boundary);
    var i := 0;
    while i < |parts|
      invariant 0 <= i <= |parts|
      invariant FirstFile(parts[i..]) == FirstFile(parts)
    {
      var part := LStripEol(parts[i]);
      assert parts[i..][0] == parts[i] && parts[i..][1..] == parts[i + 1..];
      i := i + 1;
      if part == [] || DASHES <= part {
        continue;
      }
      var headerEnd := Index(part, BLANK_LINE);
      IndexIsFirst(part, BLANK_LINE);
      if headerEnd == -1 {
        continue;
      }
      assert headerEnd >= 0;
      var filename := ParseFilename(Decode(part[..headerEnd]));
      return Some(File(filename, DropFinalEol(part[headerEnd + 4..])));
    }
    r := None;
  }

  // ----- the body a client writes (section 5.1 of RFC 2046, section 4 of RFC 7578)

  predicate BoundaryOk(boundary: seq<Byte>) { forall i :: 0 <= i < |boundary| ==> !IsEol(boundary[i]) }

  /** Nonempty lines separated by CRLF. */
  predicate HeaderOk(h: seq<Byte>) {
    && h != [] && !IsEol(h[0]) && !(DASHES <= h)
    && forall i :: 0 <= i < |h| && h[i] == CR ==> i + 2 < |h| && h[i + 1] == LF && h[i + 2] != CR
  }

  predicate Absent(d: seq<Byte>, s: seq<Byte>) { forall i: nat | i <= |s| :: !OccursAt(s, d, i) }

  /** What follows the part's closing delimiter, `rest`, is two dashes and a line end, or more parts. */
  function WriteBody(boundary: seq<Byte>, header: seq<Byte>, content: seq<Byte>, rest: seq<Byte>): seq<Byte> {
    DASHES + boundary + (CRLF + header + BLANK_LINE + content + CRLF) + (DASHES + boundary) + rest
  }

  /** The delimiter cannot straddle a line end, so it first recurs where the writer closed the part. */
  lemma DelimiterRecurs(d: seq<Byte>, header: seq<Byte>, content: seq<Byte>, tail: seq<Byte>)
    requires d != [] && forall i :: 0 <= i < |d| ==> !IsEol(d[i])
    requires Absent(d, header) && Absent(d, content)
    ensures Index(CRLF + header + BLANK_LINE + content + CRLF + d + tail, d)
         == |CRLF + header + BLANK_LINE + content + CRLF|
  {
    var p := CRLF + header + BLANK_LINE + content + CRLF;
    var s := p + d + tail;
    assert OccursAt(s, d, |p|);
    forall k: nat | k < |p|
      ensures !OccursAt(s, d, k)
    {
      NotEarlier(d, header, content, tail, k);
    }
    IndexAt(s, d, |p|);
  }

  lemma Differs<T>(s: seq<T>, d: seq<T>, k: nat, i: nat)
    requires k <= i < k + |d| && i < |s| && s[i] != d[i - k]
    ensures !OccursAt(s, d, k)
  {
    if k + |d| <= |s| {
      assert s[k..k + |d|][i - k] == s[i];
    }
  }

  /** A window either meets a line end or lies inside the header or inside the content. */
  lemma NotEarlier(d: seq<Byte>, header: seq<Byte>, content: seq<Byte>, tail: seq<Byte>, k: nat)
    requires d != [] && forall i :: 0 <= i < |d| ==> !IsEol(d[i])
    requires Absent(d, header) && Absent(d, content)
    requires k < |CRLF + header + BLANK_LINE + content + CRLF|
    ensures !OccursAt(CRLF + header + BLANK_LINE + content + CRLF + d + tail, d, k)
  {
    var s := CRLF + header + BLANK_LINE + content + CRLF + d + tail;
    var h, c, n := |header|, |content|, |d|;
    if k < 2 || 2 + h <= k < 6 + h || 6 + h + c <= k {
      assert IsEol(s[k]);
      Differs(s, d, k, k);
    } else if k < 2 + h {
      if k + n <= 2 + h {
        assert s[k..k + n] == header[k - 2..k - 2 + n];
        assert !OccursAt(header, d, k - 2);
      } else {
        assert IsEol(s[2 + h]);
        Differs(s, d, k, 2 + h);
      }
    } else {
      if k + n <= 6 + h + c {
        assert s[k..k + n] == content[k - 6 - h..k - 6 - h + n];
        assert !OccursAt(content, d, k - 6 - h);
      } else {
        assert IsEol(s[6 + h + c]);
        Differs(s, d, k, 6 + h + c);
      }
    }
  }

  /** The blank line that ends the headers is the first one. */
  lemma HeaderEnds(header: seq<Byte>, rest: seq<Byte>)
    requires HeaderOk(header)
    ensures Index(header + BLANK_LINE + rest, BLANK_LINE) == |header|
  {
    var s := header + BLANK_LINE + rest;
    assert OccursAt(s, BLANK_LINE, |header|);
    forall k: nat | k < |header|
      ensures !OccursAt(s, BLANK_LINE, k)
    {
      if header[k] != CR {
        Differs(s, BLANK_LINE, k, k);
      } else {
        assert s[k + 2] == header[k + 2];
        Differs(s, BLANK_LINE, k, k + 2);
      }
    }
    IndexAt(s, BLANK_LINE, |header|);
  }

  /** The middle part, as the split cuts it out, reads back as its headers and content. */
  lemma PartRoundTrip(header: seq<Byte>, content: seq<Byte>)
    requires HeaderOk(header)
    ensures ReadPart(CRLF + header + BLANK_LINE + content + CRLF) == Some(File(HeaderFilename(Decode(header)), content))
  {
    var part := header + BLANK_LINE + (content + CRLF);
    var raw := CRLF + header + BLANK_LINE + content + CRLF;
    assert raw[0] == CR && raw[1] == LF && raw[1..][1..] == part && raw[2] == header[0];
    assert LStripEol(raw) == LStripEol(raw[1..]) == LStripEol(part) == part;
    FirstTwo(header, content);
    HeaderEnds(header, content + CRLF);
    assert part[..|header|] == header;
    var tail := part[|header| + 4..];
    assert tail == content + CRLF;
    assert tail[|tail| - 2..] == CRLF && tail[..|tail| - 2] == content;
  }

  lemma FirstTwo(header: seq<Byte>, content: seq<Byte>)
    requires HeaderOk(header)
    ensures !(DASHES <= header + BLANK_LINE + (content + CRLF))
  {
    var part := header + BLANK_LINE + (content + CRLF);
    if |header| >= 2 {
      assert part[..2] == header[..2];
    } else {
      assert part[1] == CR;
    }
  }

  lemma SplitAtDelimiter(before: seq<Byte>, d: seq<Byte>, after: seq<Byte>)
    requires d != [] && Index(before + d + after, d) == |before|
    ensures Split(before + d + after, d) == [before] + Split(after, d)
  {
    var s := before + d + after;
    assert s[..|before|] == before && s[|before| + |d|..] == after;
  }

  lemma SecondPart(parts: seq<seq<Byte>>, middle: seq<Byte>, rest: seq<seq<Byte>>)
    requires parts == [[]] + ([middle] + rest) && ReadPart(middle).Some?
    ensures FirstFile(parts) == ReadPart(middle)
  {
    assert parts[0] == [] && parts[1..] == [middle] + rest && parts[1..][0] == middle;
    assert ReadPart([]) == None;
  }

  /**
    Every content that does not hold the delimiter reads back byte for byte, line ends at its edges included,
    whatever parts follow.
  */
  lemma BodyRoundTrip(boundary: seq<Byte>, header: seq<Byte>, content: seq<Byte>, rest: seq<Byte>)
    requires BoundaryOk(boundary) && HeaderOk(header)
    requires Absent(DASHES + boundary, header) && Absent(DASHES + boundary, content)
    ensures ReadBody(WriteBody(boundary, header, content, rest), boundary)
         == Some(File(HeaderFilename(Decode(header)), content))
  {
    hide ReadPart, HeaderFilename, Decode, FirstFile, Split, Absent;
    var d := DASHES + boundary;
    var middle := CRLF + header + BLANK_LINE + content + CRLF;
    assert WriteBody(boundary, header, content, rest) == [] + d + (middle + d + rest);
    assert Index([] + d + (middle + d + rest), d) == 0;
    SplitAtDelimiter([], d, middle + d + rest);
    DelimiterRecurs(d, header, content, rest);
    SplitAtDelimiter(middle, d, rest);
    PartRoundTrip(header, content);
    SecondPart(Split(WriteBody(boundary, header, content, rest), d), middle, Split(rest, d));
  }

  lemma NotFound(s: seq<Byte>, d: seq<Byte>)
    requires d != [] && Absent(d, s)
    ensures Split(s, d) == [s]
  {
    IndexIsFirst(s, d);
  }

  /** A body without parts has no file, whatever text follows its closing delimiter. */
  lemma EpilogueIsNoFile(boundary: seq<Byte>, epilogue: seq<Byte>)
    requires Absent(DASHES + boundary, DASHES + epilogue)
    ensures ReadBody(DASHES + boundary + (DASHES + epilogue), boundary) == None
  {
    var d, tail := DASHES + boundary, DASHES + epilogue;
    assert [] + d + tail == d + tail;
    assert Index([] + d + tail, d) == 0;
    SplitAtDelimiter([], d, tail);
    NotFound(tail, d);
    NoPart(tail);
    var parts := [[]] + [tail];
    assert ReadPart([]) == None && parts[0] == [] && parts[1..] == [tail];
  }

  lemma NoPart(tail: seq<Byte>)
    requires DASHES <= tail
    ensures FirstFile([tail]) == None
  {
    assert LStripEol(tail) == tail;
    assert ReadPart(tail) == None && [tail][1..] == [];
  }
}
