/**
  A printer of nested maps, with free choices of indentation, of the spaces around keys,
  colons and values, of the spelling of values, of blank lines and of comments, and what the
  reader makes of each printed line: comments and trailing spaces disappear, indentation is
  counted back, and every leaf is read as the value it was printed from. Leaves are booleans
  in any case, integers with signs and underscores, strings in either kind of quotes, and
  bare texts that are no boolean and no integer. The proof for whole texts builds on these.
 */
module YamlPrinter {
  import opened Wrappers
  import opened Decimals
  import opened Text
  import opened YamlReader

  datatype Sign = Unsigned | Plus | Minus

  /** Integers are printed as groups of digits with underscores between them. */
  datatype Leaf =
    | BoolLeaf(b: bool, word: string)
    | IntLeaf(sign: Sign, groups: seq<string>)
    | SingleLeaf(s: string)
    | DoubleLeaf(s: string)
    | BareLeaf(s: string)

  datatype Node = LeafNode(leaf: Leaf, gap: string) | MapNode(deeper: nat, entries: seq<Entry>)

  /**
    `noise` are the blank or comment lines before the entry, `pad` other spaces than blanks before its
    key, `gap` what is between key and colon, `trail` what follows the entry on its line.
  */
  datatype Entry = Entry(noise: seq<string>, pad: string, key: string, gap: string, node: Node, trail: string)

  // ----- what may be printed

  predicate IsNoisePrefix(s: string, j: nat) {
    j <= |s| && AllSpace(s[..j]) && (j < |s| ==> s[j] == '#')
  }

  /** Spaces, optionally followed by a comment. */
  ghost predicate Noise(s: string) {
    NoBreak(s) && exists j: nat :: IsNoisePrefix(s, j)
  }

  predicate PlainChar(c: char) { c != '\'' && c != '"' && c != '#' && !IsBreak(c) }

  predicate Plain(s: string) { forall i :: 0 <= i < |s| ==> PlainChar(s[i]) }

  predicate PlainKey(key: string) { key != "" && Plain(key) && ':' !in key && Trimmed(key) }

  /** Digits in groups, none of them empty. */
  predicate GroupsOk(groups: seq<string>) {
    groups != [] && forall i :: 0 <= i < |groups| ==> groups[i] != "" && AllDigits(groups[i])
  }

  /** Each double quotation mark follows a backslash, and the last character is none. */
  predicate DoubleOk(s: string) {
    && (forall i :: 0 <= i < |s| && s[i] == '"' ==> i > 0 && s[i - 1] == '\\')
    && (s != "" ==> s[|s| - 1] != '\\')
  }

  /** Neither a boolean nor an integer, and nothing that quotes or opens a comment. */
  ghost predicate BareOk(s: string) {
    && s != "" && Plain(s) && Trimmed(s) && !Spells(s, "true") && !Spells(s, "false")
    && forall sign, groups :: GroupsOk(groups) ==> s != SignText(sign) + Joined(groups)
  }

  ghost predicate LeafOk(leaf: Leaf) {
    match leaf
    case BoolLeaf(b, word) => Spells(word, if b then "true" else "false")
    case IntLeaf(_, groups) => GroupsOk(groups)
    case SingleLeaf(s) => '\'' !in s && NoBreak(s)
    case DoubleLeaf(s) => DoubleOk(s) && NoBreak(s)
    case BareLeaf(s) => BareOk(s)
  }

  predicate Pad(s: string) { AllSpace(s) && NoBreak(s) }

  ghost predicate EntryOk(e: Entry) {
    && (forall i :: 0 <= i < |e.noise| ==> Noise(e.noise[i]))
    && Pad(e.pad) && (e.pad != "" ==> e.pad[0] != ' ') && Pad(e.gap)
    && PlainKey(e.key) && Noise(e.trail)
    && match e.node
       case LeafNode(leaf, gap) => LeafOk(leaf) && Pad(gap)
       case MapNode(deeper, entries) => deeper > 0 && EntriesOk(entries)
  }

  ghost predicate EntriesOk(es: seq<Entry>) {
    es != [] ==> EntryOk(es[0]) && EntriesOk(es[1..])
  }

  // ----- printing and meaning

  function Spaces(n: nat): string { seq(n, i => ' ') }

  function SignText(sign: Sign): string {
    match sign
    case Unsigned => ""
    case Plus => "+"
    case Minus => "-"
  }

  function Joined(groups: seq<string>): string
    requires groups != []
  {
    if |groups| == 1 then groups[0] else groups[0] + "_" + Joined(groups[1..])
  }

  function Flat(groups: seq<string>): string {
    if groups == [] then "" else groups[0] + Flat(groups[1..])
  }

  lemma {:induction false} FlatIsDigits(groups: seq<string>)
    requires forall i :: 0 <= i < |groups| ==> AllDigits(groups[i])
    ensures AllDigits(Flat(groups))
  {
    if groups != [] {
      FlatIsDigits(groups[1..]);
    }
  }

  function LeafText(leaf: Leaf): string {
    match leaf
    case BoolLeaf(_, word) => word
    case IntLeaf(sign, groups) => SignText(sign) + (if groups == [] then "" else Joined(groups))
    case SingleLeaf(s) => "'" + s + "'"
    case DoubleLeaf(s) => "\"" + s + "\""
    case BareLeaf(s) => s
  }

  /** The number that groups of digits stand for. */
  function Number(groups: seq<string>): nat {
    if AllDigits(Flat(groups)) then ReadDigits(Flat(groups)) else 0
  }

  function LeafValue(leaf: Leaf): Value {
    match leaf
    case BoolLeaf(b, _) => Bool(b)
    case IntLeaf(sign, groups) => Int(if sign.Minus? then 0 - Number(groups) as int else Number(groups))
    case SingleLeaf(s) => Str(s)
    case DoubleLeaf(s) => Str(s)
    case BareLeaf(s) => Str(s)
  }

  function Body(indent: nat, head: string, rest: string): string { Spaces(indent) + (head + ":" + rest) }

  function Head(e: Entry): string { e.pad + e.key + e.gap }

  function Print(es: seq<Entry>, indent: nat): seq<string> {
    if es == [] then []
    else es[0].noise + PrintEntry(es[0], indent) + Print(es[1..], indent)
  }

  function PrintEntry(e: Entry, indent: nat): seq<string> {
    match e.node
    case LeafNode(leaf, gap) => [Body(indent, Head(e), gap + LeafText(leaf)) + e.trail]
    case MapNode(deeper, entries) => [Body(indent, Head(e), "") + e.trail] + Print(entries, indent + deeper)
  }

  function NodeValue(node: Node): Value {
    match node
    case LeafNode(leaf, _) => LeafValue(leaf)
    case MapNode(_, entries) => Dict(Meaning(map[], entries))
  }

  /** The map that the entries leave when they are put into `into` one by one. */
  function Meaning(into: map<string, Value>, es: seq<Entry>): map<string, Value>
    decreases es
  {
    if es == [] then into else Meaning(into[es[0].key := NodeValue(es[0].node)], es[1..])
  }

  // ----- comments are stripped, bodies are not

  function RunQuotes(q: Quotes, s: string): Quotes
    decreases |s|
  {
    if s == "" then q else RunQuotes(After(q, s[0]), s[1..])
  }

  predicate Neutral(q: Quotes) { !q.single && !q.double }

  /** Outside quotes, and not after a backslash. */
  predicate Fresh(q: Quotes) { Neutral(q) && q.previous != Some('\\') }

  /** Text without a comment, after which the reader is outside quotes again. */
  predicate Quiet(s: string, q: Quotes) {
    CommentAt(s, q) == |s| && Neutral(RunQuotes(q, s))
  }

  lemma {:induction false} CommentAfter(a: string, b: string, q: Quotes)
    requires CommentAt(a, q) == |a|
    ensures CommentAt(a + b, q) == |a| + CommentAt(b, RunQuotes(q, a))
    ensures RunQuotes(q, a + b) == RunQuotes(RunQuotes(q, a), b)
  {
    if a == "" {
      assert a + b == b;
    } else {
      assert (a + b)[1..] == a[1..] + b;
      CommentAfter(a[1..], b, After(q, a[0]));
    }
  }

  lemma {:induction false} PlainIsQuiet(s: string, q: Quotes)
    requires Neutral(q) && forall i :: 0 <= i < |s| ==> s[i] != '\'' && s[i] != '"' && s[i] != '#'
    ensures Quiet(s, q)
  {
    if s != "" {
      PlainIsQuiet(s[1..], After(q, s[0]));
    }
  }

  lemma {:induction false} InsideQuotes(s: string, q: Quotes)
    requires q.single && !q.double && '\'' !in s
    ensures CommentAt(s + "'", q) == |s| + 1 && Neutral(RunQuotes(q, s + "'"))
  {
    if s == "" {
      assert (s + "'")[1..] == "";
      assert RunQuotes(After(q, '\''), "") == After(q, '\'');
    } else {
      assert (s + "'")[1..] == s[1..] + "'";
      assert s[0] in s;
      InsideQuotes(s[1..], After(q, s[0]));
    }
  }

  lemma {:induction false} InsideDouble(s: string, q: Quotes)
    requires q.double && !q.single && (s != "" && s[0] == '"' ==> q.previous == Some('\\'))
    requires forall i :: 0 < i < |s| && s[i] == '"' ==> s[i - 1] == '\\'
    requires if s == "" then q.previous != Some('\\') else s[|s| - 1] != '\\'
    ensures CommentAt(s + "\"", q) == |s| + 1 && Neutral(RunQuotes(q, s + "\""))
  {
    if s == "" {
      assert (s + "\"")[1..] == "";
      assert RunQuotes(After(q, '"'), "") == After(q, '"');
    } else {
      assert (s + "\"")[1..] == s[1..] + "\"";
      InsideDouble(s[1..], After(q, s[0]));
    }
  }

  lemma DoubleIsQuiet(s: string, q: Quotes)
    requires Fresh(q) && DoubleOk(s)
    ensures Quiet("\"" + s + "\"", q)
  {
    InsideDouble(s, After(q, '"'));
    assert ("\"" + s + "\"")[1..] == s + "\"";
  }

  lemma SingleIsQuiet(s: string, q: Quotes)
    requires Neutral(q) && '\'' !in s
    ensures Quiet("'" + s + "'", q)
  {
    InsideQuotes(s, After(q, '\''));
    assert ("'" + s + "'")[1..] == s + "'";
  }

  lemma LeafIsQuiet(leaf: Leaf, q: Quotes)
    requires Fresh(q) && LeafOk(leaf)
    ensures Quiet(LeafText(leaf), q)
  {
    match leaf {
      case BoolLeaf(_, _) => PlainIsQuiet(LeafText(leaf), q);
      case IntLeaf(_, groups) =>
        JoinedChars(groups);
        PlainIsQuiet(LeafText(leaf), q);
      case SingleLeaf(s) =>
        SingleIsQuiet(s, q);
      case DoubleLeaf(s) =>
        DoubleIsQuiet(s, q);
      case BareLeaf(_) => PlainIsQuiet(LeafText(leaf), q);
    }
  }

  lemma IntBodiesJoin(g: string, rest: string)
    requires g != "" && AllDigits(g) && IsIntBody(rest)
    ensures IsIntBody(g + "_" + rest)
  {
    var s := g + "_" + rest;
    assert s[0] == g[0] && s[|s| - 1] == rest[|rest| - 1] && s[|g|] == '_' && s[|g| + 1] == rest[0];
    forall i | 0 <= i < |s|
      ensures IsDigit(s[i]) || s[i] == '_'
    {
      if i > |g| {
        assert s[i] == rest[i - |g| - 1];
      }
    }
    forall i | 0 < i < |s| && s[i] == '_'
      ensures s[i - 1] != '_'
    {
      if i > |g| + 1 {
        assert s[i] == rest[i - |g| - 1] && s[i - 1] == rest[i - |g| - 1 - 1];
      }
    }
  }

  lemma DigitsOfJoined(g: string, rest: string)
    requires AllDigits(g)
    ensures OnlyDigits(g + "_" + rest) == g + OnlyDigits(rest)
  {
    OnlyDigitsKeeps(g);
    OnlyDigitsSplits(g, "_" + rest);
    assert ("_" + rest)[1..] == rest && OnlyDigits("_" + rest) == "" + OnlyDigits(rest);
    assert g + "_" + rest == g + ("_" + rest);
  }

  lemma SingleGroup(g: string)
    requires g != "" && AllDigits(g)
    ensures IsIntBody(g) && OnlyDigits(g) == g && Flat([g]) == g && Joined([g]) == g
  {
    OnlyDigitsKeeps(g);
    assert [g][1..] == [] && Flat([]) == "" && g + "" == g;
  }

  /** Joined groups are the body of an integer, and its digits are theirs. */
  lemma {:induction false} JoinedChars(groups: seq<string>)
    requires GroupsOk(groups)
    ensures IsIntBody(Joined(groups)) && OnlyDigits(Joined(groups)) == Flat(groups)
  {
    hide IsIntBody, AllDigits, OnlyDigits;
    if |groups| == 1 {
      SingleGroup(groups[0]);
      assert groups == [groups[0]];
    } else {
      var rest := Joined(groups[1..]);
      JoinedChars(groups[1..]);
      IntBodiesJoin(groups[0], rest);
      DigitsOfJoined(groups[0], rest);
    }
  }

  lemma {:induction false} OnlyDigitsKeeps(s: string)
    requires AllDigits(s)
    ensures OnlyDigits(s) == s
  {
    if s != "" {
      OnlyDigitsKeeps(s[1..]);
      assert s == [s[0]] + s[1..];
    }
  }

  lemma {:induction false} OnlyDigitsSplits(a: string, b: string)
    ensures OnlyDigits(a + b) == OnlyDigits(a) + OnlyDigits(b)
  {
    hide IsDigit;
    if a == "" {
      assert a + b == b;
    } else {
      assert (a + b)[1..] == a[1..] + b;
      OnlyDigitsSplits(a[1..], b);
    }
  }

  lemma QuietConcat(a: string, b: string, q: Quotes)
    requires Quiet(a, q) && Quiet(b, RunQuotes(q, a))
    ensures Quiet(a + b, q)
  {
    CommentAfter(a, b, q);
  }

  /** A trail disappears, whatever spaces and comment it holds. */
  lemma StripTrail(body: string, trail: string)
    requires Quiet(body, OUTSIDE) && (body != "" ==> !IsSpace(body[|body| - 1])) && Noise(trail)
    ensures StripComment(RStrip(body + trail)) == body
  {
    var j: nat :| IsNoisePrefix(trail, j);
    var t := RStripKeepsBody(body, trail);
    var q := RunQuotes(OUTSIDE, body);
    CommentAfter(body, t, OUTSIDE);
    TrailComment(t, j, trail, q);
    var c := CommentAt(t, q);
    assert (body + t)[..|body| + c] == body + t[..c];
    RStripPads(body, t[..c]);
  }

  /** Up to its comment sign, a trail holds only spaces. */
  lemma TrailComment(t: string, j: nat, trail: string, q: Quotes)
    requires IsNoisePrefix(trail, j) && t <= trail && Neutral(q)
    ensures CommentAt(t, q) <= j && AllSpace(t[..CommentAt(t, q)])
  {
    var k := if j < |t| then j else |t|;
    assert forall i :: 0 <= i < k ==> t[i] == trail[..j][i];
    PlainIsQuiet(t[..k], q);
    CommentAfter(t[..k], t[k..], q);
    assert t == t[..k] + t[k..];
    if k < |t| {
      assert OpensComment(RunQuotes(q, t[..k]), t[k..][0]);
    }
  }

  lemma NoiseLine(st: State, raw: string)
    requires StackOk(st) && StoreOk(st.dicts) && Noise(raw)
    ensures ReadLine(st, raw) == Success(st)
  {
    assert "" + raw == raw;
    StripTrail("", raw);
  }

  lemma {:induction false} NoiseLines(st: State, noise: seq<string>, rest: seq<string>)
    requires StackOk(st) && StoreOk(st.dicts) && forall i :: 0 <= i < |noise| ==> Noise(noise[i])
    ensures ReadLines(st, noise + rest) == ReadLines(st, rest)
  {
    if noise == [] {
      assert noise + rest == rest;
    } else {
      NoiseLine(st, noise[0]);
      assert (noise + rest)[1..] == noise[1..] + rest;
      NoiseLines(st, noise[1..], rest);
    }
  }

  // ----- one printed entry

  lemma {:induction false} CountSpaces(n: nat, s: string)
    requires s != "" && s[0] != ' '
    ensures LeadingSpaces(Spaces(n) + s) == n
  {
    if n == 0 {
      assert Spaces(n) + s == s;
    } else {
      assert (Spaces(n) + s)[1..] == Spaces(n - 1) + s;
      CountSpaces(n - 1, s);
    }
  }

  lemma BodyIsQuiet(indent: nat, head: string, rest: string)
    requires Plain(head) && forall q :: Fresh(q) ==> Quiet(rest, q)
    ensures Quiet(Body(indent, head, rest), OUTSIDE)
  {
    var start := Spaces(indent) + (head + ":");
    PlainIsQuiet(start, OUTSIDE);
    LastSeen(start, OUTSIDE);
    assert Body(indent, head, rest) == start + rest;
    QuietConcat(start, rest, OUTSIDE);
  }

  lemma {:induction false} LastSeen(s: string, q: Quotes)
    ensures RunQuotes(q, s).previous == if s == "" then q.previous else Some(s[|s| - 1])
  {
    if s != "" {
      LastSeen(s[1..], After(q, s[0]));
    }
  }

  /** The spaces around a key are stripped, and those that are blanks counted. */
  lemma KeyAround(indent: nat, pad: string, key: string, gap: string, rest: string)
    requires PlainKey(key) && Pad(pad) && (pad != "" ==> pad[0] != ' ') && Pad(gap)
    requires rest != "" ==> !IsSpace(rest[|rest| - 1])
    ensures var body, content := Body(indent, pad + key + gap, rest), key + gap + ":" + rest;
            && Strip(body) == content && body != "" && !IsSpace(body[|body| - 1])
            && LeadingSpaces(body) == indent
            && Find(content, ':') == |key + gap|
            && Strip(content[..|key + gap|]) == key && content[|key + gap| + 1..] == rest
    ensures Plain(pad + key + gap)
  {
    var body, content := Body(indent, pad + key + gap, rest), key + gap + ":" + rest;
    assert body == (Spaces(indent) + pad) + content == Spaces(indent) + (pad + content);
    assert content[0] == key[0];
    assert content[|content| - 1] == if rest == "" then ':' else rest[|rest| - 1];
    SpacesHold(pad);
    SpacesHold(gap);
    KeyFound(key, gap, rest);
    StripPads(Spaces(indent) + pad, content);
    CountSpaces(indent, pad + content);
    hide Strip, Find, LeadingSpaces, IsSpace, IsBreak;
  }

  lemma KeyFound(key: string, gap: string, rest: string)
    requires PlainKey(key) && Pad(gap) && ':' !in gap
    ensures var content := key + gap + ":" + rest;
            && Find(content, ':') == |key + gap|
            && Strip(content[..|key + gap|]) == key && content[|key + gap| + 1..] == rest
  {
    var content := key + gap + ":" + rest;
    FindFirst(key + gap, ':', rest);
    StripAfter(key, gap);
    assert content[..|key + gap|] == key + gap;
  }

  lemma SpacesHold(pad: string)
    requires Pad(pad)
    ensures ':' !in pad && Plain(pad)
  {
  }

  lemma StripAfter(s: string, pad: string)
    requires s != "" && Trimmed(s) && AllSpace(pad)
    ensures Strip(s + pad) == s
  {
    RStripPads(s, pad);
    assert LStrip(s) == s;
  }

  lemma EntryLine(st: State, indent: nat, e: Entry, gap: string, text: string)
    requires StackOk(st) && StoreOk(st.dicts) && EntryOk(e)
    requires Pad(gap)
    requires Trimmed(text) && (text == "" ==> gap == "") && forall q :: Fresh(q) ==> Quiet(gap + text, q)
    ensures StackOk(State(st.dicts, PopTo(st.stack, indent)))
    ensures PopTo(st.stack, indent)[|PopTo(st.stack, indent)| - 1].indent < indent
    ensures ReadLine(st, Body(indent, Head(e), gap + text) + e.trail)
         == Success(Put(State(st.dicts, PopTo(st.stack, indent)), indent, e.key, text))
  {
    RootStays(st, indent);
    hide Strip, CommentAt, RunQuotes, Body;
    var rest := gap + text;
    assert rest != "" ==> rest[|rest| - 1] == text[|text| - 1];
    KeyAround(indent, e.pad, e.key, e.gap, rest);
    BodyIsQuiet(indent, Head(e), rest);
    StripTrail(Body(indent, Head(e), rest), e.trail);
    StripPads(gap, text);
  }

  // ----- scalars

  /** A text that reads as an integer is a sign and groups of digits. */
  lemma {:induction false} IntBodyIsJoined(s: string) returns (groups: seq<string>)
    requires IsIntBody(s)
    ensures GroupsOk(groups) && Joined(groups) == s
  {
    var i := Find(s, '_');
    if i == |s| {
      groups := [s];
    } else {
      var rest := s[i + 1..];
      assert s[i] == '_' && i > 0 && i < |s| - 1;
      assert s[i + 1 - 1] == '_' && s[i + 1] != '_';
      assert forall k :: 0 < k < |rest| && rest[k] == '_' ==> s[k + i + 1] == '_' && rest[k - 1] == s[k + i + 1 - 1];
      var more := IntBodyIsJoined(rest);
      groups := [s[..i]] + more;
      assert groups[1..] == more;
      assert s == s[..i] + "_" + rest;
    }
  }

  lemma SignedIs(sign: Sign, body: string)
    requires IsIntBody(body)
    ensures var s := SignText(sign) + body; var n := ReadDigits(OnlyDigits(body));
                                            ParseInt(s) == Some(if sign.Minus? then 0 - n as int else n as int)
  {
    var s := SignText(sign) + body;
    if sign.Unsigned? {
      assert s == body;
    } else {
      assert s[1..] == body;
    }
  }

  lemma IntTextIs(sign: Sign, groups: seq<string>)
    requires GroupsOk(groups)
    ensures ParseInt(SignText(sign) + Joined(groups)) == Some(if sign.Minus? then 0 - Number(groups) as int
                                                              else Number(groups) as int)
  {
    JoinedChars(groups);
    SignedIs(sign, Joined(groups));
  }

  lemma OnlyIntTexts(s: string) returns (sign: Sign, groups: seq<string>)
    requires ParseInt(s).Some?
    ensures GroupsOk(groups) && s == SignText(sign) + Joined(groups)
  {
    if s[0] == '-' || s[0] == '+' {
      sign := if s[0] == '-' then Minus else Plus;
      groups := IntBodyIsJoined(s[1..]);
      assert s == SignText(sign) + s[1..];
    } else {
      sign := Unsigned;
      groups := IntBodyIsJoined(s);
      assert s == "" + s;
    }
  }

  lemma QuotedBack(s: string)
    ensures ParseScalar("'" + s + "'") == Str(s) && ParseScalar("\"" + s + "\"") == Str(s)
  {
    assert ("'" + s + "'")[1..|s| + 1] == s && ("\"" + s + "\"")[1..|s| + 1] == s;
  }

  lemma WordBack(word: string)
    requires Spells(word, "true") || Spells(word, "false")
    ensures word != "" && Trimmed(word) && ParseScalar(word) == Bool(Spells(word, "true"))
  {
    SpellsIsLower(word, "true");
    SpellsIsLower(word, "false");
  }

  lemma IntLeafBack(sign: Sign, groups: seq<string>)
    requires GroupsOk(groups)
    ensures var s := SignText(sign) + Joined(groups);
            s != "" && Trimmed(s) && ParseScalar(s) == Int(if sign.Minus? then 0 - Number(groups) as int
                                                           else Number(groups) as int)
  {
    var s := SignText(sign) + Joined(groups);
    IntTextEnds(sign, groups);
    IntTextIs(sign, groups);
    hide Joined, SignText, ParseInt, Trimmed, LowerText;
    SpellsIsLower(s, "true");
    SpellsIsLower(s, "false");
  }

  lemma IntTextEnds(sign: Sign, groups: seq<string>)
    requires GroupsOk(groups)
    ensures var s := SignText(sign) + Joined(groups);
            s != "" && (IsDigit(s[0]) || s[0] == '+' || s[0] == '-') && IsDigit(s[|s| - 1]) && Trimmed(s)
  {
    var s := SignText(sign) + Joined(groups);
    JoinedChars(groups);
    hide Joined, OnlyDigits, Flat;
    assert s[|s| - 1] == Joined(groups)[|Joined(groups)| - 1];
  }

  lemma BareBack(s: string)
    requires BareOk(s)
    ensures ParseScalar(s) == Str(s)
  {
    if ParseInt(s).Some? {
      var sign, groups := OnlyIntTexts(s);
    }
    SpellsIsLower(s, "true");
    SpellsIsLower(s, "false");
  }

  lemma ScalarBack(leaf: Leaf)
    requires LeafOk(leaf)
    ensures LeafText(leaf) != "" && Trimmed(LeafText(leaf)) && ParseScalar(LeafText(leaf)) == LeafValue(leaf)
  {
    hide ParseScalar, Joined;
    match leaf {
      case BoolLeaf(_, word) => WordBack(word);
      case IntLeaf(sign, groups) => IntLeafBack(sign, groups);
      case SingleLeaf(s) => QuotedBack(s);
      case DoubleLeaf(s) => QuotedBack(s);
      case BareLeaf(s) => BareBack(s);
    }
  }
}
