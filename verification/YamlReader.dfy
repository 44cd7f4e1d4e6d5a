/**
  The indentation reader of the reconciliation schema. Dictionaries are shared by reference
  between the stack and their parents, so they live in a numbered store: a slot of one
  dictionary may refer to another by its number.
 */
module YamlReader {
  import opened Wrappers
  import opened Decimals
  import opened Text

  datatype Value = Bool(b: bool) | Int(i: int) | Str(s: string) | Dict(entries: map<string, Value>)

  datatype Slot = Scalar(value: Value) | Child(ref: nat)

  datatype Frame = Frame(indent: int, ref: nat)

  datatype State = State(dicts: seq<map<string, Slot>>, stack: seq<Frame>)

  // ----- comments

  datatype Quotes = Quotes(single: bool, double: bool, previous: Option<char>)

  const OUTSIDE := Quotes(false, false, None)

  predicate OpensComment(q: Quotes, c: char) { c == '#' && !q.single && !q.double }

  function After(q: Quotes, c: char): Quotes {
    if c == '\'' && !q.double then Quotes(!q.single, q.double, Some(c))
    else if c == '"' && !q.single && q.previous != Some('\\') then Quotes(q.single, !q.double, Some(c))
    else Quotes(q.single, q.double, Some(c))
  }

  /** Index of the comment sign, or the length. */
  function CommentAt(s: string, q: Quotes): (n: nat)
    ensures n <= |s|
  {
    if s == "" || OpensComment(q, s[0]) then 0 else 1 + CommentAt(s[1..], After(q, s[0]))
  }

  function StripComment(line: string): string { RStrip(line[..CommentAt(line, OUTSIDE)]) }

  /** `_strip_yaml_comment` */
  method StripYamlComment(line: string) returns (r: string)
    ensures r == StripComment(line)
  {
    var inSingle, inDouble, previous := false, false, None;
    var i := 0;
    while i < |line|
      invariant 0 <= i <= |line|
      invariant i + CommentAt(line[i..], Quotes(inSingle, inDouble, previous)) == CommentAt(line, OUTSIDE)
    {
      var c := line[i];
      assert line[i..][1..] == line[i + 1..];
      if c == '\'' && !inDouble {
        inSingle := !inSingle;
      } else if c == '"' && !inSingle && previous != Some('\\') {
        inDouble := !inDouble;
      } else if c == '#' && !inSingle && !inDouble {
        return RStrip(line[..i]);
      }
      previous := Some(c);
      i := i + 1;
    }
    assert line[..i] == line;
    r := RStrip(line);
  }

  // ----- scalars

  /** Digits, with single underscores between them. */
  predicate IsIntBody(s: string) {
    && s != "" && IsDigit(s[0]) && IsDigit(s[|s| - 1])
    && (forall i :: 0 <= i < |s| ==> IsDigit(s[i]) || s[i] == '_')
    && (forall i :: 0 < i < |s| && s[i] == '_' ==> s[i - 1] != '_')
  }

  function OnlyDigits(s: string): (r: string)
    ensures AllDigits(r)
  {
    if s == "" then "" else (if IsDigit(s[0]) then [s[0]] else "") + OnlyDigits(s[1..])
  }

  /** `int(value)` of a stripped text, or None where it raises. */
  function ParseInt(s: string): Option<int> {
    if s != "" && (s[0] == '-' || s[0] == '+') then
      if IsIntBody(s[1..]) then
        var n := ReadDigits(OnlyDigits(s[1..]));
        Some(if s[0] == '-' then 0 - n as int else n as int)
      else None
    else if IsIntBody(s) then Some(ReadDigits(OnlyDigits(s)))
    else None
  }

  predicate Enclosed(s: string, q: char) { s != "" && s[0] == q && s[|s| - 1] == q }

  /** `_parse_yaml_scalar` */
  function ParseScalar(s: string): Value {
    if Enclosed(s, '"') || Enclosed(s, '\'') then Str(if |s| >= 2 then s[1..|s| - 1] else "")
    else if LowerText(s) == "true" then Bool(true)
    else if LowerText(s) == "false" then Bool(false)
    else match ParseInt(s)
         case Some(i) => Int(i)
         case None => Str(s)
  }

  // ----- the stack

  /** The stack once every frame at or above the indentation is gone. */
  function PopTo(stack: seq<Frame>, indent: int): seq<Frame> {
    if stack != [] && indent <= stack[|stack| - 1].indent then PopTo(stack[..|stack| - 1], indent) else stack
  }

  /** The root frame is at the bottom, indentations grow strictly, and references point into the store. */
  predicate StackOk(st: State) {
    && st.stack != [] && st.stack[0] == Frame(-1, 0)
    && (forall i, j :: 0 <= i < j < |st.stack| ==> st.stack[i].indent < st.stack[j].indent)
    && (forall i :: 0 <= i < |st.stack| ==> st.stack[i].ref < |st.dicts|)
  }

  /** A dictionary refers only to dictionaries created after it. */
  predicate StoreOk(dicts: seq<map<string, Slot>>) {
    forall i, k :: 0 <= i < |dicts| && k in dicts[i] && dicts[i][k].Child? ==> i < dicts[i][k].ref < |dicts|
  }

  lemma {:induction false} RootStays(st: State, indent: int)
    requires StackOk(st) && indent >= 0
    ensures StackOk(State(st.dicts, PopTo(st.stack, indent)))
    ensures PopTo(st.stack, indent) <= st.stack
    ensures PopTo(st.stack, indent)[|PopTo(st.stack, indent)| - 1].indent < indent
    decreases |st.stack|
  {
    var last := st.stack[|st.stack| - 1];
    if indent <= last.indent {
      var shorter := State(st.dicts, st.stack[..|st.stack| - 1]);
      assert |st.stack| > 1;
      RootStays(shorter, indent);
    }
  }

  // ----- lines

  function LeadingSpaces(s: string): nat {
    if s != "" && s[0] == ' ' then 1 + LeadingSpaces(s[1..]) else 0
  }

  function Put(st: State, indent: int, key: string, valueText: string): (r: State)
    requires StackOk(st) && StoreOk(st.dicts) && st.stack[|st.stack| - 1].indent < indent
    ensures StackOk(r) && StoreOk(r.dicts)
  {
    var parent := st.stack[|st.stack| - 1].ref;
    if valueText == "" then
      State(st.dicts[parent := st.dicts[parent][key := Child(|st.dicts|)]] + [map[]],
            st.stack + [Frame(indent, |st.dicts|)])
    else
      State(st.dicts[parent := st.dicts[parent][key := Scalar(ParseScalar(valueText))]], st.stack)
  }

  function ReadLine(st: State, raw: string): (r: Result<State, string>)
    requires StackOk(st) && StoreOk(st.dicts)
    ensures r.Success? ==> StackOk(r.value) && StoreOk(r.value.dicts)
  {
    var line := StripComment(RStrip(raw));
    var content := Strip(line);
    if content == "" then Success(st)
    else
      var colon := Find(content, ':');
      if colon == |content| then Failure(raw)
      else
        var key := Strip(content[..colon]);
        if key == "" then Failure(raw)
        else
          RootStays(st, LeadingSpaces(line));
          Success(Put(State(st.dicts, PopTo(st.stack, LeadingSpaces(line))), LeadingSpaces(line), key,
                              Strip(content[colon + 1..])))
  }

  function ReadLines(st: State, lines: seq<string>): (r: Result<State, string>)
    requires StackOk(st) && StoreOk(st.dicts)
    ensures r.Success? ==> StackOk(r.value) && StoreOk(r.value.dicts)
    decreases |lines|
  {
    if lines == [] then Success(st)
    else match ReadLine(st, lines[0])
         case Failure(e) => Failure(e)
         case Success(next) => ReadLines(next, lines[1..])
  }

  const START := State([map[]], [Frame(-1, 0)])

  // ----- the value a dictionary stands for

  function Resolve(dicts: seq<map<string, Slot>>, ref: nat): map<string, Value>
    requires StoreOk(dicts) && ref < |dicts|
    decreases |dicts| - ref
  {
    map k | k in dicts[ref] ::
      match dicts[ref][k]
      case Scalar(v) => v
      case Child(r) => Dict(Resolve(dicts, r))
  }

  function ReadText(text: string): Result<Value, string> {
    match ReadLines(START, SplitLines(text))
    case Failure(e) => Failure(e)
    case Success(st) => Success(Dict(Resolve(st.dicts, 0)))
  }

  /** The inner loop: frames at or above the indentation are popped. */
  method PopFrames(stack0: seq<Frame>, indent: int) returns (stack: seq<Frame>)
    ensures stack == PopTo(stack0, indent)
  {
    stack := stack0;
    while stack != [] && indent <= stack[|stack| - 1].indent
      invariant PopTo(stack, indent) == PopTo(stack0, indent)
      decreases |stack|
    {
      stack := stack[..|stack| - 1];
    }
  }

  /** One turn of the loop below: a line is skipped, refused, or put into the dictionary it belongs to. */
  method AddLine(st: State, raw: string) returns (r: Result<State, string>)
    requires StackOk(st) && StoreOk(st.dicts)
    ensures r == ReadLine(st, raw)
  {
    var line := StripYamlComment(RStrip(raw));
    var content := Strip(line);
    if content == "" {
      return Success(st);
    }
    var indent := LeadingSpaces(line);
    var colon := Find(content, ':');
    if colon == |content| {
      return Failure(raw);
    }
    var key := Strip(content[..colon]);
    if key == "" {
      return Failure(raw);
    }
    RootStays(st, indent);
    var dicts, stack := st.dicts, st.stack;
    stack := PopFrames(stack, indent);
    var parent := stack[|stack| - 1].ref;
    var valueText := Strip(content[colon + 1..]);
    if valueText == "" {
      dicts := dicts[parent := dicts[parent][key := Child(|dicts|)]] + [map[]];
      stack := stack + [Frame(indent, |dicts| - 1)];
    } else {
      dicts := dicts[parent := dicts[parent][key := Scalar(ParseScalar(valueText))]];
    }
    r := Success(State(dicts, stack));
  }

  /** `_parse_simple_yaml` */
  method ParseSimpleYaml(text: string) returns (r: Result<Value, string>)
    ensures r == ReadText(text)
  {
    var lines := SplitLines(text);
    var st := START;
    var i := 0;
    while i < |lines|
      invariant 0 <= i <= |lines| && StackOk(st) && StoreOk(st.dicts)
      invariant ReadLines(st, lines[i..]) == ReadLines(START, lines)
    {
      hide ReadLine, StackOk, StoreOk;
      assert lines[i..][0] == lines[i] && lines[i..][1..] == lines[i + 1..];
      var next := AddLine(st, lines[i]);
      if next.Failure? {
        return Failure(next.error);
      }
      st := next.value;
      i := i + 1;
    }
    r := Success(Dict(Resolve(st.dicts, 0)));
  }
}
