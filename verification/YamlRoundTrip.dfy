/** The reader inverts the printer, for maps of every depth and every choice of layout. */
module YamlRoundTrip {
  import opened Wrappers
  import opened Decimals
  import opened Text
  import opened YamlReader
  import opened YamlPrinter

  // ----- the store grows, and only one existing dictionary changes

  ghost predicate Grown(before: seq<map<string, Slot>>, after: seq<map<string, Slot>>, p: nat) {
    |before| <= |after| && forall i :: 0 <= i < |before| && i != p ==> after[i] == before[i]
  }

  lemma {:induction false} ResolveFrame(before: seq<map<string, Slot>>, after: seq<map<string, Slot>>, p: nat, r: nat)
    requires StoreOk(before) && StoreOk(after) && Grown(before, after, p) && p < r < |before|
    ensures Resolve(after, r) == Resolve(before, r)
    decreases |before| - r
  {
    forall k | k in before[r] && before[r][k].Child?
      ensures Resolve(after, before[r][k].ref) == Resolve(before, before[r][k].ref)
    {
      ResolveFrame(before, after, p, before[r][k].ref);
    }
  }

  function SlotValue(dicts: seq<map<string, Slot>>, slot: Slot): Value
    requires StoreOk(dicts) && (slot.Child? ==> slot.ref < |dicts|)
  {
    match slot
    case Scalar(v) => v
    case Child(r) => Dict(Resolve(dicts, r))
  }

  /** Writing one slot of dictionary p changes what p stands for at that key only. */
  lemma ResolveUpdated(before: seq<map<string, Slot>>, after: seq<map<string, Slot>>, p: nat, key: string, slot: Slot)
    requires StoreOk(before) && StoreOk(after) && Grown(before, after, p) && p < |before|
    requires after[p] == before[p][key := slot]
    requires slot.Child? ==> p < slot.ref < |after|
    ensures Resolve(after, p) == Resolve(before, p)[key := SlotValue(after, slot)]
  {
    var m := Resolve(before, p)[key := SlotValue(after, slot)];
    forall k | k in after[p]
      ensures k in m && SlotValue(after, after[p][k]) == m[k]
    {
      if k != key && before[p][k].Child? {
        ResolveFrame(before, after, p, before[p][k].ref);
      }
    }
    assert Resolve(after, p).Keys == after[p].Keys == m.Keys;
  }

  // ----- popping

  lemma {:induction false} PopTwice(stack: seq<Frame>, high: int, low: int)
    requires low <= high
    ensures PopTo(PopTo(stack, high), low) == PopTo(stack, low)
    decreases |stack|
  {
    if stack != [] && high <= stack[|stack| - 1].indent {
      PopTwice(stack[..|stack| - 1], high, low);
    }
  }

  lemma {:induction false} ReadAppend(st: State, a: seq<string>, b: seq<string>)
    requires StackOk(st) && StoreOk(st.dicts)
    ensures ReadLines(st, a).Success? ==> ReadLines(st, a + b) == ReadLines(ReadLines(st, a).value, b)
    decreases |a|
  {
    if a == [] {
      assert a + b == b;
    } else {
      assert (a + b)[0] == a[0] && (a + b)[1..] == a[1..] + b;
      match ReadLine(st, a[0]) {
        case Failure(_) =>
        case Success(next) => ReadAppend(next, a[1..], b);
      }
    }
  }

  // ----- reading what was printed

  function Top(stack: seq<Frame>): nat
    requires stack != []
  {
    stack[|stack| - 1].ref
  }

  /** The state after printed entries: the stack is back where it was, and dictionary p has gained them. */
  ghost predicate Gained(st: State, after: State, indent: nat, into: map<string, Value>)
    requires StackOk(st) && StoreOk(st.dicts)
  {
    RootStays(st, indent);
    var p := Top(PopTo(st.stack, indent));
    && StackOk(after) && StoreOk(after.dicts)
    && PopTo(after.stack, indent) == PopTo(st.stack, indent)
    && Grown(st.dicts, after.dicts, p)
    && Resolve(after.dicts, p) == into
  }

  ghost function Held(st: State, indent: nat): map<string, Value>
    requires StackOk(st) && StoreOk(st.dicts)
  {
    RootStays(st, indent);
    Resolve(st.dicts, Top(PopTo(st.stack, indent)))
  }

  lemma GapAndLeafAreQuiet(leaf: Leaf, gap: string)
    requires LeafOk(leaf) && AllSpace(gap)
    ensures forall q :: Fresh(q) ==> Quiet(gap + LeafText(leaf), q)
  {
    forall q | Fresh(q)
      ensures Quiet(gap + LeafText(leaf), q)
    {
      PlainIsQuiet(gap, q);
      LastSeen(gap, q);
      LeafIsQuiet(leaf, RunQuotes(q, gap));
      QuietConcat(gap, LeafText(leaf), q);
    }
  }

  lemma FirstLineThen(st: State, next: State, line: string, rest: seq<string>)
    requires StackOk(st) && StoreOk(st.dicts) && StackOk(next) && StoreOk(next.dicts)
    requires ReadLine(st, line) == Success(next)
    ensures ReadLines(st, [line] + rest) == ReadLines(next, rest)
  {
    assert ([line] + rest)[0] == line && ([line] + rest)[1..] == rest;
  }

  lemma LeafEntry(st: State, e: Entry, indent: nat) returns (after: State)
    requires StackOk(st) && StoreOk(st.dicts) && EntryOk(e) && e.node.LeafNode?
    ensures ReadLines(st, PrintEntry(e, indent)) == Success(after)
    ensures Gained(st, after, indent, Held(st, indent)[e.key := NodeValue(e.node)])
  {
    var leaf, gap := e.node.leaf, e.node.gap;
    ScalarBack(leaf);
    GapAndLeafAreQuiet(leaf, gap);
    EntryLine(st, indent, e, gap, LeafText(leaf));
    after := Put(State(st.dicts, PopTo(st.stack, indent)), indent, e.key, LeafText(leaf));
    var line := Body(indent, Head(e), gap + LeafText(leaf)) + e.trail;
    FirstLineThen(st, after, line, []);
    assert PrintEntry(e, indent) == [line] + [];
    LeafIsHeld(st, after, e.key, leaf, indent);
  }

  lemma LeafIsHeld(st: State, after: State, key: string, leaf: Leaf, indent: nat)
    requires StackOk(st) && StoreOk(st.dicts) && StackOk(after) && StoreOk(after.dicts)
    requires StackOk(State(st.dicts, PopTo(st.stack, indent)))
    requires after.stack == PopTo(st.stack, indent)
    requires var p := Top(PopTo(st.stack, indent)); after.dicts
                                                    == st.dicts[p := st.dicts[p][key := Slot.Scalar(LeafValue(leaf))]]
    ensures Gained(st, after, indent, Held(st, indent)[key := LeafValue(leaf)])
  {
    RootStays(st, indent);
    var base := PopTo(st.stack, indent);
    ResolveUpdated(st.dicts, after.dicts, Top(base), key, Slot.Scalar(LeafValue(leaf)));
  }

  /** The line that opens a nested map. */
  lemma OpenMap(st: State, e: Entry, indent: nat) returns (after: State)
    requires StackOk(st) && StoreOk(st.dicts) && EntryOk(e) && e.node.MapNode?
    ensures ReadLine(st, Body(indent, Head(e), "") + e.trail) == Success(after)
    ensures StackOk(State(st.dicts, PopTo(st.stack, indent)))
    ensures StackOk(after) && StoreOk(after.dicts)
    ensures var base := PopTo(st.stack, indent);
            && base[|base| - 1].indent < indent
            && after.stack == base + [Frame(indent, |st.dicts|)]
            && after.dicts == st.dicts[Top(base) := st.dicts[Top(base)][e.key := Child(|st.dicts|)]] + [map[]]
  {
    assert "" + "" == "";
    EntryLine(st, indent, e, "", "");
    after := Put(State(st.dicts, PopTo(st.stack, indent)), indent, e.key, "");
  }

  /** The nested entries were read into the child; seen from the parent that is one more key. */
  lemma CloseMap(st: State, child: State, after: State, e: Entry, indent: nat, deeper: nat, inner: map<string, Value>)
    requires StackOk(st) && StoreOk(st.dicts) && deeper > 0
    requires StackOk(State(st.dicts, PopTo(st.stack, indent))) && StackOk(child) && StoreOk(child.dicts)
    requires var base := PopTo(st.stack, indent);
             && base[|base| - 1].indent < indent
             && child.stack == base + [Frame(indent, |st.dicts|)]
             && child.dicts == st.dicts[Top(base) := st.dicts[Top(base)][e.key := Child(|st.dicts|)]] + [map[]]
    requires Gained(child, after, indent + deeper, inner)
    ensures Gained(st, after, indent, Held(st, indent)[e.key := Dict(inner)])
  {
    var base := PopTo(st.stack, indent);
    var p, c := Top(base), |st.dicts|;
    assert PopTo(child.stack, indent + deeper) == child.stack;
    PopTwice(after.stack, indent + deeper, indent);
    assert Top(child.stack) == c;
    assert after.dicts[p] == child.dicts[p] == st.dicts[p][e.key := Child(c)];
    assert Grown(st.dicts, after.dicts, p);
    ResolveUpdated(st.dicts, after.dicts, p, e.key, Child(c));
  }

  lemma EmptyChild(child: State, indent: nat, deeper: nat, base: seq<Frame>, c: nat)
    requires StackOk(child) && StoreOk(child.dicts) && deeper > 0
    requires base != [] && base[|base| - 1].indent < indent && child.stack == base + [Frame(indent, c)]
    requires c < |child.dicts| && child.dicts[c] == map[]
    ensures Held(child, indent + deeper) == map[]
  {
  }

  lemma {:induction false} ReadEntry(st: State, e: Entry, indent: nat) returns (after: State)
    requires StackOk(st) && StoreOk(st.dicts) && EntryOk(e)
    ensures ReadLines(st, PrintEntry(e, indent)) == Success(after)
    ensures Gained(st, after, indent, Held(st, indent)[e.key := NodeValue(e.node)])
    decreases e, 0
  {
    hide Gained, ReadLine, ReadLines, PopTo, Resolve, Body;
    match e.node {
      case LeafNode(_, _) => after := LeafEntry(st, e, indent);
      case MapNode(deeper, entries) =>
        var child := OpenMap(st, e, indent);
        EmptyChild(child, indent, deeper, PopTo(st.stack, indent), |st.dicts|);
        after := ReadEntries(child, entries, indent + deeper);
        CloseMap(st, child, after, e, indent, deeper, Meaning(map[], entries));
        FirstLineThen(st, child, Body(indent, Head(e), "") + e.trail, Print(entries, indent + deeper));
    }
  }

  lemma {:induction false} ReadEntries(st: State, es: seq<Entry>, indent: nat) returns (after: State)
    requires StackOk(st) && StoreOk(st.dicts) && EntriesOk(es)
    ensures ReadLines(st, Print(es, indent)) == Success(after)
    ensures Gained(st, after, indent, Meaning(Held(st, indent), es))
    decreases es, 1
  {
    if es == [] {
      after := st;
    } else {
      var e := es[0];
      var middle := ReadEntry(st, e, indent);
      after := ReadEntries(middle, es[1..], indent);
      var first, rest := PrintEntry(e, indent), Print(es[1..], indent);
      assert e.noise + first + rest == e.noise + (first + rest);
      NoiseLines(st, e.noise, first + rest);
      ReadAppend(st, first, rest);
    }
  }

  // ----- no printed line breaks

  predicate NoBreaks(lines: seq<string>) { forall line :: line in lines ==> NoBreak(line) }

  lemma LeafHasNoBreak(leaf: Leaf)
    requires LeafOk(leaf)
    ensures NoBreak(LeafText(leaf))
  {
    if leaf.IntLeaf? {
      JoinedChars(leaf.groups);
    }
  }

  lemma {:induction false} PrintHasNoBreak(es: seq<Entry>, indent: nat)
    requires EntriesOk(es)
    ensures NoBreaks(Print(es, indent))
    decreases es, 1
  {
    if es != [] {
      assert forall line :: line in es[0].noise ==> NoBreak(line);
      PrintEntryHasNoBreak(es[0], indent);
      PrintHasNoBreak(es[1..], indent);
    }
  }

  lemma {:induction false} PrintEntryHasNoBreak(e: Entry, indent: nat)
    requires EntryOk(e)
    ensures NoBreaks(PrintEntry(e, indent))
    decreases e, 0
  {
    match e.node {
      case LeafNode(leaf, gap) =>
        LeafHasNoBreak(leaf);
      case MapNode(deeper, entries) =>
        PrintHasNoBreak(entries, indent + deeper);
    }
  }

  /** Parsing the printed text returns the map that was printed. */
  lemma ReaderInvertsPrinter(es: seq<Entry>, indent: nat, ending: seq<string>, ends: seq<string>)
    requires EntriesOk(es) && forall i :: 0 <= i < |ending| ==> Noise(ending[i])
    requires EndsOk(Print(es, indent) + ending, ends)
    ensures ReadText(JoinLines(Print(es, indent) + ending, ends)) == Success(Dict(Meaning(map[], es)))
  {
    hide Print, Meaning, EntriesOk, ReadLine, JoinLines, SplitLines, EndsOk;
    var lines := Print(es, indent) + ending;
    PrintHasNoBreak(es, indent);
    assert NoBreaks(lines);
    LinesRoundTrip(lines, ends);
    var after := ReadEntries(START, es, indent);
    ReadAppend(START, Print(es, indent), ending);
    assert ending + [] == ending;
    NoiseLines(after, ending, []);
    assert PopTo(START.stack, indent) == START.stack;
  }

  // ----- lines that are no entry

  lemma RefusedLine(st: State, pad: string, content: string, trail: string)
    requires StackOk(st) && StoreOk(st.dicts)
    requires Pad(pad) && Plain(content) && content != "" && Trimmed(content) && Noise(trail)
    requires ':' in content ==> content[0] == ':'
    ensures ReadLine(st, pad + content + trail) == Failure(pad + content + trail)
  {
    var line := pad + content;
    PlainIsQuiet(line, OUTSIDE);
    assert line[|line| - 1] == content[|content| - 1];
    StripTrail(line, trail);
    StripPads(pad, content);
    if ':' in content {
      assert Find(content, ':') == 0 && content[..0] == "";
    }
  }

  /** The first line with no colon, or with no key before it, is the error, whatever follows. */
  lemma RefusedText(es: seq<Entry>, indent: nat, pad: string, content: string, trail: string, more: seq<string>,
                    ends: seq<string>)
    requires EntriesOk(es) && NoBreaks(more)
    requires Pad(pad) && Plain(content) && content != "" && Trimmed(content) && Noise(trail)
    requires ':' in content ==> content[0] == ':'
    requires EndsOk(Print(es, indent) + ([pad + content + trail] + more), ends)
    ensures ReadText(JoinLines(Print(es, indent) + ([pad + content + trail] + more), ends))
         == Failure(pad + content + trail)
  {
    hide Print, Meaning, EntriesOk, ReadLine, JoinLines, SplitLines, EndsOk, Trimmed;
    var bad := pad + content + trail;
    var lines := Print(es, indent) + ([bad] + more);
    PrintHasNoBreak(es, indent);
    assert NoBreak(bad);
    assert NoBreaks(lines);
    LinesRoundTrip(lines, ends);
    var after := ReadEntries(START, es, indent);
    ReadAppend(START, Print(es, indent), [bad] + more);
    RefusedLine(after, pad, content, trail);
    assert ([bad] + more)[0] == bad;
  }

  // ----- what the printed map is

  lemma {:induction false} MeaningSnoc(into: map<string, Value>, es: seq<Entry>, e: Entry)
    ensures Meaning(into, es + [e]) == Meaning(into, es)[e.key := NodeValue(e.node)]
    decreases |es|
  {
    if es == [] {
      assert (es + [e])[1..] == [];
    } else {
      assert (es + [e])[0] == es[0] && (es + [e])[1..] == es[1..] + [e];
      MeaningSnoc(into[es[0].key := NodeValue(es[0].node)], es[1..], e);
    }
  }

  lemma {:induction false} EntriesSnoc(es: seq<Entry>, e: Entry)
    requires EntriesOk(es) && EntryOk(e)
    ensures EntriesOk(es + [e])
    decreases |es|
  {
    if es == [] {
      assert (es + [e])[1..] == [];
      assert EntriesOk([]);
    } else {
      assert (es + [e])[0] == es[0] && (es + [e])[1..] == es[1..] + [e];
      EntriesSnoc(es[1..], e);
    }
  }

  /** Nested maps with plain keys and boolean, integer or quotable string leaves. */
  ghost predicate Printable(v: Value) {
    match v
    case Bool(_) => true
    case Int(_) => true
    case Str(s) => ('\'' !in s || DoubleOk(s)) && NoBreak(s)
    case Dict(entries) => forall k :: k in entries ==> PlainKey(k) && Printable(entries[k])
  }

  lemma DigitsLeaf(n: nat)
    ensures GroupsOk([Digits(n)]) && Number([Digits(n)]) == n
  {
    DigitsRoundTrip(n);
    assert [Digits(n)][1..] == [] && Flat([]) == "";
    assert Flat([Digits(n)]) == Digits(n) + "" == Digits(n);
  }

  /** Every printable map is the meaning of some printing. */
  lemma {:induction false} EveryMapIsPrinted(v: Value, keys: set<string>) returns (es: seq<Entry>)
    requires v.Dict? && Printable(v) && keys <= v.entries.Keys
    ensures EntriesOk(es)
    ensures Meaning(map[], es) == map k | k in keys :: v.entries[k]
    decreases v, |keys|
  {
    if keys == {} {
      es := [];
    } else {
      var k :| k in keys;
      var rest := EveryMapIsPrinted(v, keys - {k});
      var node := NodeFor(v, k);
      var e := Entry([], "", k, "", node, "");
      es := rest + [e];
      assert IsNoisePrefix("", 0);
      EntriesSnoc(rest, e);
      MeaningSnoc(map[], rest, e);
    }
  }

  lemma {:induction false} NodeFor(v: Value, k: string) returns (node: Node)
    requires v.Dict? && Printable(v) && k in v.entries
    ensures NodeValue(node) == v.entries[k]
    ensures match node
            case LeafNode(leaf, gap) => LeafOk(leaf) && gap == " "
            case MapNode(deeper, entries) => deeper > 0 && EntriesOk(entries)
    decreases v, 0
  {
    match v.entries[k] {
      case Bool(b) => node := LeafNode(BoolLeaf(b, if b then "true" else "false"), " ");
      case Int(i) =>
        DigitsLeaf(if i < 0 then -i else i);
        node := LeafNode(IntLeaf(if i < 0 then Minus else Unsigned, [Digits(if i < 0 then -i else i)]), " ");
      case Str(s) => node := LeafNode(if '\'' in s then DoubleLeaf(s) else SingleLeaf(s), " ");
      case Dict(inner) =>
        var es := EveryMapIsPrinted(v.entries[k], inner.Keys);
        node := MapNode(2, es);
        assert (map c | c in inner.Keys :: inner[c]) == inner;
    }
  }
}
