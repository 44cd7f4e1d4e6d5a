/**
  The string operations of the source's language that its parsers use, on code points:
  which characters count as spaces and which end a line, stripping at either end, the first
  occurrence of a character, the split of a text into lines and the lines joined again, and
  lower case of ASCII letters. Each comes with the facts the parsers' proofs need of it:
  what stripping removes and keeps, and that lines joined with newlines are split back into
  the same lines.
 */
module Text {
  /** `str.isspace` */
  predicate IsSpace(c: char) {
    var n := c as int;
    || 9 <= n <= 13 || 28 <= n <= 32 || n == 0x85 || n == 0xA0 || n == 0x1680 || 0x2000 <= n <= 0x200A
    || n == 0x2028 || n == 0x2029 || n == 0x202F || n == 0x205F || n == 0x3000
  }

  /** Line boundaries of `str.splitlines`. */
  predicate IsBreak(c: char) {
    var n := c as int;
    10 <= n <= 13 || 28 <= n <= 30 || n == 0x85 || n == 0x2028 || n == 0x2029
  }

  predicate AllSpace(s: string) { forall i :: 0 <= i < |s| ==> IsSpace(s[i]) }

  predicate NoBreak(s: string) { forall i :: 0 <= i < |s| ==> !IsBreak(s[i]) }

  /** Empty, or with neither end a space. */
  predicate Trimmed(s: string) { s != "" ==> !IsSpace(s[0]) && !IsSpace(s[|s| - 1]) }

  function LStrip(s: string): string {
    if s != "" && IsSpace(s[0]) then LStrip(s[1..]) else s
  }

  function RStrip(s: string): string {
    if s != "" && IsSpace(s[|s| - 1]) then RStrip(s[..|s| - 1]) else s
  }

  function Strip(s: string): string { LStrip(RStrip(s)) }

  lemma {:induction false} RStripPads(s: string, pad: string)
    requires AllSpace(pad) && (s != "" ==> !IsSpace(s[|s| - 1]))
    ensures RStrip(s + pad) == s
  {
    if pad == "" {
      assert s + pad == s;
    } else {
      var t := s + pad;
      assert t[..|t| - 1] == s + pad[..|pad| - 1];
      RStripPads(s, pad[..|pad| - 1]);
    }
  }

  lemma {:induction false} LStripPads(pad: string, s: string)
    requires AllSpace(pad) && (s != "" ==> !IsSpace(s[0]))
    ensures LStrip(pad + s) == s
  {
    if pad == "" {
      assert pad + s == s;
    } else {
      assert (pad + s)[1..] == pad[1..] + s;
      LStripPads(pad[1..], s);
    }
  }

  /** Stripping removes exactly the padding around a trimmed text. */
  lemma StripPads(pad: string, s: string)
    requires AllSpace(pad) && Trimmed(s)
    ensures Strip(pad + s) == s
  {
    if s == "" {
      assert pad + s == "" + pad;
      RStripPads("", pad);
    } else {
      assert (pad + s)[|pad + s| - 1] == s[|s| - 1];
      RStripPads(pad + s, "");
      assert pad + s + "" == pad + s;
      LStripPads(pad, s);
    }
  }

  /** What is left after dropping trailing spaces, as a prefix. */
  lemma {:induction false} RStripIsPrefix(s: string) returns (n: nat)
    ensures n <= |s| && RStrip(s) == s[..n] && AllSpace(s[n..])
    ensures n > 0 ==> !IsSpace(s[n - 1])
  {
    hide IsSpace;
    if s != "" && IsSpace(s[|s| - 1]) {
      var front := s[..|s| - 1];
      n := RStripIsPrefix(front);
      assert s[..n] == front[..n];
      assert s[n..] == front[n..] + [s[|s| - 1]];
    } else {
      n := |s|;
      assert s[..n] == s;
    }
  }

  /** A body that does not end in a space survives, with some part of what follows it. */
  lemma {:induction false} RStripKeepsBody(body: string, trail: string) returns (t: string)
    requires body != "" ==> !IsSpace(body[|body| - 1])
    ensures t <= trail && RStrip(body + trail) == body + t
  {
    var s := body + trail;
    if trail == "" {
      t := "";
      assert s == body && body + t == body;
    } else if IsSpace(trail[|trail| - 1]) {
      assert s[..|s| - 1] == body + trail[..|trail| - 1];
      t := RStripKeepsBody(body, trail[..|trail| - 1]);
    } else {
      t := trail;
    }
  }

  /** Index of the first occurrence of c, or the length. */
  function Find(s: string, c: char): (i: nat)
    ensures i <= |s| && (forall k :: 0 <= k < i ==> s[k] != c) && (i < |s| ==> s[i] == c)
  {
    if s == "" || s[0] == c then 0 else 1 + Find(s[1..], c)
  }

  lemma FindFirst(a: string, c: char, b: string)
    requires c !in a
    ensures Find(a + [c] + b, c) == |a|
  {
    var s := a + [c] + b;
    assert s[|a|] == c;
    assert forall i :: 0 <= i < |a| ==> s[i] == a[i] && a[i] in a;
  }

  // ----- lines

  function FirstBreak(s: string): (i: nat)
    ensures i <= |s| && (forall k :: 0 <= k < i ==> !IsBreak(s[k])) && (i < |s| ==> IsBreak(s[i]))
  {
    if s == "" || IsBreak(s[0]) then 0 else 1 + FirstBreak(s[1..])
  }

  /** `str.splitlines` */
  function SplitLines(s: string): seq<string>
    decreases |s|
  {
    if s == "" then []
    else
      var i := FirstBreak(s);
      if i == |s| then [s]
      else if s[i] == '\r' && i + 1 < |s| && s[i + 1] == '\n' then [s[..i]] + SplitLines(s[i + 2..])
      else [s[..i]] + SplitLines(s[i + 1..])
  }

  /**
    What closes a line before the given rest of a text: one of the line boundaries, CR LF among
    them; CR alone only where no LF follows.
  */
  predicate ClosesLine(end: string, rest: string) {
    end == "\r\n" || (|end| == 1 && IsBreak(end[0]) && (end == "\r" ==> !("\n" <= rest)))
  }

  /** Each line followed by its end. */
  function JoinLines(lines: seq<string>, ends: seq<string>): string
    requires |ends| == |lines|
  {
    if lines == [] then "" else lines[0] + ends[0] + JoinLines(lines[1..], ends[1..])
  }

  /** Every line is closed; the last one need not be, if it holds anything. */
  predicate EndsOk(lines: seq<string>, ends: seq<string>) {
    && |ends| == |lines|
    && (lines != [] ==>
          && (ClosesLine(ends[0], JoinLines(lines[1..], ends[1..]))
              || (|lines| == 1 && lines[0] != "" && ends[0] == ""))
          && EndsOk(lines[1..], ends[1..]))
  }

  lemma ClosedLine(line: string, end: string, rest: string)
    requires NoBreak(line) && ClosesLine(end, rest)
    ensures SplitLines(line + end + rest) == [line] + SplitLines(rest)
  {
    var s := line + end + rest;
    assert s[|line|] == end[0] && forall k :: 0 <= k < |line| ==> s[k] == line[k];
    assert FirstBreak(s) == |line| && s[..|line|] == line;
    if end == "\r\n" {
      assert s[|line| + 1] == '\n' && s[|line| + 2..] == rest;
    } else {
      assert s[|line| + 1..] == rest;
      assert rest != "" ==> s[|line| + 1] == rest[0];
    }
  }

  lemma {:induction false} LinesRoundTrip(lines: seq<string>, ends: seq<string>)
    requires (forall i :: 0 <= i < |lines| ==> NoBreak(lines[i])) && EndsOk(lines, ends)
    ensures SplitLines(JoinLines(lines, ends)) == lines
  {
    if lines != [] {
      var rest := JoinLines(lines[1..], ends[1..]);
      if ClosesLine(ends[0], rest) {
        ClosedLine(lines[0], ends[0], rest);
        LinesRoundTrip(lines[1..], ends[1..]);
      } else {
        assert lines[0] + "" + "" == lines[0] && lines == [lines[0]];
      }
    }
  }

  function Lower(c: char): char {
    if 'A' <= c <= 'Z' then (c as int + 32) as char else c
  }

  function LowerText(s: string): string {
    if s == "" then "" else [Lower(s[0])] + LowerText(s[1..])
  }

  lemma {:induction false} LowerAt(s: string)
    ensures |LowerText(s)| == |s| && forall i :: 0 <= i < |s| ==> LowerText(s)[i] == Lower(s[i])
  {
    if s != "" {
      LowerAt(s[1..]);
    }
  }

  /** The lower-case word, letter by letter in either case. */
  predicate Spells(s: string, word: string) {
    |s| == |word| && forall i :: 0 <= i < |s| ==> s[i] == word[i] || s[i] as int + 32 == word[i] as int
  }

  lemma SpellsIsLower(s: string, word: string)
    requires forall i :: 0 <= i < |word| ==> 'a' <= word[i] <= 'z'
    ensures Spells(s, word) <==> LowerText(s) == word
  {
    LowerAt(s);
  }
}
