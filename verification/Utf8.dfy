/** UTF-8, decoded with replacement (section 3 of RFC 3629; U+FFFD for each maximal ill-formed part). */
module Utf8 {

  newtype Byte = b: int | 0 <= b < 256

  const REPLACEMENT: char := 0xFFFD as char

  // ----- encoding

  /** A byte that continues a sequence, with six bits of n. */
  function Tail(n: nat): (b: Byte)
    ensures 0x80 <= b < 0xC0 && b as int - 0x80 == n % 64
  {
    (0x80 + n % 64) as Byte
  }

  function EncodeChar(c: char): (r: seq<Byte>)
    ensures 1 <= |r| <= 4
  {
    var n := c as int;
    if n < 0x80 then [n as Byte]
    else if n < 0x800 then [(0xC0 + n / 64) as Byte, Tail(n)]
    else if n < 0x10000 then [(0xE0 + n / 64 / 64) as Byte, Tail(n / 64), Tail(n)]
    else [(0xF0 + n / 64 / 64 / 64) as Byte, Tail(n / 64 / 64), Tail(n / 64), Tail(n)]
  }

  /** `str.encode("utf-8")` */
  function Encode(s: string): seq<Byte> {
    if s == "" then [] else EncodeChar(s[0]) + Encode(s[1..])
  }

  // ----- decoding

  /** The length of the sequence that a first byte announces; 0 when no sequence starts with it. */
  function Announced(first: Byte): nat {
    if first < 0x80 then 1
    else if 0xC2 <= first < 0xE0 then 2
    else if 0xE0 <= first < 0xF0 then 3
    else if 0xF0 <= first < 0xF5 then 4
    else 0
  }

  /** May b be the k-th byte after that first one? Overlong forms, surrogates and numbers past 0x10FFFF may not. */
  predicate Follows(first: Byte, k: nat, b: Byte) {
    && 0x80 <= b < 0xC0
    && (k == 1 ==>
          && (first == 0xE0 ==> 0xA0 <= b) && (first == 0xED ==> b < 0xA0)
          && (first == 0xF0 ==> 0x90 <= b) && (first == 0xF4 ==> b < 0x90))
  }

  /** How many bytes at the front of s, k of which are known to, start one sequence. */
  function Started(s: seq<Byte>, k: nat): (n: nat)
    requires 1 <= k <= |s| && k <= Announced(s[0])
    requires forall i :: 1 <= i < k ==> Follows(s[0], i, s[i])
    ensures k <= n <= |s| && n <= Announced(s[0])
    ensures forall i :: 1 <= i < n ==> Follows(s[0], i, s[i])
    decreases |s| - k
  {
    if k < |s| && k < Announced(s[0]) && Follows(s[0], k, s[k]) then Started(s, k + 1) else k
  }

  predicate Whole(s: seq<Byte>) {
    s != [] && |s| == Announced(s[0]) && forall i :: 1 <= i < |s| ==> Follows(s[0], i, s[i])
  }

  /** Six more bits. */
  function Joined(n: int, b: Byte): int { n * 64 + (b as int - 0x80) }

  /** The character of a whole sequence. */
  function DecodeChar(s: seq<Byte>): char
    requires Whole(s)
  {
    if |s| == 1 then s[0] as char
    else
      var two := Joined(s[0] as int - (if |s| == 2 then 0xC0 else if |s| == 3 then 0xE0 else 0xF0), s[1]);
      assert Follows(s[0], 1, s[1]);
      if |s| == 2 then two as char
      else if |s| == 3 then Joined(two, s[2]) as char
      else Joined(Joined(two, s[2]), s[3]) as char
  }

  /** `bytes.decode("utf-8", errors="replace")` */
  function Decode(s: seq<Byte>): string {
    if s == [] then ""
    else if Announced(s[0]) == 0 then [REPLACEMENT] + Decode(s[1..])
    else
      var n := Started(s, 1);
      if n == Announced(s[0]) then [DecodeChar(s[..n])] + Decode(s[n..])
      else [REPLACEMENT] + Decode(s[n..])
  }

  // ----- round trip

  lemma CharRoundTrip(c: char)
    ensures Whole(EncodeChar(c)) && DecodeChar(EncodeChar(c)) == c
  {
    var r := EncodeChar(c);
    assert |r| == Announced(r[0]);
    assert |r| > 1 ==> Follows(r[0], 1, r[1]);
  }

  lemma {:induction false} StartedAll(s: seq<Byte>, k: nat)
    requires 1 <= k <= |s| && k <= Announced(s[0]) <= |s|
    requires forall i :: 1 <= i < Announced(s[0]) ==> Follows(s[0], i, s[i])
    ensures Started(s, k) == Announced(s[0])
    decreases |s| - k
  {
    if k < Announced(s[0]) {
      StartedAll(s, k + 1);
    }
  }

  lemma DecodeFirst(r: seq<Byte>, rest: seq<Byte>)
    requires Whole(r)
    ensures Decode(r + rest) == [DecodeChar(r)] + Decode(rest)
  {
    hide DecodeChar;
    var s := r + rest;
    assert s[0] == r[0] && s[..|r|] == r && s[|r|..] == rest;
    StartedAll(s, 1);
  }

  /** A written text reads back, whatever bytes follow it. */
  lemma {:induction false} TextRoundTrip(s: string, rest: seq<Byte>)
    ensures Decode(Encode(s) + rest) == s + Decode(rest)
  {
    if s == "" {
      assert Encode(s) + rest == rest;
    } else {
      var r := EncodeChar(s[0]);
      CharRoundTrip(s[0]);
      hide Decode, DecodeChar, EncodeChar, Whole;
      assert Encode(s) + rest == r + (Encode(s[1..]) + rest);
      DecodeFirst(r, Encode(s[1..]) + rest);
      TextRoundTrip(s[1..], rest);
    }
  }

  /** `decode(encode(s)) == s` */
  lemma EncodeRoundTrip(s: string)
    ensures Decode(Encode(s)) == s
  {
    TextRoundTrip(s, []);
    assert Encode(s) + [] == Encode(s);
  }

  lemma {:induction false} EncodeConcat(s: string, t: string)
    ensures Encode(s + t) == Encode(s) + Encode(t)
  {
    if s == "" {
      assert s + t == t;
    } else {
      assert (s + t)[1..] == s[1..] + t;
      EncodeConcat(s[1..], t);
    }
  }

  /** A byte below 128 stands for its own character, and for nothing else. */
  lemma {:induction false} EncodedAscii(s: string, b: Byte)
    requires b < 0x80
    ensures b in Encode(s) <==> (b as char) in s
  {
    if s != "" {
      EncodedAscii(s[1..], b);
      EncodedCharAscii(s[0], b);
    }
  }

  lemma EncodedCharAscii(c: char, b: Byte)
    requires b < 0x80
    ensures b in EncodeChar(c) <==> c == b as char
  {
  }

  // ----- ill-formed bytes

  /** Decoding gives the bytes' text when they are some text's bytes, and shows U+FFFD otherwise. */
  lemma {:induction false} NoReplacement(s: seq<Byte>)
    requires REPLACEMENT !in Decode(s)
    ensures Encode(Decode(s)) == s
  {
    if s != [] {
      var n := Started(s, 1);
      assert s == s[..n] + s[n..];
      NoReplacement(s[n..]);
      CharBack(s[..n]);
    }
  }

  lemma JoinedParts(n: nat, b: Byte)
    requires 0x80 <= b < 0xC0
    ensures Joined(n, b) >= 0 && Joined(n, b) / 64 == n && Tail(Joined(n, b)) == b
  {
  }

  lemma CharBack(r: seq<Byte>)
    requires Whole(r)
    ensures EncodeChar(DecodeChar(r)) == r
  {
    if |r| > 1 {
      var n := r[0] as int - (if |r| == 2 then 0xC0 else if |r| == 3 then 0xE0 else 0xF0);
      assert Follows(r[0], 1, r[1]);
      JoinedParts(n, r[1]);
      if |r| > 2 {
        assert Follows(r[0], 2, r[2]);
        JoinedParts(Joined(n, r[1]), r[2]);
      }
      if |r| > 3 {
        assert Follows(r[0], 3, r[3]);
        JoinedParts(Joined(Joined(n, r[1]), r[2]), r[3]);
      }
      hide Tail;
    }
  }
}
