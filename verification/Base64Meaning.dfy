/**
  What base64 text is, spelled out over the alphabet: which bytes four
  characters stand for, which characters three bytes become, and where the
  encoder breaks lines.
 */
module Base64Meaning {
  import opened Octets
  import opened Base64

  // ---------------------------------------------------------------- decoding

  function Char(d: Digit): Byte
  {
    SymbolMeans(d);
    ALPHABET[d]
  }

  lemma SymbolChar(d: Digit)
    ensures Symbol(d) == Char(d) && Code(Char(d)) == d
  {
    SymbolMeans(d);
  }

  function Quad(p: Digit, q: Digit, r: Digit, w: Digit): (t: Bytes)
    ensures |t| == 4
  {
    [Char(p), Char(q), Char(r), Char(w)]
  }

  /** What stands before a whole group does not matter to it. */
  lemma {:induction false} FedOnward(st: Repacker, x: seq<Digit>)
    requires st.place < 4
    ensures Fed(st, x).place == Fed(Repacker([], st.place, st.part), x).place
    ensures Fed(st, x).out == st.out + Fed(Repacker([], st.place, st.part), x).out
    decreases |x|
  {
    if x == [] {
      assert st.out + [] == st.out;
    } else {
      var y, z := Feed(st, x[0]), Feed(Repacker([], st.place, st.part), x[0]);
      assert y.out == st.out + z.out && y.part == z.part && y.place == z.place;
      FedOnward(y, x[1..]);
      FedOnward(z, x[1..]);
      var e := Fed(Repacker([], y.place, y.part), x[1..]).out;
      assert st.out + z.out + e == st.out + (z.out + e);
    }
  }

  lemma PartForgotten(a: Byte, b: Byte, x: seq<Digit>)
    ensures Fed(Repacker([], 0, a), x).out == Fed(Repacker([], 0, b), x).out
  {
  }

  lemma DigitOf(d: Digit, rest: Bytes)
    ensures Digits([Char(d)] + rest) == [d] + Digits(rest)
  {
    hide Char;
    var t := [Char(d)] + rest;
    SymbolChar(d);
    assert t[0] == Char(d) && t[1..] == rest;
  }

  lemma QuadDigits(p: Digit, q: Digit, r: Digit, w: Digit, rest: Bytes)
    ensures Digits(Quad(p, q, r, w) + rest) == [p, q, r, w] + Digits(rest)
  {
    hide Char, Digits;
    assert Quad(p, q, r, w) + rest == [Char(p)] + ([Char(q)] + ([Char(r)] + ([Char(w)] + rest)));
    DigitOf(w, rest);
    DigitOf(r, [Char(w)] + rest);
    DigitOf(q, [Char(r)] + ([Char(w)] + rest));
    DigitOf(p, [Char(q)] + ([Char(r)] + ([Char(w)] + rest)));
  }

  lemma FedQuad(p: Digit, q: Digit, r: Digit, w: Digit)
    ensures var st := Fed(START, [p, q, r, w]);
            st.place == 0 && st.out == [p * 4 + q / 16, q % 16 * 16 + r / 4, r % 4 * 64 + w]
  {
    hide Fed, Feed;
    assert [p, q, r, w] == [p, q] + [r] + [w];
    FedConcat(START, [p, q] + [r], [w]);
    FedThree(p, q, r);
    FedOne(Fed(START, [p, q] + [r]), w);
    FeedFourth([p * 4 + q / 16, q % 16 * 16 + r / 4], r, w);
  }

  lemma FedThree(p: Digit, q: Digit, r: Digit)
    ensures Fed(START, [p, q] + [r]) == Repacker([p * 4 + q / 16, q % 16 * 16 + r / 4], 3, r % 4 * 64)
  {
    hide Fed, Feed;
    FedConcat(START, [p, q], [r]);
    FedTwo(START, p, q);
    Bits(p, q);
    FedOne(Fed(START, [p, q]), r);
    FeedThird(p * 4 + q / 16, q, r);
    assert [] + [p * 4 + q / 16] == [p * 4 + q / 16];
  }

  lemma Bits(p: Digit, q: Digit)
    ensures var x: int, y: int := p, q; (x * 4 + y / 16) % 256 == x * 4 + y / 16
  {
  }

  lemma FeedThird(b: Byte, q: Digit, r: Digit)
    ensures Feed(Repacker([b], 2, q % 16 * 16), r) == Repacker([b, q % 16 * 16 + r / 4], 3, r % 4 * 64)
  {
    assert [b] + [q % 16 * 16 + r / 4] == [b, q % 16 * 16 + r / 4];
  }

  lemma FeedFourth(out: Bytes, r: Digit, w: Digit)
    ensures var st := Feed(Repacker(out, 3, r % 4 * 64), w); st.place == 0 && st.out == out + [r % 4 * 64 + w]
  {
  }

  /** Four characters of the alphabet are three bytes, six bits each from the left. */
  lemma ReadsQuad(p: Digit, q: Digit, r: Digit, w: Digit, rest: Bytes)
    ensures Decoded(Quad(p, q, r, w) + rest) == [p * 4 + q / 16, q % 16 * 16 + r / 4, r % 4 * 64 + w] + Decoded(rest)
  {
    hide Digits, Fed, Quad;
    QuadDigits(p, q, r, w, rest);
    FedQuad(p, q, r, w);
    FedConcat(START, [p, q, r, w], Digits(rest));
    var st := Fed(START, [p, q, r, w]);
    FedOnward(st, Digits(rest));
    PartForgotten(st.part, START.part, Digits(rest));
  }

  /** The text is over, or goes on with the padding or a NUL. */
  predicate Over(rest: Bytes) { rest == [] || rest[0] == EQUALS || rest[0] == NUL }

  lemma OverDigits(rest: Bytes)
    requires Over(rest)
    ensures Digits(rest) == []
  {
    if rest != [] { TableMeans(rest[0]); }
  }

  lemma LastDigits(p: Digit, q: Digit, r: Digit, rest: Bytes)
    requires Over(rest)
    ensures Digits([Char(p)] + rest) == [p]
    ensures Digits([Char(p), Char(q)] + rest) == [p, q]
    ensures Digits([Char(p), Char(q), Char(r)] + rest) == [p, q] + [r]
  {
    hide Char, Digits;
    var a, b, c := [Char(p)], [Char(q)], [Char(r)];
    OverDigits(rest);
    DigitOf(p, rest);
    DigitOf(q, rest);
    DigitOf(r, rest);
    DigitOf(p, b + rest);
    DigitOf(q, c + rest);
    DigitOf(p, b + (c + rest));
    assert [Char(p), Char(q)] + rest == a + (b + rest);
    assert [Char(p), Char(q), Char(r)] + rest == a + (b + (c + rest));
  }

  /** Three characters at the end are two bytes, two are one, and one is none. */
  lemma ReadsLast(p: Digit, q: Digit, r: Digit, rest: Bytes)
    requires Over(rest)
    ensures Decoded([Char(p), Char(q), Char(r)] + rest) == [p * 4 + q / 16, q % 16 * 16 + r / 4]
    ensures Decoded([Char(p), Char(q)] + rest) == [p * 4 + q / 16]
    ensures Decoded([Char(p)] + rest) == [] && Decoded(rest) == []
  {
    hide Char, Digits, Fed, Feed;
    OverDigits(rest);
    LastDigits(p, q, r, rest);
    FedNone();
    FedFirst(p);
    FedTwo(START, p, q);
    Bits(p, q);
    FedThree(p, q, r);
    assert [] + [p * 4 + q / 16] == [p * 4 + q / 16];
  }

  lemma FedFirst(p: Digit)
    ensures Fed(START, [p]).out == []
  {
    FedOne(START, p);
  }

  lemma FedNone()
    ensures Fed(START, []) == START
  {
  }

  // ---------------------------------------------------------------- encoding

  /** Everything on one line. */
  function Plain(s: Bytes): Bytes { Encoded(s, 0) }

  function Threesome(x: Byte, y: Byte, z: Byte): Bytes { Quad(x / 4, x % 4 * 16 + y / 16, y % 16 * 4 + z / 64, z % 64) }

  lemma GroupText(x: Byte, y: Byte, z: Byte)
    ensures Symbols(Group(x, y, z)) == Threesome(x, y, z)
    ensures Symbols(Group(x, y, z)[..2]) == Threesome(x, y, z)[..2] && Symbols(Group(x, y, z)[..3]) == Threesome(x, y, z)[..3]
  {
    hide Symbols, Symbol, Char;
    var g := Group(x, y, z);
    SymbolsOfGroup(g);
    SymbolChar(g[0]);
    SymbolChar(g[1]);
    SymbolChar(g[2]);
    SymbolChar(g[3]);
  }

  /** Without breaks what is written first does not matter, nor does the part read. */
  lemma {:induction false} PlainFrom(s: Bytes, n: int, i: nat, out: Bytes, c: nat)
    requires i <= |s| && n <= 0
    ensures EncodeFrom(s, n, i, out, c) == out + Plain(s[i..])
    decreases |s| - i
  {
    hide Symbols, Group;
    var t := s[i..];
    if i + 3 <= |s| {
      var g := Symbols(Group(s[i], s[i + 1], s[i + 2]));
      PlainFrom(s, n, i + 3, out + g, c + 4);
      PlainFrom(t, 0, 3, [] + g, 4);
      assert t[3..] == s[i + 3..] && [] + g == g;
      assert out + g + Plain(s[i + 3..]) == out + (g + Plain(s[i + 3..]));
      assert Plain(t) == EncodeFrom(t, 0, 3, [] + g, 4);
    } else {
      assert Tail(s, i) == Tail(t, 0);
      assert out + Tail(s, i) + [] == out + Tail(s, i) && [] + Tail(t, 0) + [] == Tail(t, 0);
    }
  }

  lemma PlainGroup(x: Byte, y: Byte, z: Byte, rest: Bytes)
    ensures Plain([x, y, z] + rest) == Threesome(x, y, z) + Plain(rest)
  {
    hide Symbols, Group, Threesome;
    var s, g := [x, y, z] + rest, Threesome(x, y, z);
    GroupText(x, y, z);
    PlainFrom(s, 0, 3, [] + g, 4);
    assert s[3..] == rest && [] + g == g;
    assert Plain(s) == EncodeFrom(s, 0, 3, [] + g, 4);
  }

  lemma PlainLast(x: Byte, y: Byte)
    ensures Plain([x, y]) == [Char(x / 4), Char(x % 4 * 16 + y / 16), Char(y % 16 * 4), EQUALS]
    ensures Plain([x]) == [Char(x / 4), Char(x % 4 * 16), EQUALS, EQUALS]
    ensures Plain([]) == []
  {
    hide Symbols, Group, Char, Plain;
    GroupText(x, y, 0);
    GroupText(x, 0, 0);
    LastPlain([x, y]);
    LastPlain([x]);
    LastPlain([]);
    assert Threesome(x, y, 0)[..3] == [Char(x / 4), Char(x % 4 * 16 + y / 16), Char(y % 16 * 4)];
    assert Threesome(x, 0, 0)[..2] == [Char(x / 4), Char(x % 4 * 16)];
  }

  /** Three bytes become four characters; one or two bytes at the end are padded. */
  lemma PlainGroups(x: Byte, y: Byte, z: Byte, rest: Bytes)
    ensures Plain([x, y, z] + rest) == Threesome(x, y, z) + Plain(rest)
    ensures Plain([x, y]) == [Char(x / 4), Char(x % 4 * 16 + y / 16), Char(y % 16 * 4), EQUALS]
    ensures Plain([x]) == [Char(x / 4), Char(x % 4 * 16), EQUALS, EQUALS]
    ensures Plain([]) == []
  {
    hide Plain, Threesome, Char;
    PlainGroup(x, y, z, rest);
    PlainLast(x, y);
  }

  lemma LastPlain(s: Bytes)
    requires |s| < 3
    ensures Plain(s) == Tail(s, 0)
  {
    assert [] + Tail(s, 0) + [] == Tail(s, 0);
  }

  // ------------------------------------------------------------------- lines

  /** Lines of `w` characters; a last line that is only the padded group has no line break after it. */
  function Chunked(t: Bytes, w: nat, padded: bool): Bytes
    requires w > 0
    decreases |t|
  {
    if t == [] then []
    else if |t| <= w then t + (if padded && |t| == 4 then [] else CRLF)
    else t[..w] + CRLF + Chunked(t[w..], w, padded)
  }

  lemma {:induction false} ChunkedFrom(s: Bytes, n: nat, i: nat, done: Bytes, cur: Bytes)
    requires i <= |s| && n > 0 && |cur| < n && |cur| % 4 == 0
    ensures EncodeFrom(s, n, i, done + cur, |cur|) == done + Chunked(cur + Plain(s[i..]), RoundUp(n), (|s| - i) % 3 != 0)
    decreases |s| - i
  {
    hide Symbols, Group, Chunked, Threesome, RoundUp, EncodeFrom, Plain;
    var w, padded := RoundUp(n), (|s| - i) % 3 != 0;
    if i + 3 <= |s| {
      var line, rest := EncodeGroup(s, n, i, done, cur);
      assert (|s| - (i + 3)) % 3 == (|s| - i) % 3;
      if Full(n, |cur| + 4) {
        var full := done + line + CRLF;
        ChunkedFrom(s, n, i + 3, full, []);
        assert full + [] == full && [] + rest == rest;
        PlainSome(s[i + 3..]);
        ChunkedLine(line, rest, w, padded);
        assert full + Chunked(rest, w, padded) == done + (line + CRLF + Chunked(rest, w, padded));
      } else {
        ChunkedFrom(s, n, i + 3, done, line);
      }
    } else {
      ChunkedLast(s, n, i, done, cur);
    }
  }

  /** One group more on the line. */
  lemma EncodeGroup(s: Bytes, n: nat, i: nat, done: Bytes, cur: Bytes) returns (line: Bytes, rest: Bytes)
    requires i + 3 <= |s| && n > 0
    ensures |line| == |cur| + 4 && rest == Plain(s[i + 3..]) && cur + Plain(s[i..]) == line + rest
    ensures EncodeFrom(s, n, i, done + cur, |cur|) ==
            if Full(n, |line|) then EncodeFrom(s, n, i + 3, done + line + CRLF, 0) else EncodeFrom(s, n, i + 3, done + line, |line|)
  {
    hide Symbols, Group, Threesome, Plain;
    var g := Threesome(s[i], s[i + 1], s[i + 2]);
    GroupText(s[i], s[i + 1], s[i + 2]);
    GroupLength(s[i], s[i + 1], s[i + 2]);
    line, rest := cur + g, Plain(s[i + 3..]);
    assert s[i..] == [s[i], s[i + 1], s[i + 2]] + s[i + 3..];
    PlainGroup(s[i], s[i + 1], s[i + 2], s[i + 3..]);
    assert cur + (g + rest) == line + rest && done + cur + g == done + line;
  }

  lemma GroupLength(x: Byte, y: Byte, z: Byte)
    ensures |Threesome(x, y, z)| == 4
  {
  }

  lemma PlainSome(s: Bytes)
    ensures |s| % 3 != 0 ==> Plain(s) != []
  {
    hide Threesome, Plain, Char;
    if |s| >= 3 {
      assert s == [s[0], s[1], s[2]] + s[3..];
      PlainGroup(s[0], s[1], s[2], s[3..]);
      GroupLength(s[0], s[1], s[2]);
    } else if |s| == 2 {
      assert s == [s[0], s[1]];
      PlainLast(s[0], s[1]);
    } else if |s| == 1 {
      assert s == [s[0]];
      PlainLast(s[0], 0);
    }
  }

  /** A full line. */
  lemma ChunkedLine(line: Bytes, rest: Bytes, w: nat, padded: bool)
    requires |line| == w > 0 && (padded ==> rest != [])
    ensures Chunked(line + rest, w, padded) == line + CRLF + Chunked(rest, w, padded)
  {
    if rest == [] {
      assert line + rest == line && line + CRLF + [] == line + CRLF;
    } else {
      assert (line + rest)[..w] == line && (line + rest)[w..] == rest;
    }
  }

  lemma EncodeEnds(s: Bytes, n: nat, i: nat, out: Bytes, c: nat)
    requires |s| - 3 < i <= |s| && n > 0
    ensures EncodeFrom(s, n, i, out, c) == out + Tail(s, i) + (if c > 0 then CRLF else [])
  {
    hide Tail;
  }

  lemma ChunkedShort(t: Bytes, w: nat, padded: bool)
    requires 0 < w && |t| <= w
    ensures Chunked(t, w, padded) == if t == [] then [] else t + (if padded && |t| == 4 then [] else CRLF)
  {
  }

  lemma TailPlain(s: Bytes, i: nat)
    requires |s| - 3 < i <= |s|
    ensures Plain(s[i..]) == Tail(s, i)
  {
    hide Plain;
    var t := s[i..];
    LastPlain(t);
    assert Tail(t, 0) == Tail(s, i);
  }

  lemma ChunkedLast(s: Bytes, n: nat, i: nat, done: Bytes, cur: Bytes)
    requires |s| - 3 < i <= |s| && n > 0 && |cur| < n && |cur| % 4 == 0
    ensures EncodeFrom(s, n, i, done + cur, |cur|) == done + Chunked(cur + Plain(s[i..]), RoundUp(n), (|s| - i) % 3 != 0)
  {
    hide Plain, Tail, EncodeFrom, Chunked;
    var tail := Tail(s, i);
    TailPlain(s, i);
    TailLength(s, i);
    EncodeEnds(s, n, i, done + cur, |cur|);
    var end: Bytes := if |cur| > 0 then CRLF else [];
    assert done + cur + tail + end == done + (cur + tail + end);
    ChunkedShort(cur + tail, RoundUp(n), (|s| - i) % 3 != 0);
  }

  lemma TailLength(s: Bytes, i: nat)
    requires |s| - 3 < i <= |s|
    ensures |Tail(s, i)| == if i == |s| then 0 else 4
  {
  }

  /** With a line length, the text is that of one line, cut into lines of that length rounded up to whole groups. */
  lemma EncodedLines(s: Bytes, n: int)
    ensures n <= 0 ==> Encoded(s, n) == Plain(s)
    ensures n > 0 ==> Encoded(s, n) == Chunked(Plain(s), RoundUp(n), |s| % 3 != 0)
  {
    hide Chunked, RoundUp, EncodeFrom;
    assert s[0..] == s && [] + Plain(s) == Plain(s);
    if n <= 0 {
      PlainFrom(s, n, 0, [], 0);
    } else {
      var none: Bytes := [];
      assert none + none == none;
      ChunkedFrom(s, n, 0, none, none);
      var c := Chunked(Plain(s), RoundUp(n), |s| % 3 != 0);
      assert [] + c == c;
    }
  }
}
