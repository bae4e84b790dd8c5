/**
  Base64: section 6.8 of RFC 2045.

  A text is first read as six-bit digits (`Digits`: everything outside the
  alphabet is ignored, the first `=` or NUL ends it) and the digits are then
  repacked into bytes (`Repacked`).
 */
module Base64 {
  import opened Octets
  import opened LineWidth

  type Digit = d: int | 0 <= d < 64

  /** The decoding table: a digit, 64 for the end of the text, more for a byte to ignore. */
  function Code(c: Byte): (v: nat)
  {
    if c > 122 then c
    else if IsUpper(c) then c - 65
    else if IsLower(c) then c - 71
    else if IsDigit(c) then c + 4
    else if c == 43 then 62
    else if c == 47 then 63
    else if c == EQUALS || c == NUL then 64
    else if c == 8 || c == LF || c == CR then 65
    else 99
  }

  predicate Ends(c: Byte) { Code(c) == 64 }

  predicate Ignored(c: Byte) { Code(c) > 64 }

  /** The encoding table. */
  function Symbol(d: Digit): (c: Byte)
    ensures Code(c) == d
  {
    if d < 26 then d + 65 else if d < 52 then d + 71 else if d < 62 then d - 4 else if d == 62 then 43 else 47
  }

  function Digits(s: Bytes): seq<Digit>
  {
    if s == [] || Ends(s[0]) then []
    else if Ignored(s[0]) then Digits(s[1..])
    else [Code(s[0])] + Digits(s[1..])
  }

  /** Bytes completed so far, the next digit's place in its group of four, and the byte under construction. */
  datatype Repacker = Repacker(out: Bytes, place: nat, part: Byte)

  /** One digit more.  The sums are 8-bit sums. */
  function Feed(st: Repacker, d: Digit): (r: Repacker)
    requires st.place < 4
    ensures r.place == (st.place + 1) % 4
  {
    var c: int := d;
    match st.place
    case 0 => Repacker(st.out, 1, c * 4)
    case 1 => Repacker(st.out + [(st.part + c / 16) % 256], 2, c % 16 * 16)
    case 2 => Repacker(st.out + [(st.part + c / 4) % 256], 3, c % 4 * 64)
    case _ => Repacker(st.out + [(st.part + c) % 256], 0, (st.part + c) % 256)
  }

  function Fed(st: Repacker, x: seq<Digit>): Repacker
    requires st.place < 4
    decreases |x|
  {
    if x == [] then st else Fed(Feed(st, x[0]), x[1..])
  }

  const START := Repacker([], 0, 0)

  /** The whole bytes among the bits of `x`. */
  function Repacked(x: seq<Digit>): Bytes { Fed(START, x).out }

  function Decoded(s: Bytes): Bytes { Repacked(Digits(s)) }

  lemma FeedLength(st: Repacker, d: Digit, n: nat)
    requires st.place < 4 && n > 0
    ensures var y := Feed(st, d);
            |y.out| + 3 * (y.place + n - 1) / 4 - 3 * y.place / 4 == |st.out| + 3 * (st.place + n) / 4 - 3 * st.place / 4
  {
  }

  lemma {:induction false} FedLength(st: Repacker, x: seq<Digit>)
    requires st.place < 4
    ensures |Fed(st, x).out| + 3 * st.place / 4 == |st.out| + 3 * (st.place + |x|) / 4
    decreases |x|
  {
    if x != [] {
      var y := Feed(st, x[0]);
      FedLength(y, x[1..]);
      FeedLength(st, x[0], |x|);
    }
  }

  /** With k digits the output has exactly floor(3k/4) bytes. */
  lemma DecodedLength(s: Bytes)
    ensures |Decoded(s)| == 3 * |Digits(s)| / 4
  {
    FedLength(START, Digits(s));
  }

  lemma DigitsStep(s: Bytes, p: nat, st: Repacker)
    requires p < |s| && st.place < 4
    ensures Code(s[p]) < 64 ==> Fed(st, Digits(s[p..])) == Fed(Feed(st, Code(s[p])), Digits(s[p + 1..]))
    ensures Ignored(s[p]) ==> Fed(st, Digits(s[p..])) == Fed(st, Digits(s[p + 1..]))
    ensures Ends(s[p]) ==> Fed(st, Digits(s[p..])) == st
  {
    assert s[p..][1..] == s[p + 1..];
    if Code(s[p]) < 64 {
      assert Digits(s[p..])[1..] == Digits(s[p + 1..]);
    }
  }

  method Decode(s: Bytes) returns (r: Bytes)
    ensures r == Decoded(s)
  {
    hide Code, Digits, Fed;
    r := [];
    var decoded: Byte := 0;
    var m: nat, p, done := 0, 0, false;
    ghost var goal := Fed(START, Digits(s));
    assert s[0..] == s;
    while p < |s| && !done
      invariant 0 <= p <= |s| && m < 4
      invariant goal == if done then Repacker(r, m, decoded) else Fed(Repacker(r, m, decoded), Digits(s[p..]))
    {
      var c: int := Code(s[p]);
      DigitsStep(s, p, Repacker(r, m, decoded));
      if c < 64 {
        if m == 0 {
          decoded := c * 4;
        } else if m == 1 {
          decoded := (decoded + c / 16) % 256;
          r := r + [decoded];
          decoded := c % 16 * 16;
        } else if m == 2 {
          decoded := (decoded + c / 4) % 256;
          r := r + [decoded];
          decoded := c % 4 * 64;
        } else {
          decoded := (decoded + c) % 256;
          r := r + [decoded];
        }
        m := (m + 1) % 4;
      } else if c == 64 {
        done := true;
      }
      p := p + 1;
    }
    if !done { DigitsEnd(s, Repacker(r, m, decoded)); }
  }

  lemma DigitsEnd(s: Bytes, st: Repacker)
    requires st.place < 4
    ensures Fed(st, Digits(s[|s|..])) == st
  {
  }

  // -------------------------------------------------------------- the alphabet

  const UPPER: Bytes := [65, 66, 67, 68, 69, 70, 71, 72, 73, 74, 75, 76, 77, 78, 79, 80, 81, 82, 83, 84, 85, 86, 87, 88, 89, 90]
  const LOWER: Bytes :=
    [97, 98, 99, 100, 101, 102, 103, 104, 105, 106, 107, 108, 109, 110, 111, 112, 113, 114, 115, 116, 117, 118, 119, 120, 121, 122]
  const NUMERALS: Bytes := [48, 49, 50, 51, 52, 53, 54, 55, 56, 57]
  const ALPHABET: Bytes := UPPER + LOWER + NUMERALS + [43, 47]

  lemma AlphabetSpelled()
    ensures IsText(UPPER, "ABCDEFGHIJKLMNOPQRSTUVWXYZ") && IsText(LOWER, "abcdefghijklmnopqrstuvwxyz")
    ensures IsText(NUMERALS, "0123456789") && IsText([43, 47], "+/")
  {
  }

  lemma SymbolMeans(d: Digit)
    ensures |ALPHABET| == 64 && Symbol(d) == ALPHABET[d]
  {
    assert |UPPER| == 26 && |LOWER| == 26 && |NUMERALS| == 10;
    if d < 26 {
      assert ALPHABET[d] == UPPER[d];
    } else if d < 52 {
      assert ALPHABET[d] == LOWER[d - 26];
    } else if d < 62 {
      assert ALPHABET[d] == NUMERALS[d - 52];
    } else {
      assert ALPHABET[d] == [43, 47][d - 62];
    }
  }

  /** The alphabet's characters are the digits, `=` and NUL end the text, and every other byte is ignored. */
  lemma TableMeans(c: Byte)
    ensures |ALPHABET| == 64 && forall d: Digit :: c == ALPHABET[d] <==> Code(c) == d
    ensures Ends(c) <==> c == EQUALS || c == NUL
    ensures Ignored(c) <==> c != EQUALS && c != NUL && c !in ALPHABET
  {
    hide Symbol;
    SymbolMeans(0);
    forall d: Digit ensures c == ALPHABET[d] <==> Code(c) == d {
      SymbolMeans(d);
      SymbolCode(c, d);
    }
    assert Code(c) < 64 ==> c in ALPHABET by { if Code(c) < 64 { assert c == ALPHABET[Code(c)]; } }
    if c in ALPHABET {
      var k :| 0 <= k < 64 && ALPHABET[k] == c;
      assert Code(c) == k;
    }
  }

  lemma SymbolCode(c: Byte, d: Digit)
    ensures c == Symbol(d) <==> Code(c) == d
  {
  }

  // ------------------------------------------------------- ignored characters

  predicate Open(s: Bytes) { forall k :: 0 <= k < |s| ==> !Ends(s[k]) }

  lemma {:induction false} DigitsConcat(a: Bytes, b: Bytes)
    requires Open(a)
    ensures Digits(a + b) == Digits(a) + Digits(b)
  {
    if a == [] {
      assert a + b == b;
    } else {
      assert (a + b)[0] == a[0] && (a + b)[1..] == a[1..] + b;
      DigitsConcat(a[1..], b);
      if !Ignored(a[0]) {
        assert [Code(a[0])] + (Digits(a[1..]) + Digits(b)) == [Code(a[0])] + Digits(a[1..]) + Digits(b);
      }
    }
  }

  lemma {:induction false} DigitsOfIgnored(w: Bytes)
    requires forall k :: 0 <= k < |w| ==> Ignored(w[k])
    ensures Digits(w) == []
  {
    if w != [] { DigitsOfIgnored(w[1..]); }
  }

  lemma {:induction false} DigitsAfterEnd(a: Bytes, b: Bytes)
    requires !Open(a)
    ensures Digits(a + b) == Digits(a)
  {
    assert (a + b)[0] == a[0] && (a + b)[1..] == a[1..] + b;
    if !Ends(a[0]) {
      assert !Open(a[1..]) by {
        var k :| 0 <= k < |a| && Ends(a[k]);
        assert a[1..][k - 1] == a[k];
      }
      DigitsAfterEnd(a[1..], b);
    }
  }

  /** Ignored bytes may be inserted anywhere, before or after the end mark. */
  lemma IgnoredAnywhere(a: Bytes, w: Bytes, b: Bytes)
    requires forall k :: 0 <= k < |w| ==> Ignored(w[k])
    ensures Decoded(a + w + b) == Decoded(a + b)
  {
    assert a + w + b == a + (w + b);
    if Open(a) {
      DigitsConcat(a, w + b);
      DigitsConcat(w, b);
      DigitsOfIgnored(w);
      assert [] + Digits(b) == Digits(b);
      DigitsConcat(a, b);
    } else {
      DigitsAfterEnd(a, w + b);
      DigitsAfterEnd(a, b);
    }
  }

  /** Nothing after the first end mark matters. */
  lemma NothingAfterEnd(a: Bytes, c: Byte, b: Bytes)
    requires Open(a) && Ends(c)
    ensures Decoded(a + [c] + b) == Decoded(a)
  {
    assert a + [c] + b == a + ([c] + b);
    DigitsConcat(a, [c] + b);
    assert Digits([c] + b) == [];
    assert Digits(a) + [] == Digits(a);
  }

  // ---------------------------------------------------------------- encoding

  /** The four digits of three bytes. */
  function Group(a: Byte, b: Byte, c: Byte): (x: seq<Digit>)
    ensures |x| == 4
  {
    [a / 4, a % 4 * 16 + b / 16, b % 16 * 4 + c / 64, c % 64]
  }

  function Symbols(x: seq<Digit>): (r: Bytes)
    ensures |r| == |x|
  {
    if x == [] then [] else [Symbol(x[0])] + Symbols(x[1..])
  }

  /** One or two leftover bytes: two or three digits, padded to four characters. */
  function Tail(s: Bytes, i: nat): Bytes
    requires |s| - 3 < i <= |s|
  {
    if i == |s| then []
    else if i + 1 == |s| then Symbols(Group(s[i], 0, 0)[..2]) + [EQUALS, EQUALS]
    else Symbols(Group(s[i], s[i + 1], 0)[..3]) + [EQUALS]
  }

  /** A line of `c` characters is full. */
  predicate Full(n: int, c: nat) { n > 0 && c >= n }

  /** `out` is written, its last line is `c` characters long, and the input is read up to `i`. */
  function EncodeFrom(s: Bytes, n: int, i: nat, out: Bytes, c: nat): Bytes
    requires i <= |s|
    decreases |s| - i
  {
    if i + 3 <= |s| then
      var out' := out + Symbols(Group(s[i], s[i + 1], s[i + 2]));
      if Full(n, c + 4) then EncodeFrom(s, n, i + 3, out' + CRLF, 0)
      else EncodeFrom(s, n, i + 3, out', c + 4)
    else out + Tail(s, i) + (if n > 0 && c > 0 then CRLF else [])
  }

  function Encoded(s: Bytes, n: int): Bytes { EncodeFrom(s, n, 0, [], 0) }

  // -------------------------------------------------------------- round trip

  lemma {:induction false} SymbolsOpen(x: seq<Digit>)
    ensures Open(Symbols(x)) && Digits(Symbols(x)) == x && NoBreaks(Symbols(x))
  {
    if x != [] {
      SymbolsOpen(x[1..]);
      assert Symbols(x)[1..] == Symbols(x[1..]);
    }
  }

  lemma {:induction false} FedConcat(st: Repacker, x: seq<Digit>, y: seq<Digit>)
    requires st.place < 4
    ensures Fed(st, x).place < 4
    ensures Fed(st, x + y) == Fed(Fed(st, x), y)
    decreases |x|
  {
    if x == [] {
      assert x + y == y;
    } else {
      assert (x + y)[0] == x[0] && (x + y)[1..] == x[1..] + y;
      FedConcat(Feed(st, x[0]), x[1..], y);
    }
  }

  lemma FedOne(st: Repacker, d: Digit)
    requires st.place < 4
    ensures Fed(st, [d]) == Feed(st, d)
  {
    assert [d][1..] == [];
  }

  lemma FedTwo(st: Repacker, d: Digit, e: Digit)
    requires st.place == 0
    ensures var x: int, y: int := d, e;
            Fed(st, [d, e]) == Repacker(st.out + [(x * 4 + y / 16) % 256], 2, y % 16 * 16)
  {
    assert [d, e] == [d] + [e];
    FedConcat(st, [d], [e]);
    FedOne(st, d);
    FedOne(Feed(st, d), e);
  }

  /** Splitting two bytes after six bits and joining again. */
  lemma Join6(a: Byte, b: Byte)
    ensures (a / 4 * 4 + (a % 4 * 16 + b / 16) / 16) % 256 == a
    ensures (a % 4 * 16 + b / 16) % 16 * 16 == b / 16 * 16
  {
  }

  lemma Join4(b: Byte, c: Byte)
    ensures (b / 16 * 16 + (b % 16 * 4 + c / 64) / 4) % 256 == b
    ensures (b % 16 * 4 + c / 64) % 4 * 64 == c / 64 * 64
  {
  }

  lemma FedOneByte(st: Repacker, a: Byte, b: Byte)
    requires st.place == 0
    ensures Fed(st, Group(a, b, 0)[..2]) == Repacker(st.out + [a], 2, b / 16 * 16)
  {
    var g := Group(a, b, 0);
    assert g[..2] == [g[0], g[1]];
    FedTwo(st, g[0], g[1]);
    Join6(a, b);
  }

  lemma FedTwoBytes(st: Repacker, a: Byte, b: Byte, c: Byte)
    requires st.place == 0
    ensures Fed(st, Group(a, b, c)[..3]) == Repacker(st.out + [a, b], 3, c / 64 * 64)
  {
    var g := Group(a, b, c);
    assert g[..3] == g[..2] + [g[2]] && g[..2] == Group(a, b, 0)[..2];
    FedConcat(st, g[..2], [g[2]]);
    FedOneByte(st, a, b);
    FedThird(st.out + [a], b, c);
    assert st.out + [a] + [b] == st.out + [a, b];
  }

  lemma FedThird(out: Bytes, b: Byte, c: Byte)
    ensures Fed(Repacker(out, 2, b / 16 * 16), [b % 16 * 4 + c / 64]) == Repacker(out + [b], 3, c / 64 * 64)
  {
    FedOne(Repacker(out, 2, b / 16 * 16), b % 16 * 4 + c / 64);
    Join4(b, c);
  }

  lemma FedFourth(out: Bytes, c: Byte)
    ensures var r := Fed(Repacker(out, 3, c / 64 * 64), [c % 64]); r.place == 0 && r.out == out + [c]
  {
    FedOne(Repacker(out, 3, c / 64 * 64), c % 64);
  }

  lemma FedGroup(st: Repacker, a: Byte, b: Byte, c: Byte)
    requires st.place == 0
    ensures var r := Fed(st, Group(a, b, c)); r.place == 0 && r.out == st.out + [a, b, c]
  {
    hide Fed, Feed;
    var g := Group(a, b, c);
    assert g == g[..3] + [g[3]];
    FedConcat(st, g[..3], [g[3]]);
    FedTwoBytes(st, a, b, c);
    FedFourth(st.out + [a, b], c);
    assert st.out + [a, b] + [c] == st.out + [a, b, c];
  }

  /** `out` can be continued, and decodes to whole groups that mean `done`. */
  ghost predicate Means(out: Bytes, done: Bytes)
  {
    Open(out) && Fed(START, Digits(out)).place == 0 && Decoded(out) == done
  }

  lemma MeansGroup(out: Bytes, s: Bytes, i: nat)
    requires i + 3 <= |s| && Means(out, s[..i])
    ensures Means(out + Symbols(Group(s[i], s[i + 1], s[i + 2])), s[..i + 3])
  {
    var g := Group(s[i], s[i + 1], s[i + 2]);
    SymbolsOpen(g);
    DigitsConcat(out, Symbols(g));
    FedConcat(START, Digits(out), g);
    FedGroup(Fed(START, Digits(out)), s[i], s[i + 1], s[i + 2]);
    assert s[..i] + [s[i], s[i + 1], s[i + 2]] == s[..i + 3];
  }

  lemma MeansBreak(out: Bytes, done: Bytes)
    requires Means(out, done)
    ensures Means(out + CRLF, done)
  {
    DigitsConcat(out, CRLF);
    DigitsOfIgnored(CRLF);
    assert Digits(out) + [] == Digits(out);
  }

  lemma MeansTail(out: Bytes, s: Bytes, i: nat, end: Bytes)
    requires |s| - 3 < i <= |s| && Means(out, s[..i]) && (end == [] || end == CRLF)
    ensures Decoded(out + Tail(s, i) + end) == s
  {
    hide Digits, Fed, Symbols;
    var st := Fed(START, Digits(out));
    if i == |s| {
      assert s[..i] == s && out + [] + end == out + end && out + [] == out;
      if end == CRLF { MeansBreak(out, s); }
    } else {
      var x := if i + 1 == |s| then Group(s[i], 0, 0)[..2] else Group(s[i], s[i + 1], 0)[..3];
      SymbolsOpen(x);
      DigitsConcat(out, Symbols(x));
      FedConcat(START, Digits(out), x);
      if i + 1 == |s| {
        FedOneByte(st, s[i], 0);
        assert s[..i] + [s[i]] == s;
        assert out + Tail(s, i) + end == (out + Symbols(x)) + [EQUALS] + ([EQUALS] + end);
        NothingAfterEnd(out + Symbols(x), EQUALS, [EQUALS] + end);
      } else {
        FedTwoBytes(st, s[i], s[i + 1], 0);
        assert s[..i] + [s[i], s[i + 1]] == s;
        assert out + Tail(s, i) + end == (out + Symbols(x)) + [EQUALS] + end;
        NothingAfterEnd(out + Symbols(x), EQUALS, end);
      }
    }
  }

  lemma {:induction false} EncodeFromMeans(s: Bytes, n: int, i: nat, out: Bytes, c: nat)
    requires i <= |s| && Means(out, s[..i])
    ensures Decoded(EncodeFrom(s, n, i, out, c)) == s
    decreases |s| - i
  {
    if i + 3 <= |s| {
      MeansGroup(out, s, i);
      var out' := out + Symbols(Group(s[i], s[i + 1], s[i + 2]));
      if Full(n, c + 4) {
        MeansBreak(out', s[..i + 3]);
        EncodeFromMeans(s, n, i + 3, out' + CRLF, 0);
      } else {
        EncodeFromMeans(s, n, i + 3, out', c + 4);
      }
    } else {
      MeansTail(out, s, i, if n > 0 && c > 0 then CRLF else []);
    }
  }

  /** Decoding undoes encoding, for every byte string and every line length. */
  lemma RoundTrip(s: Bytes, n: int)
    ensures Decoded(Encoded(s, n)) == s
  {
    EncodeFromMeans(s, n, 0, [], 0);
  }

  // ------------------------------------------------------------- line length

  /** `n` rounded up to whole groups. */
  function RoundUp(n: nat): (m: nat)
    ensures n <= m < n + 4 && m % 4 == 0
    ensures n % 4 == 0 ==> m == n
  {
    (n + 3) / 4 * 4
  }

  lemma TailWidth(out: Bytes, s: Bytes, i: nat, c: nat, width: nat, end: Bytes)
    requires |s| - 3 < i <= |s| && (end == [] || end == CRLF)
    requires Narrow(out, width) && LastLine(out, c) && c + 4 <= width
    ensures Narrow(out + Tail(s, i) + end, width)
  {
    NarrowAppend(out, c, Tail(s, i), width);
    NarrowBreak(out + Tail(s, i), end, width);
  }

  lemma {:induction false} EncodeFromWidth(s: Bytes, n: nat, i: nat, out: Bytes, c: nat)
    requires i <= |s| && n > 0
    requires Narrow(out, RoundUp(n)) && LastLine(out, c) && c % 4 == 0 && c < n
    ensures Narrow(EncodeFrom(s, n, i, out, c), RoundUp(n))
    decreases |s| - i
  {
    if i + 3 <= |s| {
      var out' := out + Symbols(Group(s[i], s[i + 1], s[i + 2]));
      NarrowAppend(out, c, Symbols(Group(s[i], s[i + 1], s[i + 2])), RoundUp(n));
      if Full(n, c + 4) {
        NarrowBreak(out', CRLF, RoundUp(n));
        EncodeFromWidth(s, n, i + 3, out' + CRLF, 0);
      } else {
        EncodeFromWidth(s, n, i + 3, out', c + 4);
      }
    } else {
      TailWidth(out, s, i, c, RoundUp(n), if c > 0 then CRLF else []);
    }
  }

  /** With a positive line length, no line is longer than that length rounded up to a multiple of four. */
  lemma LineBound(s: Bytes, n: nat)
    requires n > 0
    ensures LinesFit(Encoded(s, n), RoundUp(n))
  {
    EncodeFromWidth(s, n, 0, [], 0);
    NarrowLines(Encoded(s, n), RoundUp(n));
  }

  /** Only alphabet characters, padding and line breaks are written. */
  predicate Alphabet(c: Byte) { Code(c) < 64 || c == EQUALS || IsBreak(c) }

  ghost predicate AllAlphabet(r: Bytes) { forall k :: 0 <= k < |r| ==> Alphabet(r[k]) }

  lemma {:induction false} EncodeFromAlphabet(s: Bytes, n: int, i: nat, out: Bytes, c: nat)
    requires i <= |s| && AllAlphabet(out)
    ensures AllAlphabet(EncodeFrom(s, n, i, out, c))
    decreases |s| - i
  {
    if i + 3 <= |s| {
      var g := Group(s[i], s[i + 1], s[i + 2]);
      SymbolsAlphabet(g);
      if Full(n, c + 4) {
        EncodeFromAlphabet(s, n, i + 3, out + Symbols(g) + CRLF, 0);
      } else {
        EncodeFromAlphabet(s, n, i + 3, out + Symbols(g), c + 4);
      }
    } else {
      TailAlphabet(s, i);
    }
  }

  lemma TailAlphabet(s: Bytes, i: nat)
    requires |s| - 3 < i <= |s|
    ensures AllAlphabet(Tail(s, i))
  {
    if i + 1 == |s| {
      SymbolsAlphabet(Group(s[i], 0, 0)[..2]);
    } else if i + 2 == |s| {
      SymbolsAlphabet(Group(s[i], s[i + 1], 0)[..3]);
    }
  }

  lemma {:induction false} SymbolsAlphabet(x: seq<Digit>)
    ensures AllAlphabet(Symbols(x))
  {
    if x != [] { SymbolsAlphabet(x[1..]); }
  }

  lemma {:induction false} SymbolsPlain(x: seq<Digit>)
    ensures EQUALS !in Symbols(x)
  {
    if x != [] { SymbolsPlain(x[1..]); }
  }

  /** Padding is written exactly if the length is not a multiple of three. */
  lemma {:induction false} EncodeFromPadding(s: Bytes, n: int, i: nat, out: Bytes, c: nat)
    requires i <= |s| && EQUALS !in out
    ensures EQUALS in EncodeFrom(s, n, i, out, c) <==> (|s| - i) % 3 != 0
    decreases |s| - i
  {
    hide Symbols, Tail;
    if i + 3 <= |s| {
      var g := Group(s[i], s[i + 1], s[i + 2]);
      SymbolsPlain(g);
      assert (|s| - i) % 3 == (|s| - (i + 3)) % 3;
      if Full(n, c + 4) {
        EncodeFromPadding(s, n, i + 3, out + Symbols(g) + CRLF, 0);
      } else {
        EncodeFromPadding(s, n, i + 3, out + Symbols(g), c + 4);
      }
    } else {
      TailPadding(s, i);
      var e := if n > 0 && c > 0 then CRLF else [];
      assert EncodeFrom(s, n, i, out, c) == out + Tail(s, i) + e;
    }
  }

  lemma TailPadding(s: Bytes, i: nat)
    requires |s| - 3 < i <= |s|
    ensures EQUALS in Tail(s, i) <==> i < |s|
  {
    hide Symbols;
    if i < |s| {
      var t := Tail(s, i);
      assert t[|t| - 1] == EQUALS;
    }
  }

  // ------------------------------------------------------ the encoder's loop

  lemma SymbolsSplit(x: seq<Digit>, k: nat)
    requires k < |x|
    ensures Symbols(x[..k + 1]) == Symbols(x[..k]) + [Symbol(x[k])]
  {
    if k == 0 {
      assert x[..1] == [x[0]] && x[..1][1..] == [] && x[..0] == [];
    } else {
      SymbolsSplit(x[1..], k - 1);
      assert x[..k + 1][1..] == x[1..][..k] && x[..k][1..] == x[1..][..k - 1];
    }
  }

  lemma SymbolsOfGroup(g: seq<Digit>)
    requires |g| == 4
    ensures Symbols(g[..2]) == [Symbol(g[0]), Symbol(g[1])]
    ensures Symbols(g[..3]) == [Symbol(g[0]), Symbol(g[1]), Symbol(g[2])]
    ensures Symbols(g) == [Symbol(g[0]), Symbol(g[1]), Symbol(g[2]), Symbol(g[3])]
  {
    hide Symbol;
    SymbolsSplit(g, 0);
    SymbolsSplit(g, 1);
    SymbolsSplit(g, 2);
    SymbolsSplit(g, 3);
    assert g[..0] == [] && g[..4] == g;
  }

  method EncodeTail(s: Bytes, i: nat) returns (r: Bytes)
    requires |s| - 3 < i <= |s|
    ensures r == Tail(s, i)
  {
    r := [];
    if i < |s| {
      var i0: int, i1: int := s[i], 0;
      if i + 1 < |s| { i1 := s[i + 1]; }
      SymbolsOfGroup(Group(i0, i1, 0));
      r := [Symbol(i0 / 4), Symbol(i0 % 4 * 16 + i1 / 16)];
      if i + 1 < |s| {
        r := r + [Symbol(i1 % 16 * 4)];
      } else {
        r := r + [EQUALS];
      }
      r := r + [EQUALS];
    }
  }

  method Encode(s: Bytes, lineLength: int) returns (r: Bytes)
    ensures r == Encoded(s, lineLength)
  {
    var l := |s|;
    var i: nat, c: nat := 0, 0;
    r := [];
    while i <= l - 3
      invariant i <= l
      invariant EncodeFrom(s, lineLength, i, r, c) == Encoded(s, lineLength)
    {
      var a: int, b: int, d: int := s[i], s[i + 1], s[i + 2];
      SymbolsOfGroup(Group(a, b, d));
      r := r + [Symbol(a / 4), Symbol(a % 4 * 16 + b / 16), Symbol(b % 16 * 4 + d / 64), Symbol(d % 64)];
      i := i + 3;
      c := c + 4;
      if lineLength > 0 && c >= lineLength {
        r := r + CRLF;
        c := 0;
      }
    }
    var tail := EncodeTail(s, i);
    ghost var out := r;
    r := r + tail;
    if lineLength > 0 && c > 0 { r := r + CRLF; }
  }
}
