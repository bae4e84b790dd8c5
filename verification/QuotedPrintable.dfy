/**
  Quoted-printable: section 6.7 of RFC 2045, and the Q variant of section 4.2
  of RFC 2047 (`u`, where a space travels as an underscore).

  `EncodeFrom` is the encoder over values: its output is a byte sequence into
  which a soft break is inserted.  `Encode` is the source's encoder, which
  shifts bytes inside one preallocated array.
 */
module QuotedPrintable {
  import opened Octets
  import opened LineWidth

  // ---------------------------------------------------------------- decoding

  predicate IsHex(c: Byte) { IsDigit(c) || 65 <= c <= 70 || 97 <= c <= 102 }

  function HexValue(c: Byte): (r: nat)
    requires IsHex(c)
    ensures r < 16
  {
    if IsDigit(c) then c - 48 else if c <= 70 then c - 55 else c - 87
  }

  /** The number of spaces and tabs `s` starts with. */
  function Blanks(s: Bytes): (n: nat)
    ensures n <= |s|
  {
    if s != [] && IsBlank(s[0]) then 1 + Blanks(s[1..]) else 0
  }

  /** The value of what `s` starts with, and how many bytes that takes. */
  datatype Piece = Piece(value: Bytes, width: nat)

  /**
    A `=` before a line end (blanks may come between) vanishes with it.  One
    with neither a line end nor two hexadecimal digits after it stands for
    itself, and one with fewer than two bytes after it decodes to NUL.
   */
  function First(s: Bytes, u: bool): (p: Piece)
    requires s != []
    ensures 1 <= p.width <= |s|
  {
    if s[0] != EQUALS then Piece([if u && s[0] == UNDERSCORE then SP else s[0]], 1)
    else
      var j := 1 + Blanks(s[1..]);
      if j < |s| && s[j] == LF then Piece([], j + 1)
      else if j + 1 < |s| && s[j] == CR && s[j + 1] == LF then Piece([], j + 2)
      else if |s| <= 2 then Piece([NUL], |s|)
      else if IsHex(s[1]) && IsHex(s[2]) then Piece([16 * HexValue(s[1]) + HexValue(s[2])], 3)
      else Piece([EQUALS], 1)
  }

  /** What a string means. */
  function Decoded(s: Bytes, u: bool): Bytes
    decreases |s|
  {
    if s == [] then [] else First(s, u).value + Decoded(s[First(s, u).width..], u)
  }

  /** Moves the first piece of `s[i..]` from the rest to the result. */
  lemma DecodedStep(s: Bytes, u: bool, i: nat, done: Bytes)
    requires i < |s|
    ensures var p := First(s[i..], u);
            done + Decoded(s[i..], u) == (done + p.value) + Decoded(s[i + p.width..], u)
  {
    hide First;
    var p := First(s[i..], u);
    assert s[i..][p.width..] == s[i + p.width..];
    assert done + (p.value + Decoded(s[i + p.width..], u)) == (done + p.value) + Decoded(s[i + p.width..], u);
  }

  method SkipBlanks(s: Bytes, i: nat) returns (j: nat)
    requires i <= |s|
    ensures j == i + Blanks(s[i..])
  {
    j := i;
    while j < |s| && IsBlank(s[j])
      invariant i <= j <= |s|
      invariant i + Blanks(s[i..]) == j + Blanks(s[j..])
    {
      assert s[j..][1..] == s[j + 1..];
      j := j + 1;
    }
  }

  method DecodeFirst(s: Bytes, u: bool, i: nat) returns (p: Piece)
    requires i < |s|
    ensures p == First(s[i..], u)
  {
    ghost var t := s[i..];
    assert forall k :: 0 <= k < |t| ==> t[k] == s[i + k];
    if s[i] != EQUALS {
      return Piece([if u && s[i] == UNDERSCORE then SP else s[i]], 1);
    }
    var j := SkipBlanks(s, i + 1);
    assert t[1..] == s[i + 1..];
    if j < |s| && s[j] == LF {
      return Piece([], j + 1 - i);
    } else if j < |s| - 1 && s[j] == CR && s[j + 1] == LF {
      return Piece([], j + 2 - i);
    } else if i + 2 >= |s| {
      return Piece([NUL], |s| - i);
    } else if IsHex(s[i + 1]) && IsHex(s[i + 2]) {
      return Piece([16 * HexValue(s[i + 1]) + HexValue(s[i + 2])], 3);
    } else {
      return Piece([s[i]], 1);
    }
  }

  method Decode(s: Bytes, u: bool) returns (r: Bytes)
    ensures r == Decoded(s, u)
  {
    hide First, Decoded;
    r := [];
    var i := 0;
    assert s[0..] == s && r + Decoded(s, u) == Decoded(s, u);
    while i < |s|
      invariant 0 <= i <= |s|
      invariant r + Decoded(s[i..], u) == Decoded(s, u)
    {
      DecodedStep(s, u, i, r);
      var p := DecodeFirst(s, u, i);
      r := r + p.value;
      i := i + p.width;
    }
    DecodedNone(u);
    assert s[i..] == [] && r + [] == r;
  }

  lemma DecodedNone(u: bool)
    ensures Decoded([], u) == []
  {
  }

  // ------------------------------------------------------ what escapes mean

  /** `0123456789ABCDEF` */
  const HEX_DIGITS: Bytes := [48, 49, 50, 51, 52, 53, 54, 55, 56, 57, 65, 66, 67, 68, 69, 70]

  /** `h` is the hexadecimal digit for `n`, in either case. */
  predicate Denotes(h: Byte, n: nat) { n < 16 && LowerByte(h) == LowerByte(HEX_DIGITS[n]) }

  lemma DigitMeans(h: Byte, n: nat)
    ensures Denotes(h, n) <==> IsHex(h) && HexValue(h) == n
  {
  }

  /** Two hexadecimal digits after `=`, in upper or lower case, stand for the byte with that number. */
  lemma HexDecodes(b: Byte, h1: Byte, h2: Byte, rest: Bytes, u: bool)
    requires Lower([h1, h2]) == Lower([HEX_DIGITS[b / 16], HEX_DIGITS[b % 16]])
    ensures Decoded([EQUALS, h1, h2] + rest, u) == [b] + Decoded(rest, u)
  {
    var s, v, w := [EQUALS, h1, h2] + rest, Lower([h1, h2]), Lower([HEX_DIGITS[b / 16], HEX_DIGITS[b % 16]]);
    assert v[0] == LowerByte(h1) && v[1] == LowerByte(h2);
    assert w[0] == LowerByte(HEX_DIGITS[b / 16]) && w[1] == LowerByte(HEX_DIGITS[b % 16]);
    DigitMeans(h1, b / 16);
    DigitMeans(h2, b % 16);
    assert s[1..][0] == h1 && s[3..] == rest;
    assert First(s, u) == Piece([b], 3);
  }

  predicate IsHexDigit(h: Byte) { exists n :: 0 <= n < 16 && Denotes(h, n) }

  lemma HexDigitMeans(h: Byte)
    ensures IsHexDigit(h) <==> IsHex(h)
  {
    if IsHex(h) { DigitMeans(h, HexValue(h)); }
    if IsHexDigit(h) {
      var n :| Denotes(h, n);
      DigitMeans(h, n);
    }
  }

  lemma {:induction false} BlanksAre(b: Bytes, rest: Bytes)
    requires (forall k :: 0 <= k < |b| ==> IsBlank(b[k])) && (rest != [] ==> !IsBlank(rest[0]))
    ensures Blanks(b + rest) == |b|
  {
    if b == [] {
      assert b + rest == rest;
    } else {
      assert (b + rest)[1..] == b[1..] + rest;
      BlanksAre(b[1..], rest);
    }
  }

  /** `=` and a line break vanish, with blanks between them; `lf` is the break. */
  lemma SoftDecodes(b: Bytes, lf: Bytes, rest: Bytes, u: bool)
    requires (forall k :: 0 <= k < |b| ==> IsBlank(b[k])) && (lf == CRLF || lf == [LF])
    ensures Decoded([EQUALS] + b + lf + rest, u) == Decoded(rest, u)
  {
    var s := [EQUALS] + b + lf + rest;
    assert s[1..] == b + (lf + rest);
    BlanksAre(b, lf + rest);
    assert s[1 + |b|] == lf[0] && (lf == CRLF ==> s[2 + |b|] == LF);
    var n := 1 + |b| + |lf|;
    assert s[n..] == rest;
    assert First(s, u) == Piece([], n);
  }

  predicate BreakAt(s: Bytes, n: nat)
  {
    n < |s| && (s[n] == LF || (n + 1 < |s| && s[n] == CR && s[n + 1] == LF))
  }

  /** The `=` is followed by a line break, blanks apart. */
  predicate SoftAhead(s: Bytes) { exists n :: 0 <= n < |s| && BreakAt(s, n) && forall k :: 0 <= k < n ==> IsBlank(s[k]) }

  lemma SoftAheadMeans(s: Bytes)
    ensures SoftAhead(s) <==> BreakAt(s, Blanks(s))
  {
    BlanksFirst(s);
    if SoftAhead(s) {
      var n :| 0 <= n < |s| && BreakAt(s, n) && forall k :: 0 <= k < n ==> IsBlank(s[k]);
      assert n == Blanks(s);
    }
  }

  lemma {:induction false} BlanksFirst(s: Bytes)
    ensures (forall k :: 0 <= k < Blanks(s) ==> IsBlank(s[k])) && (Blanks(s) < |s| ==> !IsBlank(s[Blanks(s)]))
  {
    if s != [] && IsBlank(s[0]) { BlanksFirst(s[1..]); }
  }

  /**
    Everything else: a byte that is not `=` means itself, or a space if it is an
    underscore and these stand for spaces; `=` before anything but a line break
    and two digits means itself; with fewer than two bytes after it, it is NUL.
   */
  lemma PlainDecodes(c: Byte, rest: Bytes, u: bool)
    ensures c != EQUALS ==> Decoded([c] + rest, u) == [if u && c == UNDERSCORE then SP else c] + Decoded(rest, u)
    ensures !SoftAhead(rest) && |rest| < 2 ==> Decoded([EQUALS] + rest, u) == [NUL]
    ensures !SoftAhead(rest) && |rest| >= 2 && !(IsHexDigit(rest[0]) && IsHexDigit(rest[1])) ==>
              Decoded([EQUALS] + rest, u) == [EQUALS] + Decoded(rest, u)
  {
    var s, t := [c] + rest, [EQUALS] + rest;
    assert s[1..] == rest && t[1..] == rest && t[|t|..] == [];
    SoftAheadMeans(rest);
    if |rest| >= 2 {
      HexDigitMeans(rest[0]);
      HexDigitMeans(rest[1]);
    }
  }

  // ------------------------------------------------- what the encoder writes

  function HexDigit(n: nat): (r: Byte)
    requires n < 16
    ensures IsHex(r) && HexValue(r) == n
  {
    if n < 10 then 48 + n else 55 + n
  }

  function Escaped(b: Byte): (r: Bytes)
  {
    [EQUALS, HexDigit(b / 16), HexDigit(b % 16)]
  }

  predicate IsBoundaryChar(c: Byte)
  {
    || IsAlnum(c) || c == SP || SQUOTE <= c <= RPAREN || 43 <= c <= 47
    || c == COLON || c == EQUALS || c == QUESTION || c == UNDERSCORE
  }

  /** Section 5.1.1 of RFC 2046. */
  lemma BoundaryChars(c: Byte)
    ensures IsBoundaryChar(c) <==> IsAlnum(c) || Among(c, " '()+,-./:=?_")
  {
    var w := " '()+,-./:=?_";
    assert w[0] == ' ' && w[1] == '\'' && w[2] == '(' && w[3] == ')' && w[4] == '+' && w[5] == ',' && w[6] == '-' && w[7] == '.';
    assert w[8] == '/' && w[9] == ':' && w[10] == '=' && w[11] == '?' && w[12] == '_' && |w| == 13;
  }

  /** From `i` to the next control character or the end, only boundary characters. */
  predicate OnlyBoundaryChars(s: Bytes, i: nat)
    requires i <= |s|
    decreases |s| - i
  {
    i == |s| || s[i] < SP || (IsBoundaryChar(s[i]) && OnlyBoundaryChars(s, i + 1))
  }

  predicate LooksLikeBoundary(s: Bytes, i: nat)
    requires i <= |s|
  {
    i + 2 <= |s| && s[i] == DASH && s[i + 1] == DASH && OnlyBoundaryChars(s, i)
  }

  method MaybeBoundary(s: Bytes, i: nat) returns (r: bool)
    requires i <= |s|
    ensures r == LooksLikeBoundary(s, i)
  {
    if |s| < i + 2 || s[i] != DASH || s[i + 1] != DASH { return false; }
    var k := i;
    while k < |s| && s[k] >= SP
      invariant i <= k <= |s|
      invariant OnlyBoundaryChars(s, i) == OnlyBoundaryChars(s, k)
    {
      if !IsBoundaryChar(s[k]) { return false; }
      k := k + 1;
    }
    return true;
  }

  const FROM: Bytes := [70, 114, 111, 109, SP]

  predicate LooksLikeFrom(s: Bytes, i: nat)
  {
    |s| >= i + 5 && s[i..i + 5] == FROM
  }

  predicate IsPlain(c: Byte) { (SP <= c < 127 && c != EQUALS) || c == HT }

  /** What is written for the input byte at `i` when the line already holds `col` characters. */
  function Unit(s: Bytes, u: bool, from: bool, i: nat, col: nat): Bytes
    requires i < |s|
  {
    if u && s[i] == SP then [UNDERSCORE]
    else if u && !IsAlnum(s[i]) then Escaped(s[i])
    else if from && col == 0 && (LooksLikeBoundary(s, i) || LooksLikeFrom(s, i)) then Escaped(s[i])
    else if IsPlain(s[i]) then [s[i]]
    else Escaped(s[i])
  }

  predicate AtLineBreak(s: Bytes, i: nat)
    requires i < |s|
  {
    s[i] == LF || (i + 1 < |s| && s[i] == CR && s[i + 1] == LF)
  }

  /** The text written so far, and the number of characters on its last line. */
  datatype State = State(out: Bytes, col: nat)

  /** Protects a space that would end up last on its line. */
  function Protected(out: Bytes): Bytes
  {
    if out != [] && out[|out| - 1] == SP then out[..|out| - 1] + [EQUALS, 50, 48] else out
  }

  /** The least `k` from `j` on, below ten, with a space `k` cells back; ten if there is none. */
  function SpaceBack(out: Bytes, j: nat): (k: nat)
    requires 9 <= |out| && 1 <= j <= 10
    ensures j <= k <= 10
    ensures k < 10 ==> out[|out| - k] == SP
    decreases 10 - j
  {
    if j == 10 || out[|out| - j] == SP then j else SpaceBack(out, j + 1)
  }

  /** How many characters a soft break moves to the next line. */
  function MovedTail(out: Bytes): (j: nat)
    requires 9 <= |out|
    ensures j <= 8
    ensures j > 0 ==> out[|out| - j - 1] == SP
  {
    var k := SpaceBack(out, 1);
    if k == 10 then 0 else k - 1
  }

  const SOFT: Bytes := [EQUALS, CR, LF]

  function WithSoftBreak(out: Bytes, j: nat): Bytes
    requires j <= |out|
  {
    out[..|out| - j] + SOFT + out[|out| - j..]
  }

  function SoftBroken(st: State): State
    requires 9 <= |st.out|
  {
    State(WithSoftBreak(st.out, MovedTail(st.out)), MovedTail(st.out))
  }

  predicate Sized(st: State) { st.col <= |st.out| }

  /** The input index after the byte, or the CR LF pair, at `i`. */
  function Next(s: Bytes, i: nat): (n: nat)
    requires i < |s|
    ensures i < n <= |s|
  {
    if AtLineBreak(s, i) && s[i] == CR then i + 2 else i + 1
  }

  /** Not between the two bytes of a line break. */
  predicate Boundary(s: Bytes, i: nat) { i <= |s| && !(0 < i < |s| && s[i - 1] == CR && s[i] == LF) }

  function BreakText(first: Byte): Bytes
  {
    if first == CR then CRLF else [LF]
  }

  /** A soft break, if the line is too full for one more unit. */
  function Room(st: State): State
    requires Sized(st)
  {
    if st.col > 72 then SoftBroken(st) else st
  }

  function Step(s: Bytes, u: bool, from: bool, i: nat, st: State): (r: State)
    requires i < |s| && Sized(st)
    ensures Sized(r)
  {
    if AtLineBreak(s, i) then State(Protected(st.out) + BreakText(s[i]), 0)
    else
      var st1 := Room(st);
      var w := Unit(s, u, from, i, st1.col);
      State(st1.out + w, st1.col + |w|)
  }

  function EncodeFrom(s: Bytes, u: bool, from: bool, i: nat, st: State): Bytes
    requires i <= |s| && Sized(st)
    decreases |s| - i
  {
    if i == |s| then st.out else EncodeFrom(s, u, from, Next(s, i), Step(s, u, from, i, st))
  }

  function Encoded(s: Bytes, u: bool, from: bool): Bytes
  {
    EncodeFrom(s, u, from, 0, State([], 0))
  }

  // ------------------------------------------------------------- round trip

  /** The pieces an encoded text is made of. */
  datatype Token = Plain(b: Byte) | Hex(b: Byte) | Soft {
    predicate Ok() { Plain? ==> b != EQUALS }

    function Text(): Bytes
    {
      match this
      case Plain(b) => [b]
      case Hex(b) => Escaped(b)
      case Soft => SOFT
    }

    function Value(u: bool): Bytes
    {
      match this
      case Plain(b) => [if u && b == UNDERSCORE then SP else b]
      case Hex(b) => [b]
      case Soft => []
    }
  }

  predicate AllOk(ts: seq<Token>) { forall k :: 0 <= k < |ts| ==> ts[k].Ok() }

  function Text(ts: seq<Token>): Bytes
  {
    if ts == [] then [] else ts[0].Text() + Text(ts[1..])
  }

  function Value(ts: seq<Token>, u: bool): Bytes
  {
    if ts == [] then [] else ts[0].Value(u) + Value(ts[1..], u)
  }

  lemma {:induction false} TextConcat(a: seq<Token>, b: seq<Token>)
    ensures Text(a + b) == Text(a) + Text(b)
  {
    if a == [] {
      assert a + b == b;
    } else {
      assert (a + b)[1..] == a[1..] + b && (a + b)[0] == a[0];
      TextConcat(a[1..], b);
      assert a[0].Text() + (Text(a[1..]) + Text(b)) == a[0].Text() + Text(a[1..]) + Text(b);
    }
  }

  lemma {:induction false} ValueConcat(a: seq<Token>, b: seq<Token>, u: bool)
    ensures Value(a + b, u) == Value(a, u) + Value(b, u)
  {
    if a == [] {
      assert a + b == b;
    } else {
      assert (a + b)[1..] == a[1..] + b && (a + b)[0] == a[0];
      ValueConcat(a[1..], b, u);
      assert a[0].Value(u) + (Value(a[1..], u) + Value(b, u)) == a[0].Value(u) + Value(a[1..], u) + Value(b, u);
    }
  }

  lemma Concat(a: seq<Token>, b: seq<Token>, u: bool)
    ensures Text(a + b) == Text(a) + Text(b)
    ensures Value(a + b, u) == Value(a, u) + Value(b, u)
  {
    TextConcat(a, b);
    ValueConcat(a, b, u);
  }

  lemma Append(a: seq<Token>, t: Token, u: bool)
    ensures Text(a + [t]) == Text(a) + t.Text()
    ensures Value(a + [t], u) == Value(a, u) + t.Value(u)
  {
    Concat(a, [t], u);
    assert [t][1..] == [];
  }

  /** One token is decoded without looking at what follows it. */
  lemma DecodeToken(t: Token, rest: Bytes, u: bool)
    requires t.Ok()
    ensures Decoded(t.Text() + rest, u) == t.Value(u) + Decoded(rest, u)
  {
    var s := t.Text() + rest;
    assert s[|t.Text()|..] == rest;
    assert First(s, u) == Piece(t.Value(u), |t.Text()|) by {
      if t.Hex? { assert s[1] == HexDigit(t.b / 16) && s[2] == HexDigit(t.b % 16); }
      if t.Soft? { assert s[1] == CR && s[2] == LF; }
    }
  }

  lemma {:induction false} DecodeTokens(ts: seq<Token>, u: bool)
    requires AllOk(ts)
    ensures Decoded(Text(ts), u) == Value(ts, u)
  {
    if ts != [] {
      DecodeToken(ts[0], Text(ts[1..]), u);
      DecodeTokens(ts[1..], u);
    }
  }

  lemma NonEmpty(ts: seq<Token>)
    ensures Text(ts) == [] ==> ts == []
  {
    if ts != [] { assert ts[0].Text() != []; }
  }

  /** A space in the text is always a whole token, so the text can be cut right after it. */
  lemma {:induction false} CutAfterSpace(ts: seq<Token>, p: nat) returns (k: nat)
    requires p < |Text(ts)| && Text(ts)[p] == SP
    ensures k < |ts| && ts[k] == Plain(SP)
    ensures |Text(ts[..k])| == p
  {
    var n := |ts[0].Text()|;
    if p < n {
      assert ts[0] == Plain(SP) && p == 0;
      k := 0;
    } else {
      k := CutAfterSpace(ts[1..], p - n);
      assert ts[..k + 1][1..] == ts[1..][..k];
      k := k + 1;
    }
  }

  lemma CutAround(ts: seq<Token>, p: nat) returns (k: nat)
    requires p < |Text(ts)| && Text(ts)[p] == SP
    ensures k < |ts| && ts[k] == Plain(SP)
    ensures Text(ts[..k]) == Text(ts)[..p]
    ensures Text(ts[..k + 1]) == Text(ts)[..p + 1]
    ensures Text(ts[k + 1..]) == Text(ts)[p + 1..]
  {
    k := CutAfterSpace(ts, p);
    assert ts == ts[..k + 1] + ts[k + 1..] && ts[..k + 1] == ts[..k] + [ts[k]];
    TextConcat(ts[..k + 1], ts[k + 1..]);
    TextConcat(ts[..k], [ts[k]]);
    assert Text([ts[k]]) == [SP] by { assert [ts[k]][1..] == []; }
  }

  /** `ts` spells `out` and means `done`. */
  ghost predicate Spells(ts: seq<Token>, out: Bytes, done: Bytes, u: bool)
  {
    AllOk(ts) && Text(ts) == out && Value(ts, u) == done
  }

  lemma SpellsMore(ts: seq<Token>, out: Bytes, done: Bytes, u: bool, t: Token)
    requires Spells(ts, out, done, u) && t.Ok()
    ensures Spells(ts + [t], out + t.Text(), done + t.Value(u), u)
  {
    Append(ts, t, u);
  }

  lemma SpellsSplit(ts: seq<Token>, k: nat, u: bool)
    requires k <= |ts|
    ensures Text(ts) == Text(ts[..k]) + Text(ts[k..])
    ensures Value(ts, u) == Value(ts[..k], u) + Value(ts[k..], u)
  {
    assert ts == ts[..k] + ts[k..];
    Concat(ts[..k], ts[k..], u);
  }

  lemma TextNone()
    ensures Text([]) == []
  {
  }

  /** A soft break goes to the end or after a space. */
  lemma SpellsSoft(ts: seq<Token>, st: State, done: Bytes, u: bool) returns (ts': seq<Token>, k: nat)
    requires 9 <= |st.out| && Spells(ts, st.out, done, u)
    ensures Spells(ts', SoftBroken(st).out, done, u)
    ensures k <= |ts| && ts' == ts[..k] + [Soft] + ts[k..] && (k == |ts| || (k > 0 && ts[k - 1] == Plain(SP)))
  {
    hide Text, Value, SpaceBack;
    var j := MovedTail(st.out);
    var p := |st.out| - j;
    k := |ts|;
    if j > 0 {
      k := CutAround(ts, p - 1);
      k := k + 1;
    } else {
      assert ts[..k] == ts && ts[k..] == [];
      TextNone();
    }
    assert st.out[..p] == Text(ts[..k]) && st.out[p..] == Text(ts[k..]);
    ts' := SpellsInsert(ts, k, u);
  }

  /** Inserting a soft break between two tokens changes the text only there, and the value nowhere. */
  lemma SpellsInsert(ts: seq<Token>, k: nat, u: bool) returns (ts': seq<Token>)
    requires k <= |ts| && AllOk(ts)
    ensures Text(ts) == Text(ts[..k]) + Text(ts[k..])
    ensures Spells(ts', Text(ts[..k]) + SOFT + Text(ts[k..]), Value(ts, u), u)
    ensures ts' == ts[..k] + [Soft] + ts[k..]
  {
    hide Text, Value;
    ts' := ts[..k] + [Soft] + ts[k..];
    SpellsSplit(ts, k, u);
    Append(ts[..k], Soft, u);
    Concat(ts[..k] + [Soft], ts[k..], u);
    assert Value(ts[..k], u) + [] == Value(ts[..k], u);
  }

  lemma SpellsProtected(ts: seq<Token>, out: Bytes, done: Bytes, u: bool) returns (ts': seq<Token>)
    requires Spells(ts, out, done, u)
    ensures Spells(ts', Protected(out), done, u)
    ensures ts' == ts || (ts != [] && ts[|ts| - 1] == Plain(SP) && ts' == ts[..|ts| - 1] + [Hex(SP)])
  {
    hide Text, Value;
    ts' := ts;
    if out != [] && out[|out| - 1] == SP {
      var k := CutAround(ts, |out| - 1);
      NonEmpty(ts[k + 1..]);
      assert ts == ts[..k] + [Plain(SP)];
      Append(ts[..k], Plain(SP), u);
      Append(ts[..k], Hex(SP), u);
      assert Hex(SP).Text() == [EQUALS, 50, 48];
      ts' := ts[..k] + [Hex(SP)];
    }
  }

  /** One input byte outside a line break becomes one token that means it. */
  lemma SpellsUnit(s: Bytes, u: bool, from: bool, i: nat, ts: seq<Token>, st: State) returns (t: Token)
    requires i < |s| && !AtLineBreak(s, i) && Spells(ts, st.out, s[..i], u)
    ensures Spells(ts + [t], st.out + Unit(s, u, from, i, st.col), s[..i + 1], u)
    ensures !u ==> t == Hex(s[i]) || (t == Plain(s[i]) && !IsBreak(s[i]))
  {
    var w := Unit(s, u, from, i, st.col);
    t := if u && s[i] == SP then Plain(UNDERSCORE) else if |w| == 1 then Plain(s[i]) else Hex(s[i]);
    assert w == t.Text() && t.Value(u) == [s[i]];
    SpellsMore(ts, st.out, s[..i], u, t);
    Snoc(s, i);
  }

  lemma SpellsRaw(ts: seq<Token>, out: Bytes, s: Bytes, i: nat, u: bool)
    requires i < |s| && IsBreak(s[i]) && Spells(ts, out, s[..i], u)
    ensures Spells(ts + [Plain(s[i])], out + [s[i]], s[..i + 1], u)
  {
    SpellsMore(ts, out, s[..i], u, Plain(s[i]));
    Snoc(s, i);
  }

  lemma SpellsBreak(s: Bytes, u: bool, i: nat, ts: seq<Token>, out: Bytes) returns (ts': seq<Token>)
    requires i < |s| && AtLineBreak(s, i) && Spells(ts, out, s[..i], u)
    ensures Spells(ts', Protected(out) + BreakText(s[i]), s[..Next(s, i)], u)
    ensures var b := if s[i] == CR then [Plain(CR), Plain(LF)] else [Plain(LF)];
            ts' == ts + b || (ts != [] && ts[|ts| - 1] == Plain(SP) && ts' == ts[..|ts| - 1] + [Hex(SP)] + b)
  {
    ts' := SpellsProtected(ts, out, s[..i], u);
    ghost var ts1 := ts';
    var o := Protected(out);
    SpellsRaw(ts', o, s, i, u);
    ts' := ts' + [Plain(s[i])];
    if s[i] == CR {
      SpellsRaw(ts', o + [CR], s, i + 1, u);
      assert o + [CR] + [LF] == o + CRLF;
      ts' := ts' + [Plain(LF)];
      assert ts' == ts1 + [Plain(CR), Plain(LF)];
    }
  }

  lemma SpellsStep(s: Bytes, u: bool, from: bool, i: nat, st: State, ts: seq<Token>) returns (ts': seq<Token>)
    requires i < |s| && Sized(st) && Spells(ts, st.out, s[..i], u)
    ensures Spells(ts', Step(s, u, from, i, st).out, s[..Next(s, i)], u)
  {
    if AtLineBreak(s, i) {
      ts' := SpellsBreak(s, u, i, ts, st.out);
    } else {
      ts' := ts;
      if st.col > 72 {
        var k;
        ts', k := SpellsSoft(ts, st, s[..i], u);
      }
      var t := SpellsUnit(s, u, from, i, ts', Room(st));
      ts' := ts' + [t];
    }
  }

  lemma {:induction false} EncodeFromMeans(s: Bytes, u: bool, from: bool, i: nat, st: State, ts: seq<Token>)
    requires i <= |s| && Sized(st) && Spells(ts, st.out, s[..i], u)
    ensures Decoded(EncodeFrom(s, u, from, i, st), u) == s
    decreases |s| - i
  {
    if i == |s| {
      assert s[..i] == s;
      DecodeTokens(ts, u);
    } else {
      var ts' := SpellsStep(s, u, from, i, st, ts);
      EncodeFromMeans(s, u, from, Next(s, i), Step(s, u, from, i, st), ts');
    }
  }

  /** Decoding undoes encoding, for every byte string, either variant and either `from` flag. */
  lemma RoundTrip(s: Bytes, u: bool, from: bool)
    ensures Decoded(Encoded(s, u, from), u) == s
  {
    EncodeFromMeans(s, u, from, 0, State([], 0), []);
  }

  // --------------------------------------------------------- byte by byte

  /** `=` and the two digits of the byte. */
  function HexForm(b: Byte): Bytes { ['=' as int, HEX_DIGITS[b / 16], HEX_DIGITS[b % 16]] }

  /** What a byte is written as: itself, an underscore for a space, or its digits. */
  function Form(b: Byte, u: bool): Bytes
  {
    if u then (if b == ' ' as int then ['_' as int] else if IsAlnum(b) then [b] else HexForm(b))
    else if (' ' as int <= b <= '~' as int && b != '=' as int) || b == '\t' as int then [b]
    else HexForm(b)
  }

  lemma EscapedForm(b: Byte)
    ensures Escaped(b) == HexForm(b)
  {
    DigitMeans(HexDigit(b / 16), b / 16);
    DigitMeans(HexDigit(b % 16), b % 16);
    UpperDigits(b / 16);
    UpperDigits(b % 16);
  }

  lemma UpperDigits(n: nat)
    requires n < 16
    ensures HexDigit(n) == HEX_DIGITS[n]
  {
  }

  /** The line start is guarded. */
  predicate Guarded(s: Bytes, from: bool) { from && s != [] && (LooksLikeBoundary(s, 0) || LooksLikeFrom(s, 0)) }

  lemma UnitForm(s: Bytes, u: bool, from: bool, i: nat, col: nat)
    requires i < |s| && (col == 0 <==> i == 0)
    ensures Unit(s, u, from, i, col) == if i == 0 && Guarded(s, from) then HexForm(s[i]) else Form(s[i], u)
  {
    hide OnlyBoundaryChars, Escaped, HexForm;
    EscapedForm(s[i]);
    if LooksLikeFrom(s, i) { assert s[i] == s[i..i + 5][0]; }
  }

  /** A text without line breaks that needs no soft break, as it is written: guarded at its start or not. */
  function LineForms(s: Bytes, u: bool, from: bool, i: nat): Bytes
    requires i <= |s|
  {
    if i == 0 then []
    else LineForms(s, u, from, i - 1) + (if i == 1 && Guarded(s, from) then HexForm(s[0]) else Form(s[i - 1], u))
  }

  lemma {:induction false} FormsSome(s: Bytes, u: bool, from: bool, i: nat)
    requires 0 < i <= |s|
    ensures |LineForms(s, u, from, i)| > |LineForms(s, u, from, i - 1)|
  {
  }

  lemma {:induction false} ShortFrom(s: Bytes, u: bool, from: bool, i: nat)
    requires NoBreaks(s) && i <= |s| && (forall k :: 0 <= k < |s| ==> |LineForms(s, u, from, k)| <= 72)
    ensures var w := LineForms(s, u, from, i); EncodeFrom(s, u, from, i, State(w, |w|)) == LineForms(s, u, from, |s|)
    decreases |s| - i
  {
    hide EncodeFrom, LineForms;
    if i < |s| {
      ShortStep(s, u, from, i);
      ShortFrom(s, u, from, i + 1);
    } else {
      ShortEnd(s, u, from, LineForms(s, u, from, i));
    }
  }

  lemma ShortEnd(s: Bytes, u: bool, from: bool, w: Bytes)
    ensures EncodeFrom(s, u, from, |s|, State(w, |w|)) == w
  {
  }

  lemma ShortStep(s: Bytes, u: bool, from: bool, i: nat)
    requires i < |s| && NoBreaks(s) && |LineForms(s, u, from, i)| <= 72
    ensures var w, v := LineForms(s, u, from, i), LineForms(s, u, from, i + 1);
            EncodeFrom(s, u, from, i, State(w, |w|)) == EncodeFrom(s, u, from, i + 1, State(v, |v|))
  {
    hide Form, HexForm, Guarded, Unit, SoftBroken;
    var w := LineForms(s, u, from, i);
    assert (|w| == 0 <==> i == 0) by { if i > 0 { FormsSome(s, u, from, i); } }
    UnitForm(s, u, from, i, |w|);
    assert LineForms(s, u, from, i + 1) == w + Unit(s, u, from, i, |w|);
    assert !AtLineBreak(s, i) && Next(s, i) == i + 1;
  }

  /**
    A text without line breaks that fits on a line is written byte by byte:
    printable characters as they are, everything else as two digits; its first
    byte as digits too if the line start is to be guarded.
   */
  lemma ShortLine(s: Bytes, u: bool, from: bool)
    requires NoBreaks(s) && (forall k :: 0 <= k < |s| ==> |LineForms(s, u, from, k)| <= 72)
    ensures Encoded(s, u, from) == LineForms(s, u, from, |s|)
  {
    ShortFrom(s, u, from, 0);
  }

  // ------------------------------------------------------------------ shape

  /** Only tab, CR, LF and printable ASCII; CR only before LF; no space right before a break. */
  predicate Clean(out: Bytes) { forall k :: 0 <= k < |out| ==> CleanAt(out, k) }

  predicate CleanAt(out: Bytes, k: nat)
    requires k < |out|
  {
    && (out[k] == HT || IsBreak(out[k]) || SP <= out[k] <= 126)
    && (out[k] == CR ==> k + 1 < |out| && out[k + 1] == LF)
    && (out[k] == SP && k + 1 < |out| ==> !IsBreak(out[k + 1]))
  }

  ghost predicate Shape(st: State)
  {
    && LastLine(st.out, st.col)
    && st.col <= 75
    && (st.out != [] && st.out[|st.out| - 1] == SP ==> 1 <= st.col <= 73)
    && Narrow(st.out, 76)
    && Clean(st.out)
  }

  lemma NarrowSoft(out: Bytes, col: nat, j: nat)
    requires Narrow(out, 76) && LastLine(out, col) && j < col <= 75 && j <= 8
    ensures Narrow(WithSoftBreak(out, j), 76)
  {
    var p := |out| - j;
    var a, b := out[..p], out[p..];
    NarrowPrefix(out, p, 76);
    NarrowAppend(a, col - j, [EQUALS], 76);
    NarrowBreak(a + [EQUALS], CRLF, 76);
    assert a + [EQUALS] + CRLF == a + SOFT;
    NarrowAppend(a + SOFT, 0, b, 76);
  }

  lemma ShapeSoft(st: State)
    requires Shape(st) && st.col > 72
    ensures Shape(SoftBroken(st))
  {
    var j := MovedTail(st.out);
    NarrowSoft(st.out, st.col, j);
    CleanSoft(st.out, |st.out| - j);
    var r := WithSoftBreak(st.out, j);
    assert r[|r| - j - 1] == LF;
    if j > 0 { assert r[|r| - 1] == st.out[|st.out| - 1]; }
  }

  lemma CleanSoft(out: Bytes, p: nat)
    requires Clean(out) && p <= |out| && (p < |out| ==> p > 0 && out[p - 1] == SP)
    ensures Clean(WithSoftBreak(out, |out| - p))
  {
    var r := WithSoftBreak(out, |out| - p);
    assert r[p] == EQUALS && r[p + 1] == CR && r[p + 2] == LF;
    forall k | 0 <= k < |r| ensures CleanAt(r, k) {
      if k < p { assert CleanAt(out, k); } else if k >= p + 3 { assert CleanAt(out, k - 3); }
    }
  }

  lemma CleanAppend(out: Bytes, w: Bytes)
    requires Clean(out) && Clean(w)
    requires out != [] && out[|out| - 1] == SP && w != [] ==> !IsBreak(w[0])
    ensures Clean(out + w)
  {
    var r := out + w;
    forall k | 0 <= k < |r| ensures CleanAt(r, k) {
      if k < |out| { assert CleanAt(out, k); } else { assert CleanAt(w, k - |out|); }
    }
  }

  lemma ShapeUnit(s: Bytes, u: bool, from: bool, i: nat, st: State)
    requires i < |s| && !AtLineBreak(s, i) && Shape(st) && st.col <= 72
    ensures var w := Unit(s, u, from, i, st.col); Shape(State(st.out + w, st.col + |w|))
  {
    var w := Unit(s, u, from, i, st.col);
    assert |w| == 1 ==> w[0] == UNDERSCORE || IsPlain(w[0]);
    NarrowAppend(st.out, st.col, w, 76);
    CleanAppend(st.out, w);
  }

  lemma ShapeProtected(st: State)
    requires Shape(st)
    ensures var o := Protected(st.out);
            Narrow(o, 76) && Clean(o) && (o != [] ==> o[|o| - 1] != SP)
  {
    if st.out != [] && st.out[|st.out| - 1] == SP {
      var a := st.out[..|st.out| - 1];
      var w := [EQUALS, 50, 48];
      NarrowPrefix(st.out, |a|, 76);
      NarrowAppend(a, st.col - 1, w, 76);
      assert Clean(a) by {
        forall k | 0 <= k < |a| ensures CleanAt(a, k) { assert CleanAt(st.out, k); }
      }
      CleanAppend(a, w);
    }
  }

  lemma ShapeBreak(st: State, first: Byte)
    requires Shape(st)
    ensures Shape(State(Protected(st.out) + BreakText(first), 0))
  {
    var o, w := Protected(st.out), BreakText(first);
    ShapeProtected(st);
    NarrowBreak(o, w, 76);
    CleanAppend(o, w);
  }

  lemma ShapeStep(s: Bytes, u: bool, from: bool, i: nat, st: State)
    requires i < |s| && Shape(st)
    ensures Shape(Step(s, u, from, i, st))
  {
    if AtLineBreak(s, i) {
      ShapeBreak(st, s[i]);
    } else {
      if st.col > 72 { ShapeSoft(st); }
      ShapeUnit(s, u, from, i, Room(st));
    }
  }

  lemma StepLength(s: Bytes, u: bool, from: bool, i: nat, st: State)
    requires i < |s| && Sized(st)
    ensures |Step(s, u, from, i, st).out| <= |st.out| + 6 * (Next(s, i) - i)
  {
  }

  lemma {:induction false} EncodeFromShape(s: Bytes, u: bool, from: bool, i: nat, st: State)
    requires i <= |s| && Shape(st)
    ensures var r := EncodeFrom(s, u, from, i, st); Narrow(r, 76) && Clean(r) && |r| <= |st.out| + 6 * (|s| - i)
    decreases |s| - i
  {
    if i < |s| {
      ShapeStep(s, u, from, i, st);
      StepLength(s, u, from, i, st);
      EncodeFromShape(s, u, from, Next(s, i), Step(s, u, from, i, st));
    }
  }

  /**
    Every line has at most 76 characters before its break, the output is clean,
    and no input byte costs more than six output bytes.
   */
  lemma OutputShape(s: Bytes, u: bool, from: bool)
    ensures var r := Encoded(s, u, from);
            && LinesFit(r, 76)
            && Clean(r)
            && |r| <= 6 * |s|
  {
    EncodeFromShape(s, u, from, 0, State([], 0));
    NarrowLines(Encoded(s, u, from), 76);
  }

  // ------------------------------------------------- the encoder in an array

  /** Writes `=XY` for `b` at `l`. */
  method WriteEscaped(buf: array<Byte>, l: nat, b: Byte) returns (l': nat)
    requires l + 3 <= buf.Length
    modifies buf
    ensures l' == l + 3 && buf[..l'] == old(buf[..l]) + Escaped(b)
  {
    buf[l] := EQUALS;
    buf[l + 1] := HexDigit(b / 16);
    buf[l + 2] := HexDigit(b % 16);
    l' := l + 3;
  }

  /** Moves the last `j` of the first `l` cells three to the right, last one first. */
  method ShiftRight(buf: array<Byte>, l: nat, j: nat)
    requires j <= l && l + 3 <= buf.Length
    modifies buf
    ensures forall m :: 0 <= m < l - j ==> buf[m] == old(buf[m])
    ensures forall m :: l - j + 3 <= m < l + 3 ==> buf[m] == old(buf[..])[m - 3]
  {
    ghost var was := buf[..];
    var k := 1;
    while k <= j
      invariant 1 <= k <= j + 1
      invariant forall m :: 0 <= m <= l - k ==> buf[m] == was[m]
      invariant forall m :: l - k + 4 <= m < l + 3 ==> buf[m] == was[m - 3]
    {
      buf[l - k + 3] := buf[l - k];
      k := k + 1;
    }
  }

  /** How far back, within nine cells, the word after the last space begins; 0 if there is no space. */
  method LookBack(buf: array<Byte>, l: nat) returns (j: nat)
    requires 9 <= l <= buf.Length
    ensures j == MovedTail(buf[..l])
  {
    ghost var out := buf[..l];
    j := 1;
    while j < 10 && buf[l - j] != SP
      invariant 1 <= j <= 10
      invariant SpaceBack(out, 1) == SpaceBack(out, j)
    {
      j := j + 1;
    }
    if j >= 10 { j := 0; } else { j := j - 1; }
  }

  method InsertSoftBreak(buf: array<Byte>, l: nat, j: nat) returns (l': nat)
    requires j <= l && l + 3 <= buf.Length
    modifies buf
    ensures l' == l + 3
    ensures buf[..l'] == WithSoftBreak(old(buf[..l]), j)
  {
    ghost var out := buf[..l];
    ShiftRight(buf, l, j);
    buf[l - j] := EQUALS;
    buf[l - j + 1] := CR;
    buf[l - j + 2] := LF;
    l' := l + 3;
    ghost var r := WithSoftBreak(out, j);
    forall m | 0 <= m < l' ensures buf[m] == r[m] { }
  }

  /** Rewrites a space just before `l` as `=20`. */
  method ProtectSpace(buf: array<Byte>, l: nat) returns (l': nat)
    requires l + 2 <= buf.Length
    modifies buf
    ensures l <= l' <= l + 2
    ensures buf[..l'] == Protected(old(buf[..l]))
  {
    l' := l;
    if l > 0 && buf[l - 1] == SP {
      buf[l - 1] := EQUALS;
      buf[l] := 50;
      buf[l + 1] := 48;
      l' := l + 2;
    }
  }

  method WriteUnit(buf: array<Byte>, l: nat, s: Bytes, u: bool, from: bool, i: nat, c: nat) returns (l': nat)
    requires i < |s| && l + 3 <= buf.Length
    modifies buf
    ensures l <= l' <= l + 3
    ensures buf[..l'] == old(buf[..l]) + Unit(s, u, from, i, c)
  {
    var boundary := false;
    if from && c == 0 { boundary := MaybeBoundary(s, i); }
    if u && s[i] == SP {
      buf[l] := UNDERSCORE;
      l' := l + 1;
    } else if u && !IsAlnum(s[i]) {
      l' := WriteEscaped(buf, l, s[i]);
    } else if from && c == 0 && boundary {
      l' := WriteEscaped(buf, l, s[i]);
    } else if from && c == 0 && |s| >= i + 5 && s[i..i + 5] == FROM {
      l' := WriteEscaped(buf, l, s[i]);
    } else if (SP <= s[i] < 127 && s[i] != EQUALS) || s[i] == HT {
      buf[l] := s[i];
      l' := l + 1;
    } else {
      l' := WriteEscaped(buf, l, s[i]);
    }
  }

  method WriteBreak(buf: array<Byte>, l: nat, first: Byte) returns (l': nat)
    requires l + 4 <= buf.Length
    requires IsBreak(first)
    modifies buf
    ensures l <= l' <= l + (if first == CR then 4 else 3)
    ensures buf[..l'] == Protected(old(buf[..l])) + BreakText(first)
  {
    l' := ProtectSpace(buf, l);
    if first == CR {
      buf[l'] := first;
      l' := l' + 1;
    }
    buf[l'] := LF;
    l' := l' + 1;
  }

  /** One round of the encoder's loop. */
  method EncodeStep(buf: array<Byte>, l: nat, c: nat, s: Bytes, u: bool, from: bool, i: nat) returns (l': nat, c': nat)
    requires i < |s| && c <= l && l + 6 * (Next(s, i) - i) <= buf.Length
    modifies buf
    ensures c' <= l' <= l + 6 * (Next(s, i) - i)
    ensures State(buf[..l'], c') == Step(s, u, from, i, State(old(buf[..l]), c))
  {
    if s[i] == LF || (i < |s| - 1 && s[i] == CR && s[i + 1] == LF) {
      l' := WriteBreak(buf, l, s[i]);
      c' := 0;
    } else {
      l', c' := l, c;
      if c > 72 {
        c' := LookBack(buf, l);
        l' := InsertSoftBreak(buf, l, c');
      }
      var n := WriteUnit(buf, l', s, u, from, i, c');
      l', c' := n, c' + (n - l');
    }
  }

  /** The array never overflows, and holds what the encoder over values writes. */
  method Encode(s: Bytes, u: bool, from: bool) returns (r: Bytes)
    ensures r == Encoded(s, u, from)
  {
    if s == [] { return []; }
    var i: nat, l: nat, c: nat := 0, 0, 0;
    var buf := new Byte[|s| * 6];
    ghost var st := State([], 0);
    while i < |s|
      invariant i <= |s| && c <= l <= 6 * i
      invariant st == State(buf[..l], c)
      invariant EncodeFrom(s, u, from, i, st) == Encoded(s, u, from)
    {
      ghost var i' := Next(s, i);
      st := Step(s, u, from, i, st);
      l, c := EncodeStep(buf, l, c, s, u, from, i);
      if i < |s| - 1 && s[i] == CR && s[i + 1] == LF { i := i + 1; }
      i := i + 1;
      assert i == i';
    }
    r := buf[..l];
  }
}
