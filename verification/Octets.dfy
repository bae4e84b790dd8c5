/**
  Octet strings, the character constants the mail formats use, and the ASCII
  character classes shared by the scanners and printers.
 */
module Octets {

  type Byte = b: int | 0 <= b < 256
  type Bytes = seq<Byte>

  datatype Option<+T> = None | Some(value: T)

  const NUL: Byte := 0
  const HT: Byte := 9
  const LF: Byte := 10
  const CR: Byte := 13
  const SP: Byte := 32
  const DQUOTE: Byte := 34
  const SQUOTE: Byte := 39
  const LPAREN: Byte := 40
  const RPAREN: Byte := 41
  const STAR: Byte := 42
  const DASH: Byte := 45
  const DOT: Byte := 46
  const COLON: Byte := 58
  const SEMICOLON: Byte := 59
  const EQUALS: Byte := 61
  const QUESTION: Byte := 63
  const BACKSLASH: Byte := 92
  const UNDERSCORE: Byte := 95

  const DASHES: Bytes := [DASH, DASH]
  const CRLF: Bytes := [CR, LF]

  predicate IsUpper(c: Byte) { 65 <= c <= 90 }

  predicate IsLower(c: Byte) { 97 <= c <= 122 }

  predicate IsDigit(c: Byte) { 48 <= c <= 57 }

  predicate IsAlnum(c: Byte) { IsUpper(c) || IsLower(c) || IsDigit(c) }

  /** A carriage return or a line feed. */
  predicate IsBreak(c: Byte) { c == CR || c == LF }

  /** Space or horizontal tab. */
  predicate IsBlank(c: Byte) { c == SP || c == HT }

  /** The four bytes `simplify` and `trim` treat as white space. */
  predicate IsSpace(c: Byte) { c == HT || c == LF || c == CR || c == SP }

  predicate NoBreaks(s: Bytes) { forall k :: 0 <= k < |s| ==> !IsBreak(s[k]) }

  function LowerByte(c: Byte): (r: Byte)
    ensures !IsUpper(r)
    ensures !IsUpper(c) ==> r == c
  {
    if IsUpper(c) then c + 32 else c
  }

  /** ASCII lower-casing, byte by byte. */
  function Lower(s: Bytes): (r: Bytes)
    ensures |r| == |s|
    ensures forall k :: 0 <= k < |s| ==> r[k] == LowerByte(s[k])
  {
    seq(|s|, k requires 0 <= k < |s| => LowerByte(s[k]))
  }

  lemma CharactersAre()
    ensures NUL == 0 && HT == '\t' as int && LF == '\n' as int && CR == '\r' as int && SP == ' ' as int
    ensures DQUOTE == '\"' as int && SQUOTE == '\'' as int && LPAREN == '(' as int && RPAREN == ')' as int && STAR == '*' as int
    ensures DASH == '-' as int && DOT == '.' as int && COLON == ':' as int && SEMICOLON == ';' as int && EQUALS == '=' as int
    ensures QUESTION == '?' as int && BACKSLASH == '\\' as int && UNDERSCORE == '_' as int
    ensures IsText(DASHES, "--") && IsText(CRLF, "\r\n")
  {
  }

  lemma ClassesAre(c: Byte)
    ensures IsUpper(c) <==> 'A' as int <= c <= 'Z' as int
    ensures IsLower(c) <==> 'a' as int <= c <= 'z' as int
    ensures IsDigit(c) <==> '0' as int <= c <= '9' as int
    ensures IsBreak(c) <==> Among(c, "\r\n")
    ensures IsBlank(c) <==> Among(c, " \t")
    ensures IsSpace(c) <==> Among(c, " \t\r\n")
    ensures IsUpper(c) ==> LowerByte(c) - 'a' as int == c - 'A' as int
  {
    var w := " \t\r\n";
    assert w[0] == ' ' && w[1] == '\t' && w[2] == '\r' && w[3] == '\n' && |w| == 4;
    var b, v := "\r\n", " \t";
    assert b[0] == '\r' && b[1] == '\n' && v[0] == ' ' && v[1] == '\t' && |b| == 2 && |v| == 2;
  }

  predicate Among(c: Byte, w: string) { exists k :: 0 <= k < |w| && c == w[k] as int }

  /** The bytes are that text. */
  predicate IsText(s: Bytes, w: string) { |s| == |w| && forall k :: 0 <= k < |w| ==> s[k] == w[k] as int }

  lemma SameText(a: Bytes, b: Bytes, w: string)
    requires IsText(a, w)
    ensures IsText(b, w) <==> a == b
  {
  }

  lemma Snoc<T>(s: seq<T>, i: nat)
    requires i < |s|
    ensures s[..i] + [s[i]] == s[..i + 1]
  {
  }

  lemma SubSlice<T>(t: seq<T>, a: nat, b: nat, c: nat, d: nat)
    requires a <= b <= |t| && c <= d <= b - a
    ensures t[a..b][c..d] == t[a + c..a + d]
  {
    forall k | 0 <= k < d - c ensures t[a..b][c..d][k] == t[a + c..a + d][k] {
      assert t[a..b][c + k] == t[a + c + k];
    }
  }

  /** `w` stands in `s` at `i`. */
  predicate HasAt(s: Bytes, i: nat, w: Bytes) { i + |w| <= |s| && s[i..i + |w|] == w }

  lemma HasAtSplit(s: Bytes, i: nat, a: Bytes, b: Bytes)
    requires HasAt(s, i, a + b)
    ensures HasAt(s, i, a) && HasAt(s, i + |a|, b)
  {
    SubSlice(s, i, i + |a + b|, 0, |a|);
    SubSlice(s, i, i + |a + b|, |a|, |a + b|);
    assert (a + b)[0..|a|] == a && (a + b)[|a|..|a + b|] == b;
  }

  lemma StandsFirst(t: Bytes, i: nat, w: Bytes, rest: Bytes)
    requires i <= |t| && t[i..] == w + rest
    ensures HasAt(t, i, w) && t[i + |w|..] == rest
  {
    assert t[i..i + |w|] == t[i..][..|w|] && t[i + |w|..] == t[i..][|w|..];
  }

  lemma HasAtBound(s: Bytes, i: nat, w: Bytes)
    requires HasAt(s, i, w)
    ensures i + |w| <= |s|
  {
  }

  lemma HasAtByte(s: Bytes, i: nat, w: Bytes, k: nat)
    requires HasAt(s, i, w) && k < |w|
    ensures i + k < |s| && s[i + k] == w[k]
  {
    assert s[i..i + |w|][k] == w[k];
  }

  /** The first position from `i` on whose byte is not in the class `p`. */
  function SpanEnd(t: Bytes, i: nat, p: Byte -> bool): (r: nat)
    requires i <= |t|
    ensures i <= r <= |t|
    ensures forall k :: i <= k < r ==> p(t[k])
    ensures r < |t| ==> !p(t[r])
    decreases |t| - i
  {
    if i < |t| && p(t[i]) then SpanEnd(t, i + 1, p) else i
  }

  lemma SpanIs(t: Bytes, i: nat, p: Byte -> bool, r: nat)
    requires i <= r <= |t| && (forall k :: i <= k < r ==> p(t[k])) && (r < |t| ==> !p(t[r]))
    ensures SpanEnd(t, i, p) == r
    decreases r - i
  {
    if i < r { SpanIs(t, i + 1, p, r); }
  }

  lemma SpanStops(t: Bytes, i: nat, p: Byte -> bool, e: nat)
    requires i <= e < |t| && !p(t[e])
    ensures SpanEnd(t, i, p) <= e
    decreases e - i
  {
    if i < e { SpanStops(t, i + 1, p, e); }
  }

  lemma SpanShift(h: Bytes, t: Bytes, i: nat, p: Byte -> bool)
    requires i <= |t|
    ensures SpanEnd(h + t, |h| + i, p) == |h| + SpanEnd(t, i, p)
    decreases |t| - i
  {
    assert i < |t| ==> (h + t)[|h| + i] == t[i];
    if i < |t| { SpanShift(h, t, i + 1, p); }
  }

  method SkipClass(t: Bytes, i: nat, p: Byte -> bool) returns (j: nat)
    requires i <= |t|
    ensures j == SpanEnd(t, i, p)
  {
    j := i;
    while j < |t| && p(t[j])
      invariant i <= j <= |t|
      invariant SpanEnd(t, i, p) == SpanEnd(t, j, p)
    {
      j := j + 1;
    }
  }

  /** Without the element at `i`. */
  function Without<T>(s: seq<T>, i: nat): seq<T>
    requires i < |s|
  {
    s[..i] + s[i + 1..]
  }
}
