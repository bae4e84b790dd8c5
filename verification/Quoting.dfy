/** Quoted strings with a free choice of quote character `c` and escape character `q`. */
module Quoting {
  import opened Octets

  /** `s` with every `c` and `q` escaped by `q`. */
  function Escaped(s: Bytes, c: Byte, q: Byte): Bytes
  {
    if s == [] then []
    else (if s[0] == c || s[0] == q then [q, s[0]] else [s[0]]) + Escaped(s[1..], c, q)
  }

  function Quoted(s: Bytes, c: Byte, q: Byte): Bytes { [c] + Escaped(s, c, q) + [c] }

  /** The next byte goes over to the result. */
  lemma EscapedStep(s: Bytes, i: nat, r: Bytes, c: Byte, q: Byte)
    requires i < |s|
    ensures r + Escaped(s[i..], c, q) == (r + if s[i] == c || s[i] == q then [q, s[i]] else [s[i]]) + Escaped(s[i + 1..], c, q)
  {
    var w := if s[i] == c || s[i] == q then [q, s[i]] else [s[i]];
    assert s[i..][1..] == s[i + 1..];
    assert r + (w + Escaped(s[i + 1..], c, q)) == r + w + Escaped(s[i + 1..], c, q);
  }

  lemma EscapedEnd(s: Bytes, r: Bytes, c: Byte, q: Byte)
    ensures r + Escaped(s[|s|..], c, q) == r
  {
  }

  method Quote(s: Bytes, c: Byte, q: Byte) returns (r: Bytes)
    ensures r == Quoted(s, c, q)
  {
    hide Escaped;
    r := [c];
    var i := 0;
    assert s[0..] == s;
    while i < |s|
      invariant 0 <= i <= |s|
      invariant r + Escaped(s[i..], c, q) == [c] + Escaped(s, c, q)
    {
      EscapedStep(s, i, r, c, q);
      ghost var r0 := r;
      if s[i] == c || s[i] == q { r := r + [q]; }
      r := r + [s[i]];
      assert r == r0 + if s[i] == c || s[i] == q then [q, s[i]] else [s[i]];
      i := i + 1;
    }
    EscapedEnd(s, r, c, q);
    r := r + [c];
  }

  /** From `i` down, past pairs of escape characters. */
  function PastPairs(s: Bytes, q: Byte, i: int): (r: int)
    requires -1 <= i < |s|
    ensures -1 <= r <= i && (i >= 0 ==> r >= 0)
    decreases i + 1
  {
    if i > 1 && s[i] == q && s[i - 1] == q then PastPairs(s, q, i - 2) else i
  }

  predicate IsQuoted(s: Bytes, c: Byte, q: Byte)
  {
    && |s| >= 2 && s[0] == c && s[|s| - 1] == c
    && var i := PastPairs(s, q, |s| - 2); i == 0 || s[i] != q
  }

  method CheckQuoted(s: Bytes, c: Byte, q: Byte) returns (r: bool)
    ensures r == IsQuoted(s, c, q)
  {
    if |s| < 2 || s[0] != c || s[|s| - 1] != c { return false; }
    var i := |s| - 2;
    while i > 1 && s[i] == q && s[i - 1] == q
      invariant 0 <= i <= |s| - 2
      invariant PastPairs(s, q, |s| - 2) == PastPairs(s, q, i)
    {
      i := i - 2;
    }
    if i == 0 { return true; }
    if s[i] == q { return false; }
    return true;
  }

  /** From `i` to just before the last byte, an escape character stands for the byte after it. */
  function UnescapedFrom(s: Bytes, q: Byte, i: nat): Bytes
    requires |s| > 0
    decreases |s| - i
  {
    if i >= |s| - 1 then []
    else if s[i] == q then [s[i + 1]] + UnescapedFrom(s, q, i + 2)
    else [s[i]] + UnescapedFrom(s, q, i + 1)
  }

  function Unquoted(s: Bytes, c: Byte, q: Byte): Bytes
  {
    if IsQuoted(s, c, q) then UnescapedFrom(s, q, 1) else s
  }

  method Unquote(s: Bytes, c: Byte, q: Byte) returns (r: Bytes)
    ensures r == Unquoted(s, c, q)
  {
    var quoted := CheckQuoted(s, c, q);
    if !quoted { return s; }
    r := [];
    var i := 1;
    while i < |s| - 1
      invariant 1 <= i <= |s|
      invariant r + UnescapedFrom(s, q, i) == UnescapedFrom(s, q, 1)
    {
      ghost var r0, i0 := r, i;
      if s[i] == q { i := i + 1; }
      r := r + [s[i]];
      i := i + 1;
      assert r0 + UnescapedFrom(s, q, i0) == r0 + ([s[i - 1]] + UnescapedFrom(s, q, i));
      assert r0 + ([s[i - 1]] + UnescapedFrom(s, q, i)) == r0 + [s[i - 1]] + UnescapedFrom(s, q, i);
    }
  }

  // -------------------------------------------------------------- round trip

  /** Unescaping reads the escaped text back from the middle of a string. */
  lemma {:induction false} UnescapeEscaped(t: Bytes, c: Byte, q: Byte, i: nat, s: Bytes)
    requires i < |t| && t[i..|t| - 1] == Escaped(s, c, q)
    ensures UnescapedFrom(t, q, i) == s
    decreases |s|
  {
    if s != [] {
      var w := t[i..|t| - 1];
      assert t[i] == w[0];
      if s[0] == c || s[0] == q {
        assert t[i + 1] == w[1];
        assert t[i + 2..|t| - 1] == w[2..] == Escaped(s[1..], c, q);
        UnescapeEscaped(t, c, q, i + 2, s[1..]);
      } else {
        assert t[i + 1..|t| - 1] == w[1..] == Escaped(s[1..], c, q);
        UnescapeEscaped(t, c, q, i + 1, s[1..]);
      }
    }
  }

  /** Escaping from the right: the last byte, with its escape. */
  lemma {:induction false} EscapedSnoc(s: Bytes, b: Byte, c: Byte, q: Byte)
    ensures Escaped(s + [b], c, q) == Escaped(s, c, q) + (if b == c || b == q then [q, b] else [b])
  {
    if s == [] {
      assert s + [b] == [b] && [b][1..] == [];
    } else {
      assert (s + [b])[1..] == s[1..] + [b];
      EscapedSnoc(s[1..], b, c, q);
      var h, t := if s[0] == c || s[0] == q then [q, s[0]] else [s[0]], Escaped(s[1..], c, q);
      var w := if b == c || b == q then [q, b] else [b];
      assert h + (t + w) == (h + t) + w;
    }
  }

  /** A string that ends in an escaped text and the quote is not ended by an escaped quote. */
  lemma {:induction false} QuoteStands(s: Bytes, c: Byte, q: Byte)
    ensures var t := Quoted(s, c, q); var i := PastPairs(t, q, |t| - 2); i == 0 || t[i] != q
    decreases |s|
  {
    var t := Quoted(s, c, q);
    if s != [] {
      var init, b := s[..|s| - 1], s[|s| - 1];
      assert s == init + [b];
      EscapedSnoc(init, b, c, q);
      var e := Escaped(init, c, q);
      if b == q {
        var t' := Quoted(init, c, q);
        QuoteStands(init, c, q);
        assert t == [c] + e + [q, q] + [c];
        PairsPrefix(t, t', q, |t'| - 2);
      }
    }
  }

  lemma {:induction false} PairsPrefix(t: Bytes, t': Bytes, q: Byte, i: int)
    requires -1 <= i < |t| && i < |t'| && forall k :: 0 <= k <= i ==> t[k] == t'[k]
    ensures PastPairs(t, q, i) == PastPairs(t', q, i)
    decreases i + 1
  {
    if i > 1 { PairsPrefix(t, t', q, i - 2); }
  }

  /** Unquoting undoes quoting, for every string and every choice of characters, even `c == q`. */
  lemma QuotingInverse(s: Bytes, c: Byte, q: Byte)
    ensures IsQuoted(Quoted(s, c, q), c, q)
    ensures Unquoted(Quoted(s, c, q), c, q) == s
  {
    var t := Quoted(s, c, q);
    QuoteStands(s, c, q);
    assert t[1..|t| - 1] == Escaped(s, c, q);
    UnescapeEscaped(t, c, q, 1, s);
  }

  // ------------------------------------------------- what is quoted, and how

  /** How many escape characters in a row a text ends with. */
  function TrailingEscapes(x: Bytes, q: Byte): nat
  {
    if x != [] && x[|x| - 1] == q then 1 + TrailingEscapes(x[..|x| - 1], q) else 0
  }

  lemma TrailingStep(s: Bytes, q: Byte, i: nat)
    requires 0 < i < |s|
    ensures TrailingEscapes(s[1..i + 1], q) == if s[i] == q then 1 + TrailingEscapes(s[1..i], q) else 0
  {
    var x := s[1..i + 1];
    assert x[|x| - 1] == s[i] && x[..|x| - 1] == s[1..i];
  }

  lemma {:induction false} PairsMean(s: Bytes, q: Byte, i: nat)
    requires i + 1 < |s|
    ensures var r := PastPairs(s, q, i); (r == 0 || s[r] != q) <==> TrailingEscapes(s[1..i + 1], q) % 2 == 0
    decreases i
  {
    if i > 0 {
      TrailingStep(s, q, i);
      if i > 1 {
        TrailingStep(s, q, i - 1);
        PairsMean(s, q, i - 2);
      } else {
        assert s[1..1] == [];
      }
    }
  }

  /** Exactly texts between two quotes of which the last is not escaped are quoted. */
  lemma QuotedMeans(s: Bytes, c: Byte, q: Byte)
    ensures IsQuoted(s, c, q) <==>
            |s| >= 2 && s[0] == c && s[|s| - 1] == c && TrailingEscapes(s[1..|s| - 1], q) % 2 == 0
  {
    if |s| >= 2 { PairsMean(s, q, |s| - 2); }
  }

  /** Byte by byte, only the quote and the escape are escaped. */
  lemma {:induction false} EscapesBytes(a: Bytes, b: Bytes, x: Byte, c: Byte, q: Byte)
    ensures Escaped(a + [x] + b, c, q) == Escaped(a, c, q) + (if x == c || x == q then [q, x] else [x]) + Escaped(b, c, q)
  {
    hide Escaped;
    EscapedSnoc(a, x, c, q);
    EscapedConcat(a + [x], b, c, q);
  }

  lemma {:induction false} EscapedConcat(a: Bytes, b: Bytes, c: Byte, q: Byte)
    ensures Escaped(a + b, c, q) == Escaped(a, c, q) + Escaped(b, c, q)
  {
    if a == [] {
      assert a + b == b;
    } else {
      assert (a + b)[0] == a[0] && (a + b)[1..] == a[1..] + b;
      EscapedConcat(a[1..], b, c, q);
      var h, r, e := if a[0] == c || a[0] == q then [q, a[0]] else [a[0]], Escaped(a[1..], c, q), Escaped(b, c, q);
      assert h + (r + e) == h + r + e;
    }
  }

  /** Inside quotes: a character that is no escape, or an escape and any character. */
  datatype Unit = Char(b: Byte) | Pair(b: Byte)

  function UnitsText(us: seq<Unit>, q: Byte): Bytes
  {
    if us == [] then [] else (if us[0].Char? then [us[0].b] else [q, us[0].b]) + UnitsText(us[1..], q)
  }

  function UnitsMeaning(us: seq<Unit>): Bytes { if us == [] then [] else [us[0].b] + UnitsMeaning(us[1..]) }

  predicate UnitsOk(us: seq<Unit>, q: Byte) { forall k :: 0 <= k < |us| && us[k].Char? ==> us[k].b != q }

  lemma {:induction false} UnescapesUnits(t: Bytes, q: Byte, i: nat, us: seq<Unit>)
    requires i < |t| && UnitsOk(us, q) && t[i..|t| - 1] == UnitsText(us, q)
    ensures UnescapedFrom(t, q, i) == UnitsMeaning(us)
    decreases |us|
  {
    if us != [] {
      var w, n := t[i..|t| - 1], if us[0].Char? then 1 else 2;
      assert t[i] == w[0] && (n == 2 ==> t[i + 1] == w[1]);
      assert t[i + n..|t| - 1] == w[n..] == UnitsText(us[1..], q);
      UnescapesUnits(t, q, i + n, us[1..]);
    }
  }

  /** Unquoting a quoted text drops the quotes and the escapes; any other text is left alone. */
  lemma Unquotes(us: seq<Unit>, c: Byte, q: Byte, s: Bytes)
    requires UnitsOk(us, q)
    ensures var t := [c] + UnitsText(us, q) + [c]; IsQuoted(t, c, q) ==> Unquoted(t, c, q) == UnitsMeaning(us)
    ensures !IsQuoted(s, c, q) ==> Unquoted(s, c, q) == s
  {
    var t := [c] + UnitsText(us, q) + [c];
    assert t[1..|t| - 1] == UnitsText(us, q);
    UnescapesUnits(t, q, 1, us);
  }

  // ------------------------------------------------------------ boring words

  predicate IsBoringChar(c: Byte)
  {
    IsAlnum(c) || c == 33 || c == 35 || c == 36 || c == 38 || c == 43 || c == DASH
  }

  /** Characters that never need quoting in a MIME parameter. */
  predicate IsMIMEBoringChar(c: Byte) { IsBoringChar(c) || c == DOT }

  lemma BoringChars(c: Byte)
    ensures IsMIMEBoringChar(c) <==> IsAlnum(c) || Among(c, "!#$&+-.")
  {
    var w := "!#$&+-.";
    assert w[0] == '!' && w[1] == '#' && w[2] == '$' && w[3] == '&' && w[4] == '+' && w[5] == '-' && w[6] == '.' && |w| == 7;
  }

  predicate IsMIMEBoring(s: Bytes)
  {
    s != [] && forall k :: 0 <= k < |s| ==> IsMIMEBoringChar(s[k])
  }

  method CheckMIMEBoring(s: Bytes) returns (r: bool)
    ensures r == IsMIMEBoring(s)
  {
    if s == [] { return false; }
    var i, exciting := 0, false;
    while i < |s| && !exciting
      invariant 0 <= i <= |s|
      invariant exciting <==> exists k :: 0 <= k < i && !IsMIMEBoringChar(s[k])
    {
      if !IsMIMEBoringChar(s[i]) { exciting := true; }
      i := i + 1;
    }
    return !exciting;
  }
}
