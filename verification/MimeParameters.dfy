/**
  MIME parameters (section 5.1 of RFC 2045): printing them packed into folded
  lines, and parsing them back.  Which charset names are known is a parameter;
  a slice out of range is the outcome `OutOfRange`.
 */
module MimeParameters {
  import opened Octets
  import opened Tokens
  import opened LineWidth
  import Quoting

  datatype Parameter = Parameter(name: Bytes, value: Bytes)

  datatype Outcome = OutOfRange | Params(list: seq<Parameter>)

  const CHARSET: Bytes := [99, 104, 97, 114, 115, 101, 116]

  // ----------------------------------------------------------------- parsing

  predicate IsSeparator(c: Byte)
  {
    c == SEMICOLON || c == SP || c == HT || c == CR || c == LF || c == DQUOTE
  }

  predicate NotStar(c: Byte) { c != STAR }

  /** A decimal number with an optional sign. */
  predicate IsNumber(s: Bytes)
  {
    var d := if s != [] && (s[0] == 43 || s[0] == DASH) then s[1..] else s;
    d != [] && forall k :: 0 <= k < |d| ==> IsDigit(d[k])
  }

  /** A parameter's name, and whether it is one numbered part of a longer value. */
  datatype Name = Name(text: Bytes, part: bool)

  function NameOf(n: Bytes): Name
  {
    var star := SpanEnd(n, 0, NotStar);
    if star < |n| && IsNumber(n[star + 1..]) then Name(n[..star], true) else Name(n, false)
  }

  /** The place of the first parameter with that name; the length if there is none. */
  function Find(ps: seq<Parameter>, n: Bytes): (i: nat)
    ensures i <= |ps|
    ensures i < |ps| ==> ps[i].name == n
    ensures forall k :: 0 <= k < i ==> ps[k].name != n
  {
    if ps == [] || ps[0].name == n then 0 else 1 + Find(ps[1..], n)
  }

  /** A numbered part only makes sure that the parameter exists. */
  function Stored(ps: seq<Parameter>, n: Name, value: Bytes): seq<Parameter>
  {
    if n.text == [] then ps
    else
      var i := Find(ps, n.text);
      var qs := if i < |ps| then ps else ps + [Parameter(n.text, [])];
      if n.part then qs else qs[i := Parameter(n.text, value)]
  }

  datatype Tail = Tail(ok: bool, at: nat)

  /** The rest of an unquoted value: dot-atoms and further values up to a semicolon or a quote. */
  function ValueTail(s: Bytes, at: nat): (t: Tail)
    ensures t.at >= at
    decreases |s| - at
  {
    if at >= |s| || s[at] == SEMICOLON || s[at] == DQUOTE then Tail(true, at)
    else
      var d := DotAtom(s, at);
      if d.text != [] then ValueTail(s, d.at)
      else
        var v := MIMEValue(s, d.at);
        if v.text != [] then ValueTail(s, v.at) else Tail(false, v.at)
  }

  function ValueAt(s: Bytes, at: nat): (r: Option<Token>)
    ensures r.Some? ==> r.value.at >= at
  {
    var v := MIMEValue(s, at);
    if NextChar(s, at) == DQUOTE then Some(v)
    else
      var t := ValueTail(s, v.at);
      if !t.ok then Some(Token(v.text, t.at))
      else if t.at > |s| then None
      else Some(Token(s[at..t.at], t.at))
  }

  /** One parameter, from its name on. */
  datatype Step = Stop(ps: seq<Parameter>) | Crash | Next(ps: seq<Parameter>, at: nat)

  function ParameterAt(s: Bytes, at: nat, ps: seq<Parameter>, isContentType: bool, known: Bytes -> bool): (r: Step)
    ensures r.Next? ==> r.at > at
  {
    var token := MIMEToken(s, at);
    var n := NameOf(Lower(token.text));
    var a := Comment(s, token.at).at;
    if token.text == [] then Stop(ps)
    else if isContentType && a >= |s| && known(n.text) && Find(ps, CHARSET) == |ps| then
      Stop(ps + [Parameter(CHARSET, n.text)])
    else if NextChar(s, a) != EQUALS then Stop(ps)
    else
      match ValueAt(s, Whitespace(s, a + 1).at)
      case None => Crash
      case Some(v) => Next(Stored(ps, n, v.text), Comment(s, v.at).at)
  }

  function ParseFrom(s: Bytes, at: nat, ps: seq<Parameter>, isContentType: bool, known: Bytes -> bool, first: bool): Outcome
    decreases |s| - at
  {
    var sep := Run(s, at, IsSeparator).at;
    if sep >= |s| || (sep == at && !first) then Params(ps)
    else
      match ParameterAt(s, sep, ps, isContentType, known)
      case Stop(qs) => Params(qs)
      case Crash => OutOfRange
      case Next(qs, a) => ParseFrom(s, a, qs, isContentType, known, false)
  }

  // ------------------------------------------- when the cursor leaves the text

  lemma {:induction false} ValueTailStays(s: Bytes, at: nat)
    requires EndsPlain(s) && at <= |s|
    ensures ValueTail(s, at).at <= |s|
    decreases |s| - at
  {
    hide DotAtom, MIMEValue;
    if at < |s| && s[at] != SEMICOLON && s[at] != DQUOTE {
      var d := DotAtom(s, at);
      DotAtomStays(s, at);
      MIMEValueStays(s, d.at);
      if d.text != [] {
        ValueTailStays(s, d.at);
      } else if MIMEValue(s, d.at).text != [] {
        ValueTailStays(s, MIMEValue(s, d.at).at);
      }
    }
  }

  lemma ValueStays(s: Bytes, at: nat)
    requires EndsPlain(s) && at <= |s|
    ensures ValueAt(s, at).Some? && ValueAt(s, at).value.at <= |s|
  {
    hide MIMEValue, ValueTail;
    MIMEValueStays(s, at);
    ValueTailStays(s, MIMEValue(s, at).at);
  }

  lemma ParameterStays(s: Bytes, at: nat, ps: seq<Parameter>, isContentType: bool, known: Bytes -> bool)
    requires EndsPlain(s) && at <= |s|
    ensures var r := ParameterAt(s, at, ps, isContentType, known); !r.Crash? && (r.Next? ==> r.at <= |s|)
  {
    hide ValueAt, Comment, Stored, NameOf;
    CommentStays(s, at);
    var token := MIMEToken(s, at);
    CommentStays(s, token.at);
    var a := Comment(s, token.at).at;
    if NextChar(s, a) == EQUALS {
      var v := Whitespace(s, a + 1).at;
      ValueStays(s, v);
      CommentStays(s, ValueAt(s, v).value.at);
    }
  }

  /** Only a text that ends with a backslash can make the parser slice out of range. */
  lemma {:induction false} ParsingStays(s: Bytes, at: nat, ps: seq<Parameter>, isContentType: bool, known: Bytes -> bool, first: bool)
    requires EndsPlain(s) && at <= |s|
    ensures ParseFrom(s, at, ps, isContentType, known, first).Params?
    decreases |s| - at
  {
    hide ParameterAt;
    var sep := Run(s, at, IsSeparator).at;
    if sep < |s| && (sep != at || first) {
      ParameterStays(s, sep, ps, isContentType, known);
      var r := ParameterAt(s, sep, ps, isContentType, known);
      if r.Next? { ParsingStays(s, r.at, r.ps, isContentType, known, false); }
    }
  }

  lemma BackslashCrash(s: Bytes, isContentType: bool, known: Bytes -> bool)
    requires s == [97, EQUALS, LPAREN, BACKSLASH]
    ensures ParameterAt(s, 0, [], isContentType, known) == Crash
  {
    hide Comment, Run, NameOf, ValueAt, Stored;
    CommentNone(s, 0);
    CommentNone(s, 1);
    TokenRead(s);
    RunStep(s, 2, IsWhitespace, []);
    PastTheEnd(s);
  }

  /** For example `a=(` and a backslash. */
  lemma BackslashStops(isContentType: bool, known: Bytes -> bool)
    ensures ParseFrom([97, EQUALS, LPAREN, BACKSLASH], 0, [], isContentType, known, true) == OutOfRange
  {
    hide Comment, Run, NameOf, ParameterAt;
    var s := [97, EQUALS, LPAREN, BACKSLASH];
    RunStep(s, 0, IsSeparator, []);
    BackslashCrash(s, isContentType, known);
  }

  lemma TokenRead(s: Bytes)
    requires s == [97, EQUALS, LPAREN, BACKSLASH]
    ensures Run(s, 0, IsTokenChar) == Token([97], 1)
  {
    SpanIs(s, 0, IsTokenChar, 1);
  }

  /** The escape in the comment steps over the end. */
  lemma PastTheEnd(s: Bytes)
    requires s == [97, EQUALS, LPAREN, BACKSLASH]
    ensures ValueAt(s, 2) == None
  {
    RunStep(s, 2, IsWhitespace, []);
    assert CommentBite(s, 3, 1) == Bite([NUL], 2, 1);
    assert CommentRest(s, 3, 1, []).at == 5;
    assert Comments(s, 5, CommentRest(s, 3, 1, []).text).at == 5;
    assert Comment(s, 2).at == 5;
    assert MIMEValue(s, 2).at == 5;
  }

  // ---------------------------------------------------------------- printing

  const EQ: Bytes := [EQUALS]
  const FOLD: Bytes := [SEMICOLON, CR, LF, SP]
  const INLINE: Bytes := [SEMICOLON, SP]

  function ValueText(v: Bytes): Bytes
  {
    if Quoting.IsMIMEBoring(v) then v else Quoting.Quoted(v, DQUOTE, SQUOTE)
  }

  function WordText(p: Parameter): Bytes { p.name + EQ + ValueText(p.value) }

  function WordTexts(ps: seq<Parameter>): (ws: seq<Bytes>)
    ensures |ws| == |ps| && forall k :: 0 <= k < |ps| ==> ws[k] == WordText(ps[k])
  {
    seq(|ps|, k requires 0 <= k < |ps| => WordText(ps[k]))
  }

  /** The first word that still fits on a line of that length; the number of words if none does. */
  function FirstFit(words: seq<Bytes>, len: nat): (i: nat)
    ensures i <= |words|
    ensures i < |words| ==> len + 2 + |words[i]| <= 78
    ensures forall k :: 0 <= k < i ==> len + 2 + |words[k]| > 78
  {
    if words == [] || len + 2 + |words[0]| <= 78 then 0 else 1 + FirstFit(words[1..], len)
  }

  /** Words are taken as they fit; when none fits, the first one opens a new line. */
  function Packed(s: Bytes, len: nat, words: seq<Bytes>): Bytes
    decreases |words|
  {
    if words == [] then s
    else
      var i := FirstFit(words, len);
      if i < |words| then Packed(s + INLINE + words[i], len + 2 + |words[i]|, Without(words, i))
      else Packed(s + FOLD + words[0], 1 + |words[0]|, words[1..])
  }

  lemma PackedUnfold(s: Bytes, len: nat, words: seq<Bytes>)
    requires words != []
    ensures var i := FirstFit(words, len);
            Packed(s, len, words) == if i < |words| then Packed(s + INLINE + words[i], len + 2 + |words[i]|, Without(words, i))
                                     else Packed(s + FOLD + words[0], 1 + |words[0]|, Without(words, 0))
  {
    hide FirstFit;
    assert Without(words, 0) == words[1..];
  }

  function Printed(fieldName: Bytes, base: Bytes, ps: seq<Parameter>): Bytes
  {
    Packed(base, |fieldName| + 2 + |base|, WordTexts(ps))
  }

  // -------------------------------------------------------------- round trip

  /** A lower-case token without `*`. */
  predicate LegalName(n: Bytes)
  {
    n != [] && forall k :: 0 <= k < |n| ==> IsTokenChar(n[k]) && !IsUpper(n[k]) && n[k] != STAR
  }

  predicate IsQuotable(c: Byte) { c != DQUOTE && c != SQUOTE && c != BACKSLASH && c != CR && c != LF }

  predicate LegalValue(v: Bytes) { forall k :: 0 <= k < |v| ==> IsQuotable(v[k]) }

  predicate Legal(p: Parameter) { LegalName(p.name) && LegalValue(p.value) }

  predicate AllLegal(ps: seq<Parameter>) { forall k :: 0 <= k < |ps| ==> Legal(ps[k]) }

  predicate DistinctNames(ps: seq<Parameter>)
  {
    forall i, j :: 0 <= i < j < |ps| ==> ps[i].name != ps[j].name
  }

  /** A parameter in print: on a new line or on the current one. */
  datatype Entry = Entry(fold: bool, p: Parameter)

  function Separator(fold: bool): Bytes { if fold then FOLD else INLINE }

  function Rendered(es: seq<Entry>): Bytes
  {
    if es == [] then [] else Separator(es[0].fold) + (WordText(es[0].p) + Rendered(es[1..]))
  }

  function Parameters(es: seq<Entry>): seq<Parameter>
  {
    if es == [] then [] else [es[0].p] + Parameters(es[1..])
  }

  // what the packer writes

  lemma WordTextsWithout(ps: seq<Parameter>, i: nat)
    requires i < |ps|
    ensures Without(WordTexts(ps), i) == WordTexts(Without(ps, i))
  {
  }

  lemma MultisetWithout<T>(s: seq<T>, i: nat)
    requires i < |s|
    ensures multiset(s) == multiset{s[i]} + multiset(Without(s, i))
  {
    assert s == s[..i] + [s[i]] + s[i + 1..];
  }

  lemma PackedStep(s: Bytes, len: nat, ps: seq<Parameter>) returns (e: Entry, i: nat, len': nat)
    requires ps != []
    ensures i < |ps| && e.p == ps[i]
    ensures Packed(s, len, WordTexts(ps)) == Packed(s + Separator(e.fold) + WordText(ps[i]), len', WordTexts(Without(ps, i)))
  {
    hide WordText, Packed, Without;
    var words := WordTexts(ps);
    PackedUnfold(s, len, words);
    var fit := FirstFit(words, len);
    i := if fit == |words| then 0 else fit;
    e := Entry(fit == |words|, ps[i]);
    len' := if e.fold then 1 + |words[0]| else len + 2 + |words[i]|;
    WordTextsWithout(ps, i);
  }

  lemma RenderedCons(s: Bytes, e: Entry, rest: seq<Entry>)
    ensures s + Separator(e.fold) + WordText(e.p) + Rendered(rest) == s + Rendered([e] + rest)
  {
    hide WordText;
    assert ([e] + rest)[1..] == rest && ([e] + rest)[0] == e;
    var a, w, r := Separator(e.fold), WordText(e.p), Rendered(rest);
    assert s + a + w + r == s + (a + (w + r));
  }

  lemma SameParameters(e: Entry, rest: seq<Entry>, ps: seq<Parameter>, i: nat)
    requires i < |ps| && e.p == ps[i] && multiset(Parameters(rest)) == multiset(Without(ps, i))
    ensures multiset(Parameters([e] + rest)) == multiset(ps)
  {
    assert ([e] + rest)[1..] == rest;
    MultisetWithout(ps, i);
  }

  lemma PackedNothing(s: Bytes, len: nat)
    ensures Packed(s, len, WordTexts([])) == s + Rendered([])
  {
    assert s + [] == s;
  }

  /** The packer prints every parameter once, in some order. */
  lemma {:induction false} PackedOrder(s: Bytes, len: nat, ps: seq<Parameter>) returns (es: seq<Entry>)
    ensures Packed(s, len, WordTexts(ps)) == s + Rendered(es)
    ensures multiset(Parameters(es)) == multiset(ps)
    decreases |ps|
  {
    hide WordText, Packed, Rendered;
    if ps == [] {
      es := [];
      PackedNothing(s, len);
    } else {
      var e, i, len' := PackedStep(s, len, ps);
      var rest := PackedOrder(s + Separator(e.fold) + WordText(e.p), len', Without(ps, i));
      es := [e] + rest;
      RenderedCons(s, e, rest);
      SameParameters(e, rest, ps, i);
    }
  }

  // what the parser reads

  lemma NoSpaceNoComment(s: Bytes, at: nat)
    requires !IsWhitespace(NextChar(s, at)) && NextChar(s, at) != LPAREN
    ensures Whitespace(s, at).at == at && Comment(s, at) == Token([], at)
  {
    if at < |s| { SpanIs(s, at, IsWhitespace, at); }
  }

  lemma RunIs(s: Bytes, at: nat, p: Byte -> bool, e: nat)
    requires at <= e <= |s| && (forall k :: at <= k < e ==> p(s[k])) && (e < |s| ==> !p(s[e]))
    ensures Run(s, at, p) == Token(s[at..e], e)
  {
    if at < |s| { SpanIs(s, at, p, e); }
  }

  /** White space inside a legal value is kept as it is. */
  lemma KeepsBlanks(s: Bytes, at: nat, e: nat)
    requires at < e < |s| && s[e] == DQUOTE && forall k :: at <= k < e ==> IsQuotable(s[k])
    ensures var w := Whitespace(s, at + 1).at; at < w <= e && Unfold(s[at..w]) == s[at..w]
  {
    SpanStops(s, at + 1, IsWhitespace, e);
  }

  lemma {:induction false} ReadsQuoted(s: Bytes, at: nat, e: nat, buf: Bytes)
    requires at <= e < |s| && s[e] == DQUOTE && forall k :: at <= k < e ==> IsQuotable(s[k])
    ensures QuotedRest(s, at, buf) == Token(buf + s[at..e], e + 1)
    decreases e - at
  {
    hide Whitespace, Unfold;
    if at == e {
      assert buf + s[at..e] == buf;
    } else if IsSpace(s[at]) {
      KeepsBlanks(s, at, e);
      var w := Whitespace(s, at + 1).at;
      ReadsQuoted(s, w, e, buf + s[at..w]);
      assert buf + s[at..w] + s[w..e] == buf + s[at..e];
    } else {
      ReadsQuoted(s, at + 1, e, buf + [s[at]]);
      assert buf + [s[at]] + s[at + 1..e] == buf + s[at..e];
    }
  }

  lemma {:induction false} NothingToEscape(v: Bytes)
    requires LegalValue(v)
    ensures Quoting.Escaped(v, DQUOTE, SQUOTE) == v
  {
    if v != [] {
      NothingToEscape(v[1..]);
      assert v == [v[0]] + v[1..];
    }
  }

  /** A name followed by `=` is read as it stands. */
  lemma ReadsName(s: Bytes, at: nat, n: Bytes)
    requires LegalName(n) && HasAt(s, at, n + EQ)
    ensures MIMEToken(s, at) == Token(n, at + |n|)
    ensures Comment(s, at + |n|).at == at + |n| && NextChar(s, at + |n|) == EQUALS
    ensures Lower(n) == n && NameOf(n) == Name(n, false)
  {
    var e := at + |n|;
    HasAtSplit(s, at, n, EQ);
    HasAtByte(s, e, EQ, 0);
    forall k | at <= k < e ensures s[k] == n[k - at] { HasAtByte(s, at, n, k - at); }
    NoSpaceNoComment(s, at);
    RunIs(s, at, IsTokenChar, e);
    NoSpaceNoComment(s, e);
    SpanIs(n, 0, NotStar, |n|);
  }

  /** What stands after a printed value. */
  predicate ValueEnds(s: Bytes, e: nat) { e == |s| || (e < |s| && s[e] == SEMICOLON) }

  lemma ReadsBoring(s: Bytes, at: nat, v: Bytes)
    requires Quoting.IsMIMEBoring(v) && HasAt(s, at, v) && ValueEnds(s, at + |v|)
    ensures Whitespace(s, at).at == at
    ensures ValueAt(s, at) == Some(Token(v, at + |v|))
  {
    var e := at + |v|;
    forall k | at <= k < e ensures s[k] == v[k - at] { HasAtByte(s, at, v, k - at); }
    NoSpaceNoComment(s, at);
    RunIs(s, at, IsTokenChar, e);
    assert MIMEValue(s, at) == Token(v, e);
  }

  lemma ReadsQuotedValue(s: Bytes, at: nat, v: Bytes)
    requires LegalValue(v) && HasAt(s, at, Quoting.Quoted(v, DQUOTE, SQUOTE))
    ensures Whitespace(s, at).at == at
    ensures ValueAt(s, at) == Some(Token(v, at + |v| + 2)) && |Quoting.Quoted(v, DQUOTE, SQUOTE)| == |v| + 2
  {
    hide QuotedRest, Comment, Whitespace;
    NothingToEscape(v);
    var w := [DQUOTE] + v + [DQUOTE];
    var e := at + 1 + |v|;
    HasAtByte(s, at, w, 0);
    HasAtByte(s, at, w, |v| + 1);
    forall k | at + 1 <= k < e ensures s[k] == v[k - at - 1] { HasAtByte(s, at, w, k - at); }
    NoSpaceNoComment(s, at);
    ReadsQuoted(s, at + 1, e, []);
    assert [] + s[at + 1..e] == v;
  }

  lemma ReadsValue(s: Bytes, at: nat, v: Bytes)
    requires LegalValue(v) && HasAt(s, at, ValueText(v)) && ValueEnds(s, at + |ValueText(v)|)
    ensures Whitespace(s, at).at == at
    ensures ValueAt(s, at) == Some(Token(v, at + |ValueText(v)|))
  {
    hide ValueAt, Whitespace, LegalValue, Quoting.IsMIMEBoring, Quoting.Quoted;
    if Quoting.IsMIMEBoring(v) {
      ReadsBoring(s, at, v);
    } else {
      ReadsQuotedValue(s, at, v);
    }
  }

  /** A printed word is read as its parameter. */
  lemma ReadsWord(s: Bytes, at: nat, p: Parameter, ps: seq<Parameter>, isContentType: bool, known: Bytes -> bool)
    requires Legal(p) && HasAt(s, at, WordText(p)) && ValueEnds(s, at + |WordText(p)|)
    ensures ParameterAt(s, at, ps, isContentType, known) == Next(Stored(ps, Name(p.name, false), p.value), at + |WordText(p)|)
  {
    hide ValueAt, MIMEToken, NameOf, Comment, Whitespace, Stored, ValueText, LegalValue, HasAt;
    HasAtSplit(s, at, p.name + EQ, ValueText(p.value));
    ReadsName(s, at, p.name);
    ReadsValue(s, at + |p.name| + 1, p.value);
    NoSpaceNoComment(s, at + |WordText(p)|);
    assert NextChar(s, at + |p.name|) == EQUALS;
  }

  lemma StoresNew(ps: seq<Parameter>, p: Parameter)
    requires LegalName(p.name) && forall k :: 0 <= k < |ps| ==> ps[k].name != p.name
    ensures Stored(ps, Name(p.name, false), p.value) == ps + [p]
  {
  }

  /** The separator before a word is skipped, and no more. */
  lemma SkipsSeparator(s: Bytes, at: nat, fold: bool, p: Parameter)
    requires Legal(p) && HasAt(s, at, Separator(fold) + WordText(p))
    ensures Run(s, at, IsSeparator).at == at + |Separator(fold)| < |s|
    ensures HasAt(s, at + |Separator(fold)|, WordText(p))
  {
    var w := Separator(fold);
    var e := at + |w|;
    HasAtSplit(s, at, w, WordText(p));
    forall k | at <= k < e ensures IsSeparator(s[k]) { HasAtByte(s, at, w, k - at); }
    HasAtByte(s, e, WordText(p), 0);
    assert WordText(p)[0] == p.name[0];
    RunIs(s, at, IsSeparator, e);
  }

  lemma RenderedSplit(s: Bytes, at: nat, es: seq<Entry>)
    requires es != [] && at <= |s| && s[at..] == Rendered(es)
    ensures var w := Separator(es[0].fold) + WordText(es[0].p); var e := at + |w|;
            HasAt(s, at, w) && s[e..] == Rendered(es[1..]) && ValueEnds(s, e)
  {
    hide WordText;
    var w, r := Separator(es[0].fold) + WordText(es[0].p), Rendered(es[1..]);
    assert Rendered(es) == w + r;
    var e := at + |w|;
    assert s[at..e] == s[at..][..|w|] == w;
    assert s[e..] == s[at..][|w|..] == r;
    if |es| > 1 {
      assert r[0] == SEMICOLON;
      assert s[e] == s[e..][0];
    }
  }

  lemma ParametersCons(es: seq<Entry>, ps: seq<Parameter>)
    requires es != []
    ensures ps + Parameters(es) == ps + [es[0].p] + Parameters(es[1..])
  {
    var a, b := [es[0].p], Parameters(es[1..]);
    assert ps + (a + b) == ps + a + b;
  }

  lemma ParseStep(s: Bytes, at: nat, ps: seq<Parameter>, isContentType: bool, known: Bytes -> bool, first: bool, sep: nat, qs: seq<Parameter>, a: nat)
    requires at < sep < |s| && Run(s, at, IsSeparator).at == sep
    requires ParameterAt(s, sep, ps, isContentType, known) == Next(qs, a)
    ensures ParseFrom(s, at, ps, isContentType, known, first) == ParseFrom(s, a, qs, isContentType, known, false)
  {
  }

  lemma ParseEnd(s: Bytes, ps: seq<Parameter>, isContentType: bool, known: Bytes -> bool, first: bool)
    ensures ParseFrom(s, |s|, ps, isContentType, known, first) == Params(ps)
  {
  }

  /** The parser reads printed entries in the order printed. */
  lemma {:induction false} ParseRendered(s: Bytes, at: nat, es: seq<Entry>, ps: seq<Parameter>, isContentType: bool, known: Bytes -> bool, first: bool)
    requires at <= |s| && s[at..] == Rendered(es)
    requires AllLegal(Parameters(es)) && DistinctNames(ps + Parameters(es))
    ensures ParseFrom(s, at, ps, isContentType, known, first) == Params(ps + Parameters(es))
    decreases |es|
  {
    hide WordText, ParameterAt, ParseFrom, Stored, Legal, Rendered, AllLegal, DistinctNames, HasAt, ValueEnds, Run;
    if es == [] {
      RenderedEmpty();
      assert at == |s| && ps + Parameters(es) == ps;
      ParseEnd(s, ps, isContentType, known, first);
    } else {
      var e := es[0];
      LegalRest(es);
      LegalStores(ps, e.p, Parameters(es));
      ParametersCons(es, ps);
      RenderedSplit(s, at, es);
      SkipsSeparator(s, at, e.fold, e.p);
      var sep := at + |Separator(e.fold)|;
      var next := sep + |WordText(e.p)|;
      ReadsWord(s, sep, e.p, ps, isContentType, known);
      ParseStep(s, at, ps, isContentType, known, first, sep, ps + [e.p], next);
      ParseRendered(s, next, es[1..], ps + [e.p], isContentType, known, false);
    }
  }

  lemma RenderedEmpty()
    ensures Rendered([]) == []
  {
  }

  lemma {:induction false} LegalRest(es: seq<Entry>)
    requires es != [] && AllLegal(Parameters(es))
    ensures Legal(es[0].p) && AllLegal(Parameters(es[1..]))
  {
    hide LegalName, LegalValue;
    var ps, rest := Parameters(es), Parameters(es[1..]);
    assert ps[0] == es[0].p;
    forall k | 0 <= k < |rest| ensures Legal(rest[k]) { assert Legal(ps[k + 1]) && ps[k + 1] == rest[k]; }
  }

  lemma LegalStores(ps: seq<Parameter>, p: Parameter, qs: seq<Parameter>)
    requires Legal(p) && qs != [] && qs[0] == p && DistinctNames(ps + qs)
    ensures Stored(ps, Name(p.name, false), p.value) == ps + [p]
  {
    forall k | 0 <= k < |ps| ensures ps[k].name != p.name {
      assert (ps + qs)[k] == ps[k] && (ps + qs)[|ps|] == p;
    }
    StoresNew(ps, p);
  }

  // the theorem

  lemma SameMembers(ps: seq<Parameter>, qs: seq<Parameter>)
    requires multiset(ps) == multiset(qs)
    ensures |ps| == |qs|
    ensures forall p :: p in ps <==> p in qs
  {
    assert |multiset(ps)| == |ps| && |multiset(qs)| == |qs|;
    forall p ensures p in ps <==> p in qs {
      assert p in ps <==> p in multiset(ps);
      assert p in qs <==> p in multiset(qs);
    }
  }

  /** Distinct names stay distinct under reordering. */
  lemma DistinctReordered(ps: seq<Parameter>, qs: seq<Parameter>)
    requires multiset(ps) == multiset(qs) && DistinctNames(ps)
    ensures DistinctNames(qs)
  {
    forall i, j | 0 <= i < j < |qs| ensures qs[i].name != qs[j].name {
      var a, b := qs[i], qs[j];
      SameMembers(ps, qs);
      assert a in ps && b in ps;
      var x :| 0 <= x < |ps| && ps[x] == a;
      if a == b {
        Twice(qs, i, j);
        Once(ps, x);
        assert false;
      } else {
        var y :| 0 <= y < |ps| && ps[y] == b;
        assert x < y || y < x;
      }
    }
  }

  lemma Twice<T>(s: seq<T>, i: nat, j: nat)
    requires i < j < |s| && s[i] == s[j]
    ensures multiset(s)[s[i]] >= 2
  {
    assert s == s[..i] + [s[i]] + s[i + 1..j] + [s[j]] + s[j + 1..];
  }

  lemma Once(ps: seq<Parameter>, x: nat)
    requires x < |ps| && DistinctNames(ps)
    ensures multiset(ps)[ps[x]] == 1
  {
    assert ps == ps[..x] + [ps[x]] + ps[x + 1..];
    assert ps[x] !in ps[..x] && ps[x] !in ps[x + 1..];
  }

  function Lookup(ps: seq<Parameter>, n: Bytes): Bytes
  {
    var i := Find(ps, Lower(n));
    if i < |ps| then ps[i].value else []
  }

  /**
    Parsing undoes printing: whatever the line packer makes of the parameters,
    parsing from the end of the base value on finds exactly the same parameters,
    possibly in another order, and every name has its value.
   */
  lemma ParametersInverse(fieldName: Bytes, base: Bytes, ps: seq<Parameter>, isContentType: bool, known: Bytes -> bool)
    requires AllLegal(ps) && DistinctNames(ps)
    ensures var r := ParseFrom(Printed(fieldName, base, ps), |base|, [], isContentType, known, true);
            && r.Params? && multiset(r.list) == multiset(ps)
            && forall k :: 0 <= k < |ps| ==> Lookup(r.list, ps[k].name) == ps[k].value
  {
    hide Packed, ParseFrom, Rendered, Legal, WordTexts, Lookup;
    var s := Printed(fieldName, base, ps);
    var es := PackedOrder(base, |fieldName| + 2 + |base|, ps);
    var qs := Parameters(es);
    assert s[|base|..] == Rendered(es);
    SameMembers(ps, qs);
    forall k | 0 <= k < |qs| ensures Legal(qs[k]) { assert qs[k] in ps; }
    DistinctReordered(ps, qs);
    assert [] + qs == qs;
    ParseRendered(s, |base|, es, [], isContentType, known, true);
    forall k | 0 <= k < |ps| ensures Lookup(qs, ps[k].name) == ps[k].value {
      assert ps[k] in qs;
      LookupFinds(qs, ps[k]);
    }
  }

  lemma LookupFinds(qs: seq<Parameter>, p: Parameter)
    requires p in qs && DistinctNames(qs) && Legal(p)
    ensures Lookup(qs, p.name) == p.value
  {
    var j :| 0 <= j < |qs| && qs[j] == p;
    assert Lower(p.name) == p.name;
    var i := Find(qs, p.name);
    assert i <= j;
  }

  // -------------------------------------------------------------- line width

  /** A semicolon before a fold comes on top of the 78 characters a line is packed to. */
  lemma FoldWidth(head: Bytes, s: Bytes, len: nat, w: Bytes)
    requires Narrow(head + s, 79) && LastLine(head + s, len) && len <= 78 && |w| <= 77
    ensures var r := head + (s + FOLD + w); Narrow(r, 79) && LastLine(r, 1 + |w|)
  {
    var out := head + s;
    var a := out + [SEMICOLON];
    NarrowAppend(out, len, [SEMICOLON], 79);
    NarrowBreak(a, CRLF, 79);
    NarrowAppend(a + CRLF, 0, [SP] + w, 79);
    assert head + (s + FOLD + w) == a + CRLF + ([SP] + w);
  }

  lemma InlineWidth(head: Bytes, s: Bytes, len: nat, w: Bytes)
    requires Narrow(head + s, 79) && LastLine(head + s, len) && len + 2 + |w| <= 78
    ensures var r := head + (s + INLINE + w); Narrow(r, 79) && LastLine(r, len + 2 + |w|)
  {
    NarrowAppend(head + s, len, INLINE + w, 79);
    assert head + (s + INLINE + w) == head + s + (INLINE + w);
  }

  lemma {:induction false} PackedWidth(head: Bytes, s: Bytes, len: nat, words: seq<Bytes>)
    requires Narrow(head + s, 79) && LastLine(head + s, len) && len <= 78
    requires forall k :: 0 <= k < |words| ==> |words[k]| <= 77
    ensures Narrow(head + Packed(s, len, words), 79)
    decreases |words|
  {
    hide Narrow, LastLine, FirstFit, Packed;
    if words == [] {
      PackedNone(s, len);
    } else {
      PackedUnfold(s, len, words);
      var i := FirstFit(words, len);
      if i < |words| {
        InlineWidth(head, s, len, words[i]);
        PackedWidth(head, s + INLINE + words[i], len + 2 + |words[i]|, Without(words, i));
      } else {
        FoldWidth(head, s, len, words[0]);
        PackedWidth(head, s + FOLD + words[0], 1 + |words[0]|, Without(words, 0));
      }
    }
  }

  lemma PackedNone(s: Bytes, len: nat)
    ensures Packed(s, len, []) == s
  {
  }

  /**
    If the field's name and base value fit in 78 characters and no word is
    longer than 77, no line of the printed field is longer than 79.
   */
  lemma PrintedWidth(fieldName: Bytes, base: Bytes, ps: seq<Parameter>)
    requires |fieldName| + 2 + |base| <= 78
    requires forall k :: 0 <= k < |ps| ==> |WordText(ps[k])| <= 77
    ensures LinesFit(fieldName + [COLON, SP] + Printed(fieldName, base, ps), 79)
  {
    hide WordText, Packed;
    var head := fieldName + [COLON, SP];
    PackedWidth(head, base, |fieldName| + 2 + |base|, WordTexts(ps));
    NarrowLines(head + Printed(fieldName, base, ps), 79);
  }

  /** 79 is reached: a first line that fills its 78 columns gets a semicolon before the first parameter. */
  lemma WidthReached(fieldName: Bytes, base: Bytes, p: Parameter)
    requires |fieldName| + 2 + |base| == 78 && NoBreaks(fieldName) && NoBreaks(base)
    ensures !LinesFit(fieldName + [COLON, SP] + Printed(fieldName, base, [p]), 78)
  {
    hide WordText, Packed;
    var words := WordTexts([p]);
    var w := words[0];
    PackedUnfold(base, 78, words);
    assert Without(words, 0) == [];
    PackedNone(base + FOLD + w, 1 + |w|);
    var head := fieldName + [COLON, SP];
    var r := head + (base + FOLD + w);
    var line := head + base + [SEMICOLON];
    assert r[0..79] == line;
    assert NoBreaks(line);
  }
}
