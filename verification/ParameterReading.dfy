/**
  What the parameter parser makes of any well-formed text: names in any case,
  numbered or not, white space around the equals sign, values of several words
  or in quotes, and names that occur more than once.
 */
module ParameterReading {
  import opened Octets
  import opened Tokens
  import opened TokenMeaning
  import opened MimeParameters

  // ------------------------------------------------------------------- names

  predicate IsPlain(n: Bytes) { STAR !in n }

  function Unsigned(d: Bytes): Bytes { if d != [] && (d[0] == '+' as int || d[0] == '-' as int) then d[1..] else d }

  predicate AllDigits(u: Bytes) { u != [] && forall k :: 0 <= k < |u| ==> '0' as int <= u[k] <= '9' as int }

  /** Digits, with a sign before them or not. */
  predicate Counts(d: Bytes) { AllDigits(Unsigned(d)) }

  lemma CountsMeans(d: Bytes)
    ensures Counts(d) <==> IsNumber(d)
  {
    var u := Unsigned(d);
    if IsNumber(d) {
      forall k | 0 <= k < |u| ensures '0' as int <= u[k] <= '9' as int { DigitIn(d, k); }
    }
    if Counts(d) {
      forall k | 0 <= k < |u| ensures IsDigit(u[k]) { assert '0' as int <= u[k] <= '9' as int; }
    }
  }

  lemma DigitIn(d: Bytes, k: nat)
    requires IsNumber(d) && k < |Unsigned(d)|
    ensures IsDigit(Unsigned(d)[k])
  {
    if d != [] && (d[0] == 43 || d[0] == DASH) { assert IsDigit(d[1..][k]); } else { assert IsDigit(d[k]); }
  }

  /** A number after the first star makes a numbered part; otherwise the star belongs to the name. */
  lemma NamesMean(n: Bytes, d: Bytes)
    requires IsPlain(n)
    ensures NameOf(n) == Name(n, false)
    ensures NameOf(n + ['*' as int] + d) == if Counts(d) then Name(n, true) else Name(n + ['*' as int] + d, false)
  {
    hide IsNumber;
    var s := n + ['*' as int] + d;
    forall k | 0 <= k < |n| ensures NotStar(n[k]) { assert n[k] in n; }
    assert forall k :: 0 <= k < |n| ==> s[k] == n[k];
    SpanIs(n, 0, NotStar, |n|);
    assert s[|n|] == STAR;
    SpanIs(s, 0, NotStar, |n|);
    assert s[|n| + 1..] == d && s[..|n|] == n;
    CountsMeans(d);
  }

  // ----------------------------------------------------------------- storing

  /** The names, in order. */
  function NamesIn(ps: seq<Parameter>): (r: seq<Bytes>)
    ensures |r| == |ps| && forall k :: 0 <= k < |ps| ==> r[k] == ps[k].name
  {
    seq(|ps|, k requires 0 <= k < |ps| => ps[k].name)
  }

  /** The value of the first parameter of that name, or nothing. */
  function ValueOf(ps: seq<Parameter>, n: Bytes): Option<Bytes>
  {
    if ps == [] then None else if ps[0].name == n then Some(ps[0].value) else ValueOf(ps[1..], n)
  }

  lemma {:induction false} ValueFound(ps: seq<Parameter>, n: Bytes)
    ensures ValueOf(ps, n) == if Find(ps, n) < |ps| then Some(ps[Find(ps, n)].value) else None
  {
    if ps != [] && ps[0].name != n { ValueFound(ps[1..], n); }
  }

  lemma {:induction false} ValueUpdated(ps: seq<Parameter>, i: nat, v: Bytes, m: Bytes)
    requires i < |ps| && i == Find(ps, ps[i].name)
    ensures ValueOf(ps[i := Parameter(ps[i].name, v)], m) == if m == ps[i].name then Some(v) else ValueOf(ps, m)
  {
    if i > 0 {
      assert ps[i := Parameter(ps[i].name, v)][1..] == ps[1..][i - 1 := Parameter(ps[i].name, v)];
      ValueUpdated(ps[1..], i - 1, v, m);
    } else {
      assert ps[0 := Parameter(ps[0].name, v)][1..] == ps[1..];
    }
  }

  lemma {:induction false} ValueAppended(ps: seq<Parameter>, p: Parameter, m: Bytes)
    ensures ValueOf(ps + [p], m) == if ValueOf(ps, m).Some? then ValueOf(ps, m) else if m == p.name then Some(p.value) else None
  {
    if ps == [] {
      assert ps + [p] == [p] && [p][1..] == [];
    } else {
      assert (ps + [p])[1..] == ps[1..] + [p];
      ValueAppended(ps[1..], p, m);
    }
  }

  /**
    Storing a value adds the name at the end unless it is there, gives it that
    value unless it is a numbered part, and changes no other parameter; without a
    name nothing is stored.
   */
  lemma StoresMean(ps: seq<Parameter>, n: Name, v: Bytes, m: Bytes)
    requires n.text != []
    ensures var r, was := Stored(ps, n, v), ValueOf(ps, n.text);
            && NamesIn(r) == NamesIn(ps) + (if was.Some? then [] else [n.text])
            && ValueOf(r, n.text) == (if !n.part then Some(v) else if was.Some? then was else Some([]))
            && (m != n.text ==> ValueOf(r, m) == ValueOf(ps, m))
    ensures Stored(ps, Name([], n.part), v) == ps
  {
    var i := Find(ps, n.text);
    ValueFound(ps, n.text);
    var qs := if i < |ps| then ps else ps + [Parameter(n.text, [])];
    ValueAppended(ps, Parameter(n.text, []), n.text);
    ValueAppended(ps, Parameter(n.text, []), m);
    FoundThere(ps, n.text);
    if !n.part {
      assert qs[i].name == n.text;
      ValueUpdated(qs, i, v, n.text);
      ValueUpdated(qs, i, v, m);
    }
  }

  lemma {:induction false} FoundThere(ps: seq<Parameter>, n: Bytes)
    ensures Find(ps, n) == |ps| ==> Find(ps + [Parameter(n, [])], n) == |ps|
  {
    if Find(ps, n) == |ps| {
      var qs := ps + [Parameter(n, [])];
      assert forall k :: 0 <= k < |ps| ==> qs[k].name != n;
      assert qs[|ps|].name == n;
      assert Find(qs, n) == |ps| by { Between(qs, n, |ps|); }
    }
  }

  lemma Between(qs: seq<Parameter>, n: Bytes, i: nat)
    requires i < |qs| && qs[i].name == n && forall k :: 0 <= k < i ==> qs[k].name != n
    ensures Find(qs, n) == i
  {
  }

  // ------------------------------------------------------------ values in words

  predicate IsBareChar(c: Byte) { IsTokenChar(c) || IsWhitespace(c) }

  /** From `at` to `e` words and white space, with a word last; then the value is over. */
  predicate BareTo(s: Bytes, at: nat, e: nat)
  {
    at <= e <= |s| && (forall k :: at <= k < e ==> IsBareChar(s[k])) && (at < e ==> IsTokenChar(s[e - 1])) && ValueEnds(s, e)
  }

  lemma CommentWithin(s: Bytes, x: nat, e: nat)
    requires BareTo(s, x, e)
    ensures var a := Comment(s, x).at; x <= a <= e && (x < e ==> a < e && IsTokenChar(s[a]))
  {
    if x < e {
      SpanStops(s, x, IsWhitespace, e - 1);
      var a := SpanEnd(s, x, IsWhitespace);
      assert IsBareChar(s[a]);
    } else {
      CommentNone(s, x);
    }
  }

  lemma AtomWithin(s: Bytes, x: nat, e: nat)
    requires BareTo(s, x, e)
    ensures Atom(s, x).at <= e
  {
    hide Comment;
    CommentWithin(s, x, e);
    var a := Comment(s, x).at;
    if a < |s| && e < |s| { SpanStops(s, a, IsAtext, e); }
  }

  lemma BareRest(s: Bytes, x: nat, y: nat, e: nat)
    requires BareTo(s, x, e) && x <= y <= e
    ensures BareTo(s, y, e)
  {
  }

  lemma {:induction false} DotsWithin(s: Bytes, x: nat, e: nat, text: Bytes)
    requires BareTo(s, x, e)
    ensures x <= DotAtomRest(s, x, text).at <= e
    decreases e - x
  {
    hide Comment, Atom, BareTo;
    CommentWithin(s, x, e);
    var dot := Comment(s, x).at;
    if NextChar(s, dot) == DOT {
      assert dot < e by { NotAtEnd(s, x, e); }
      BareRest(s, x, dot + 1, e);
      CommentWithin(s, dot + 1, e);
      var c := Comment(s, dot + 1).at;
      BareRest(s, dot + 1, c, e);
      AtomWithin(s, c, e);
      var a := Atom(s, c);
      if a.text != [] {
        BareRest(s, c, a.at, e);
        DotsWithin(s, a.at, e, text + [DOT] + a.text);
      }
    }
  }

  lemma NotAtEnd(s: Bytes, x: nat, e: nat)
    requires BareTo(s, x, e) && NextChar(s, Comment(s, x).at) == DOT
    ensures Comment(s, x).at < e
  {
    hide Comment;
    CommentWithin(s, x, e);
  }

  lemma DotAtomWithin(s: Bytes, x: nat, e: nat)
    requires BareTo(s, x, e)
    ensures x <= DotAtom(s, x).at <= e
    ensures DotAtom(s, x).text == [] ==> DotAtom(s, x).at == Comment(s, x).at
  {
    hide Comment, DotAtomRest, BareTo;
    AtomWithin(s, x, e);
    var a := Atom(s, x);
    if a.text != [] {
      BareRest(s, x, a.at, e);
      DotsWithin(s, a.at, e, a.text);
      DotTextSome(s, a.at, a.text);
    }
  }

  lemma {:induction false} DotTextSome(s: Bytes, at: nat, text: Bytes)
    requires text != []
    ensures DotAtomRest(s, at, text).text != []
    decreases |s| - at
  {
    hide Comment, Atom;
    var dot := Comment(s, at).at;
    if NextChar(s, dot) == DOT {
      var a := Atom(s, Comment(s, dot + 1).at);
      if a.text != [] { DotTextSome(s, a.at, text + [DOT] + a.text); }
    }
  }

  /** At a word, a token is read that ends with the value at the latest. */
  lemma TokenWithin(s: Bytes, x: nat, e: nat)
    requires BareTo(s, x, e) && x < e && IsTokenChar(s[x])
    ensures var v := MIMEValue(s, x); v.text != [] && x < v.at <= e && NextChar(s, x) != DQUOTE
  {
    hide QuotedRest;
    CommentNone(s, x);
    if e < |s| { SpanStops(s, x, IsTokenChar, e); }
  }

  lemma {:induction false} TailReads(s: Bytes, at: nat, e: nat)
    requires BareTo(s, at, e)
    ensures ValueTail(s, at) == Tail(true, e)
    decreases e - at
  {
    hide DotAtom, MIMEValue, Comment, BareTo;
    Bounds(s, at, e);
    if at < e {
      var d := DotAtom(s, at);
      DotAtomWithin(s, at, e);
      if d.text != [] {
        BareRest(s, at, d.at, e);
        TailReads(s, d.at, e);
      } else {
        CommentWithin(s, at, e);
        BareRest(s, at, d.at, e);
        TokenWithin(s, d.at, e);
        var v := MIMEValue(s, d.at);
        BareRest(s, d.at, v.at, e);
        TailReads(s, v.at, e);
      }
    }
  }

  lemma Bounds(s: Bytes, at: nat, e: nat)
    requires BareTo(s, at, e)
    ensures at <= e <= |s| && (at == e ==> at == |s| || s[at] == SEMICOLON)
    ensures at < e ==> s[at] != SEMICOLON && s[at] != DQUOTE
  {
    if at < e { assert IsBareChar(s[at]); }
  }

  // ----------------------------------------------------------------- entries

  /** A value as it may be written: words, or a quoted string. */
  datatype Value = Bare(t: Bytes) | InQuotes(us: seq<TokenMeaning.Unit>)
  {
    predicate Ok()
    {
      match this
      case Bare(t) => t != [] && IsTokenChar(t[0]) && IsTokenChar(t[|t| - 1]) && forall k :: 0 <= k < |t| ==> IsBareChar(t[k])
      case InQuotes(us) => TokenMeaning.Legal(us)
    }

    function Text(): (r: Bytes)
      requires Ok()
      ensures r != []
    {
      match this
      case Bare(t) => t
      case InQuotes(us) => [DQUOTE] + (TokenMeaning.Text(us) + [DQUOTE])
    }

    function Meaning(): Bytes
    {
      match this
      case Bare(t) => t
      case InQuotes(us) => TokenMeaning.Meaning(us)
    }
  }

  lemma ValueReads(s: Bytes, at: nat, v: Value)
    requires v.Ok() && HasAt(s, at, v.Text()) && ValueEnds(s, at + |v.Text()|)
    ensures ValueAt(s, at) == Some(Token(v.Meaning(), at + |v.Text()|))
    ensures Whitespace(s, at).at == at
  {
    hide HasAt, MIMEValue, ValueTail, Whitespace, TokenMeaning.Legal, TokenMeaning.Text, TokenMeaning.Meaning;
    HasAtBound(s, at, v.Text());
    HasAtByte(s, at, v.Text(), 0);
    match v
    case Bare(t) => BareReads(s, at, t);
    case InQuotes(us) =>
      assert [] + v.Text() == v.Text();
      ReadsString(s, at, [], us);
      NoGap(s, at);
  }

  lemma NoGap(s: Bytes, at: nat)
    requires at < |s| && !IsWhitespace(s[at])
    ensures Whitespace(s, at).at == at
  {
    RunStep(s, at, IsWhitespace, []);
  }

  lemma BareReads(s: Bytes, at: nat, t: Bytes)
    requires Bare(t).Ok() && HasAt(s, at, t) && ValueEnds(s, at + |t|)
    ensures ValueAt(s, at) == Some(Token(t, at + |t|)) && Whitespace(s, at).at == at
  {
    hide HasAt, MIMEValue, ValueTail, BareTo, Whitespace;
    var e := at + |t|;
    BareStands(s, at, t);
    Bounds(s, at, e);
    HasAtByte(s, at, t, 0);
    NoGap(s, at);
    TokenWithin(s, at, e);
    var x := MIMEValue(s, at).at;
    BareRest(s, at, x, e);
    TailReads(s, x, e);
    Whole(s, at, t);
  }

  lemma BareStands(s: Bytes, at: nat, t: Bytes)
    requires Bare(t).Ok() && HasAt(s, at, t) && ValueEnds(s, at + |t|)
    ensures BareTo(s, at, at + |t|)
  {
    forall k | at <= k < at + |t| ensures IsBareChar(s[k]) { HasAtByte(s, at, t, k - at); }
    HasAtByte(s, at, t, |t| - 1);
  }

  lemma Whole(s: Bytes, at: nat, t: Bytes)
    requires HasAt(s, at, t)
    ensures at + |t| <= |s| && s[at..at + |t|] == t
  {
  }

  /** A separator, a name, and a value; white space may stand around the equals sign. */
  datatype Given = Given(sep: Bytes, name: Bytes, before: Bytes, after: Bytes, value: Value)

  predicate IsName(n: Bytes) { n != [] && forall k :: 0 <= k < |n| ==> IsTokenChar(n[k]) }

  predicate LegalGiven(g: Given)
  {
    && g.sep != [] && g.sep[0] == SEMICOLON && (forall k :: 0 <= k < |g.sep| ==> Among(g.sep[k], "; \t\r\n\""))
    && IsName(g.name) && Blank(g.before) && Blank(g.after) && g.value.Ok()
  }

  function Phrase(g: Given): Bytes
    requires LegalGiven(g)
  {
    g.name + (g.before + ([EQUALS] + (g.after + g.value.Text())))
  }

  lemma SeparatorChars(c: Byte)
    ensures Among(c, "; \t\r\n\"") <==> IsSeparator(c)
  {
    var w := "; \t\r\n\"";
    assert w[0] == ';' && w[1] == ' ' && w[2] == '\t' && w[3] == '\r' && w[4] == '\n' && w[5] == '\"' && |w| == 6;
  }

  lemma NameReads(s: Bytes, at: nat, n: Bytes, gap: Bytes, next: Bytes)
    requires IsName(n) && Blank(gap) && HasAt(s, at, n + (gap + next)) && next != [] && next[0] == EQUALS
    ensures MIMEToken(s, at) == Token(n, at + |n|) && Comment(s, at + |n|).at == at + |n| + |gap|
  {
    hide Comment, HasAt;
    HasAtSplit(s, at, n, gap + next);
    HasAtByte(s, at, n, 0);
    HasAtByte(s, at + |n|, gap + next, 0);
    HasAtBound(s, at + |n|, gap + next);
    assert (gap + next)[0] == if gap == [] then EQUALS else gap[0];
    CommentNone(s, at);
    forall k | at <= k < at + |n| ensures IsTokenChar(s[k]) { HasAtByte(s, at, n, k - at); }
    RunIs(s, at, IsTokenChar, at + |n|);
    Whole(s, at, n);
    PastLead(s, at + |n|, gap, next);
  }

  lemma GapPassed(s: Bytes, at: nat, gap: Bytes, v: Value)
    requires Blank(gap) && v.Ok() && HasAt(s, at, gap + v.Text())
    ensures Whitespace(s, at).at == at + |gap|
  {
    hide HasAt;
    var next := v.Text();
    HasAtBound(s, at, gap + next);
    HasAtSplit(s, at, gap, next);
    HasAtByte(s, at + |gap|, next, 0);
    forall k | at <= k < at + |gap| ensures IsWhitespace(s[k]) { HasAtByte(s, at, gap, k - at); }
    RunIs(s, at, IsWhitespace, at + |gap|);
  }

  /** A name, an equals sign and a value are stored. */
  lemma GivenReads(s: Bytes, at: nat, g: Given, ps: seq<Parameter>, isContentType: bool, known: Bytes -> bool)
    requires LegalGiven(g) && HasAt(s, at, Phrase(g)) && ValueEnds(s, at + |Phrase(g)|)
    ensures ParameterAt(s, at, ps, isContentType, known) ==
            Next(Stored(ps, NameOf(Lower(g.name)), g.value.Meaning()), at + |Phrase(g)|)
  {
    hide HasAt, Comment, ValueAt, Whitespace, Stored, NameOf, MIMEToken, Lower, IsName, Blank, Value.Ok;
    var v := g.value.Text();
    var w := [EQUALS] + (g.after + v);
    NameReads(s, at, g.name, g.before, w);
    EqualsReads(s, at, g);
    CommentNone(s, at + |Phrase(g)|);
    NameSome(g.name);
  }

  lemma NameSome(n: Bytes)
    requires IsName(n)
    ensures n != []
  {
  }

  /** From the equals sign on. */
  lemma EqualsReads(s: Bytes, at: nat, g: Given)
    requires LegalGiven(g) && HasAt(s, at, Phrase(g)) && ValueEnds(s, at + |Phrase(g)|)
    ensures var q, e := at + |g.name| + |g.before|, at + |Phrase(g)|;
            && q < |s| && s[q] == EQUALS && e <= |s|
            && ValueAt(s, Whitespace(s, q + 1).at) == Some(Token(g.value.Meaning(), e))
  {
    hide HasAt, ValueAt, Whitespace, IsName, Blank, Value.Ok;
    var v := g.value.Text();
    var w, q := [EQUALS] + (g.after + v), at + |g.name| + |g.before|;
    HasAtBound(s, at, Phrase(g));
    HasAtSplit(s, at, g.name, g.before + w);
    HasAtSplit(s, at + |g.name|, g.before, w);
    HasAtSplit(s, q, [EQUALS], g.after + v);
    HasAtByte(s, q, [EQUALS], 0);
    GapPassed(s, q + 1, g.after, g.value);
    HasAtSplit(s, q + 1, g.after, v);
    assert q + 1 + |g.after| + |v| == at + |Phrase(g)|;
    ValueReads(s, q + 1 + |g.after|, g.value);
  }

  function Written(gs: seq<Given>): Bytes
    requires forall k :: 0 <= k < |gs| ==> LegalGiven(gs[k])
  {
    if gs == [] then [] else gs[0].sep + Phrase(gs[0]) + Written(gs[1..])
  }

  /** Each parameter is stored in turn. */
  function Result(ps: seq<Parameter>, gs: seq<Given>): seq<Parameter>
    decreases |gs|
  {
    if gs == [] then ps else Result(Stored(ps, NameOf(Lower(gs[0].name)), gs[0].value.Meaning()), gs[1..])
  }

  lemma SeparatorPassed(s: Bytes, at: nat, g: Given, rest: Bytes)
    requires LegalGiven(g) && at <= |s| && s[at..] == g.sep + Phrase(g) + rest && (rest != [] ==> rest[0] == SEMICOLON)
    ensures var sep, e := at + |g.sep|, at + |g.sep| + |Phrase(g)|;
            && at < sep < |s| && Run(s, at, IsSeparator).at == sep && HasAt(s, sep, Phrase(g))
            && e <= |s| && s[e..] == rest && ValueEnds(s, e)
  {
    hide HasAt, IsName, Value.Ok, Phrase, Run;
    var p := Phrase(g);
    var sep, e := at + |g.sep|, at + |g.sep| + |p|;
    assert s[at..] == g.sep + (p + rest);
    StandsFirst(s, at, g.sep, p + rest);
    StandsFirst(s, sep, p, rest);
    HasAtBound(s, sep, p);
    PhraseFirst(g);
    HasAtByte(s, sep, p, 0);
    SeparatorRun(s, at, g.sep);
    if rest != [] { assert s[e] == s[e..][0]; }
  }

  lemma PhraseFirst(g: Given)
    requires LegalGiven(g)
    ensures Phrase(g) != [] && !IsSeparator(Phrase(g)[0])
  {
    assert Phrase(g)[0] == g.name[0];
    NotSeparator(g.name);
  }

  lemma NotSeparator(n: Bytes)
    requires IsName(n)
    ensures !IsSeparator(n[0])
  {
  }

  lemma SeparatorRun(s: Bytes, at: nat, sep: Bytes)
    requires HasAt(s, at, sep) && (forall k :: 0 <= k < |sep| ==> Among(sep[k], "; \t\r\n\"")) && at + |sep| < |s| && !IsSeparator(s[at + |sep|])
    ensures Run(s, at, IsSeparator).at == at + |sep|
  {
    hide HasAt;
    forall k | at <= k < at + |sep| ensures IsSeparator(s[k]) {
      HasAtByte(s, at, sep, k - at);
      SeparatorChars(sep[k - at]);
    }
    RunIs(s, at, IsSeparator, at + |sep|);
  }

  /** The parser stores exactly the parameters given, in order, from any place on. */
  lemma {:induction false} Parses(s: Bytes, at: nat, gs: seq<Given>, ps: seq<Parameter>, isContentType: bool, known: Bytes -> bool, first: bool)
    requires (forall k :: 0 <= k < |gs| ==> LegalGiven(gs[k])) && at <= |s| && s[at..] == Written(gs)
    ensures ParseFrom(s, at, ps, isContentType, known, first) == Params(Result(ps, gs))
    decreases |gs|
  {
    hide HasAt, Run, ParameterAt, ParseFrom, Stored, NameOf, Lower, LegalGiven, Phrase;
    if gs == [] {
      ParseEnd(s, ps, isContentType, known, first);
    } else {
      var g, rest := gs[0], Written(gs[1..]);
      if |gs| > 1 { Separated(gs[1]); assert gs[1..][0] == gs[1]; }
      SeparatorPassed(s, at, g, rest);
      var sep := at + |g.sep|;
      var e := sep + |Phrase(g)|;
      var qs := Stored(ps, NameOf(Lower(g.name)), g.value.Meaning());
      GivenReads(s, sep, g, ps, isContentType, known);
      ParseStep(s, at, ps, isContentType, known, first, sep, qs, e);
      Parses(s, e, gs[1..], qs, isContentType, known, false);
    }
  }

  lemma Separated(g: Given)
    requires LegalGiven(g)
    ensures g.sep != [] && g.sep[0] == SEMICOLON
  {
  }

  // ----------------------------------------------------- a charset on its own

  /** A last word without a value is a charset if it names one, in a Content-Type that has none yet. */
  lemma CharsetAlone(s: Bytes, at: nat, sep: Bytes, n: Bytes, ps: seq<Parameter>, isContentType: bool, known: Bytes -> bool, first: bool)
    requires sep != [] && (forall k :: 0 <= k < |sep| ==> Among(sep[k], "; \t\r\n\"")) && IsName(n) && IsPlain(Lower(n))
    requires at <= |s| && s[at..] == sep + n
    ensures ParseFrom(s, at, ps, isContentType, known, first) ==
            Params(if isContentType && known(Lower(n)) && ValueOf(ps, CHARSET) == None then ps + [Parameter(CHARSET, Lower(n))] else ps)
    ensures IsText(CHARSET, "charset")
  {
    hide Lower, NameOf, Run, MIMEToken, Comment, HasAt, IsPlain;
    var b := at + |sep|;
    StandsFirst(s, at, sep, n);
    assert n + [] == n;
    StandsFirst(s, b, n, []);
    HasAtByte(s, b, n, 0);
    NotSeparator(n);
    SeparatorRun(s, at, sep);
    LastName(s, b, n);
    NamesMean(Lower(n), []);
    ValueFound(ps, CHARSET);
  }

  lemma LastName(s: Bytes, b: nat, n: Bytes)
    requires IsName(n) && HasAt(s, b, n) && b + |n| == |s|
    ensures MIMEToken(s, b) == Token(n, |s|) && Comment(s, |s|).at == |s|
  {
    hide Comment;
    HasAtByte(s, b, n, 0);
    CommentNone(s, b);
    forall k | b <= k < |s| ensures IsTokenChar(s[k]) { HasAtByte(s, b, n, k - b); }
    RunIs(s, b, IsTokenChar, |s|);
    Whole(s, b, n);
    CommentNone(s, |s|);
  }
}
