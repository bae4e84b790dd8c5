/**
  What the token functions return: the text of quoted strings and dot-atoms, and
  the characters of which tokens are made.
 */
module TokenMeaning {
  import opened Octets
  import opened Tokens

  // -------------------------------------------------------------- characters

  /** Section 5.1 of RFC 2045: printable ASCII without the specials. */
  lemma TokenChars(c: Byte)
    ensures IsTokenChar(c) <==> 32 < c < 128 && !Among(c, "()<>@,;:[]?=\\\"/")
  {
    var w := "()<>@,;:[]?=\\\"/";
    assert w[0] == '(' && w[1] == ')' && w[2] == '<' && w[3] == '>' && w[4] == '@' && w[5] == ',' && w[6] == ';' && w[7] == ':';
    assert w[8] == '[' && w[9] == ']' && w[10] == '?' && w[11] == '=' && w[12] == '\\' && w[13] == '\"' && w[14] == '/' && |w| == 15;
  }

  /** Section 3.2.3 of RFC 5322: letters, digits and nineteen more characters. */
  lemma AtomChars(c: Byte)
    ensures IsAtext(c) <==> IsAlnum(c) || Among(c, "!#$%&'*+-/=?^_`{|}~")
  {
    var w := "!#$%&'*+-/=?^_`{|}~";
    assert w[0] == '!' && w[1] == '#' && w[2] == '$' && w[3] == '%' && w[4] == '&' && w[5] == '\'' && w[6] == '*' && w[7] == '+';
    assert w[8] == '-' && w[9] == '/' && w[10] == '=' && w[11] == '?' && w[12] == '^' && w[13] == '_' && w[14] == '`' && w[15] == '{';
    assert w[16] == '|' && w[17] == '}' && w[18] == '~' && |w| == 19;
  }

  lemma WhitespaceChars(c: Byte)
    ensures IsWhitespace(c) <==> Among(c, " \t\r\n") || c == 0xA0
  {
    ClassesAre(c);
  }

  // ----------------------------------------------------------- quoted strings

  /** A character, an escaped character, or white space. */
  datatype Unit = Char(b: Byte) | Pair(b: Byte) | Space(w: Bytes)
  {
    predicate Ok()
    {
      match this
      case Char(b) => b != DQUOTE && b != BACKSLASH && !IsSpace(b)
      case Pair(_) => true
      case Space(w) => w != [] && IsSpace(w[0]) && forall k :: 0 <= k < |w| ==> IsWhitespace(w[k])
    }

    function Text(): (r: Bytes)
      requires Ok()
      ensures r != []
    {
      match this
      case Char(b) => [b]
      case Pair(b) => [BACKSLASH, b]
      case Space(w) => w
    }

    /** White space with a line break in it is one space. */
    function Meaning(): Bytes
    {
      match this
      case Char(b) => [b]
      case Pair(b) => [b]
      case Space(w) => if CR in w || LF in w then [' ' as int] else w
    }
  }

  /** No white space follows white space. */
  predicate Legal(us: seq<Unit>)
  {
    us == [] ||
    (us[0].Ok() && Legal(us[1..]) && (us[0].Space? && |us| > 1 ==> !IsWhitespace(us[1].Text()[0])))
  }

  function Text(us: seq<Unit>): Bytes
    requires Legal(us)
  {
    if us == [] then [] else us[0].Text() + Text(us[1..])
  }

  function Meaning(us: seq<Unit>): Bytes { if us == [] then [] else us[0].Meaning() + Meaning(us[1..]) }

  lemma UnfoldMeans(w: Bytes)
    ensures Unfold(w) == if CR in w || LF in w then [' ' as int] else w
  {
  }

  lemma SpaceEnds(s: Bytes, at: nat, w: Bytes, next: Bytes)
    requires HasAt(s, at, w + next) && w != [] && next != [] && !IsWhitespace(next[0]) && forall k :: 0 <= k < |w| ==> IsWhitespace(w[k])
    ensures at < |s| && Whitespace(s, at + 1).at == at + |w| && at + |w| < |s| && s[at..at + |w|] == w && s[at] == w[0]
  {
    HasAtSplit(s, at, w, next);
    HasAtByte(s, at + |w|, next, 0);
    HasAtByte(s, at, w, 0);
    forall k | at + 1 <= k < at + |w| ensures IsWhitespace(s[k]) { HasAtByte(s, at, w, k - at); }
    SpanIs(s, at + 1, IsWhitespace, at + |w|);
  }

  lemma UnitReads(s: Bytes, at: nat, x: Unit, next: Bytes, buf: Bytes)
    requires x.Ok() && next != [] && HasAt(s, at, x.Text() + next) && (x.Space? ==> !IsWhitespace(next[0]))
    ensures QuotedRest(s, at, buf) == QuotedRest(s, at + |x.Text()|, buf + x.Meaning()) && HasAt(s, at + |x.Text()|, next)
  {
    hide Whitespace, Unfold, HasAt;
    var t := x.Text();
    HasAtSplit(s, at, t, next);
    HasAtByte(s, at, t, 0);
    match x
    case Char(b) =>
    case Pair(b) => HasAtByte(s, at, t, 1);
    case Space(w) =>
      SpaceEnds(s, at, w, next);
      UnfoldMeans(w);
  }

  lemma FirstByte(us: seq<Unit>)
    requires Legal(us) && us != []
    ensures Text(us) != [] && Text(us)[0] == us[0].Text()[0]
  {
  }

  lemma QuoteEnds(s: Bytes, at: nat, buf: Bytes)
    requires HasAt(s, at, [DQUOTE])
    ensures QuotedRest(s, at, buf) == Token(buf, at + 1)
  {
    HasAtByte(s, at, [DQUOTE], 0);
  }

  /** Up to the closing quote, each unit gives what it means. */
  lemma {:induction false} StringReads(s: Bytes, at: nat, us: seq<Unit>, buf: Bytes)
    requires Legal(us) && HasAt(s, at, Text(us) + [DQUOTE])
    ensures QuotedRest(s, at, buf) == Token(buf + Meaning(us), at + |Text(us)| + 1)
    decreases |us|
  {
    hide HasAt, QuotedRest;
    if us == [] {
      assert Text(us) + [DQUOTE] == [DQUOTE];
      QuoteEnds(s, at, buf);
      assert buf + [] == buf;
    } else {
      var x, rest := us[0], Text(us[1..]) + [DQUOTE];
      assert Text(us) + [DQUOTE] == x.Text() + rest;
      if us[1..] != [] { FirstByte(us[1..]); }
      UnitReads(s, at, x, rest, buf);
      StringReads(s, at + |x.Text()|, us[1..], buf + x.Meaning());
      assert buf + x.Meaning() + Meaning(us[1..]) == buf + (x.Meaning() + Meaning(us[1..]));
    }
  }

  /** A quoted string after white space. */
  lemma ReadsString(s: Bytes, at: nat, lead: Bytes, us: seq<Unit>)
    requires Blank(lead) && Legal(us) && HasAt(s, at, lead + ([DQUOTE] + (Text(us) + [DQUOTE])))
    ensures String(s, at) == Token(Meaning(us), at + |lead| + |Text(us)| + 2)
    ensures MIMEValue(s, at) == String(s, at)
  {
    hide HasAt, QuotedRest, Text, Meaning, Blank, Comment, Legal;
    var q, a := [DQUOTE] + (Text(us) + [DQUOTE]), at + |lead|;
    PastLead(s, at, lead, q);
    HasAtSplit(s, at, lead, q);
    HasAtSplit(s, a, [DQUOTE], Text(us) + [DQUOTE]);
    HasAtByte(s, a, [DQUOTE], 0);
    CommentNone(s, a);
    StringReads(s, a + 1, us, []);
    assert [] + Meaning(us) == Meaning(us);
  }

  lemma PastLead(s: Bytes, at: nat, lead: Bytes, next: Bytes)
    requires Blank(lead) && HasAt(s, at, lead + next)
    requires next != [] && !IsWhitespace(next[0]) && next[0] != LPAREN
    ensures Comment(s, at).at == at + |lead|
  {
    HasAtSplit(s, at, lead, next);
    HasAtByte(s, at + |lead|, next, 0);
    forall k | at <= k < at + |lead| ensures IsWhitespace(s[k]) { HasAtByte(s, at, lead, k - at); }
    SpanIs(s, at, IsWhitespace, at + |lead|);
  }

  // --------------------------------------------------------------- dot-atoms

  predicate Blank(w: Bytes) { forall k :: 0 <= k < |w| ==> IsWhitespace(w[k]) }

  predicate IsAtom(a: Bytes) { a != [] && forall k :: 0 <= k < |a| ==> IsAtext(a[k]) }

  /** A dot with white space around it, and the atom after it. */
  datatype Dotted = Dotted(before: Bytes, after: Bytes, atom: Bytes)

  predicate AllDotted(ds: seq<Dotted>)
  {
    forall k :: 0 <= k < |ds| ==> Blank(ds[k].before) && Blank(ds[k].after) && IsAtom(ds[k].atom)
  }

  function Head(x: Dotted): Bytes { x.before + ([DOT] + (x.after + x.atom)) }

  function DotText(ds: seq<Dotted>): Bytes { if ds == [] then [] else Head(ds[0]) + DotText(ds[1..]) }

  function Joined(ds: seq<Dotted>): Bytes { if ds == [] then [] else [DOT] + ds[0].atom + Joined(ds[1..]) }

  /** The atom at `at` ends where its text does. */
  lemma AtomReads(s: Bytes, at: nat, lead: Bytes, a: Bytes)
    requires Blank(lead) && IsAtom(a) && HasAt(s, at, lead + a)
    requires var e := at + |lead| + |a|; e == |s| || (e < |s| && !IsAtext(s[e]))
    ensures Atom(s, at) == Token(a, at + |lead| + |a|)
  {
    hide Comment, HasAt;
    HasAtBound(s, at, lead + a);
    PastLead(s, at, lead, a);
    HasAtSplit(s, at, lead, a);
    RunReads(s, at + |lead|, a);
  }

  lemma RunReads(s: Bytes, b: nat, a: Bytes)
    requires IsAtom(a) && HasAt(s, b, a) && (b + |a| == |s| || (b + |a| < |s| && !IsAtext(s[b + |a|])))
    ensures Run(s, b, IsAtext) == Token(a, b + |a|)
  {
    forall k | b <= k < b + |a| ensures IsAtext(s[k]) { HasAtByte(s, b, a, k - b); }
    SpanIs(s, b, IsAtext, b + |a|);
  }

  /** The character after an atom does not belong to it. */
  lemma AfterAtom(s: Bytes, e: nat, ds: seq<Dotted>)
    requires AllDotted(ds) && HasAt(s, e, DotText(ds)) && (ds == [] ==> e == |s| || (e < |s| && !IsAtext(s[e])))
    ensures e == |s| || (e < |s| && !IsAtext(s[e]))
  {
    HasAtBound(s, e, DotText(ds));
    if ds != [] {
      HasAtByte(s, e, DotText(ds), 0);
      assert DotText(ds)[0] == if ds[0].before == [] then DOT else ds[0].before[0];
    }
  }

  lemma DotReads(s: Bytes, at: nat, x: Dotted)
    requires Blank(x.before) && Blank(x.after) && IsAtom(x.atom) && HasAt(s, at, Head(x))
    requires var e := at + |Head(x)|; e == |s| || (e < |s| && !IsAtext(s[e]))
    ensures var dot := at + |x.before|;
            && Comment(s, at).at == dot && NextChar(s, dot) == DOT
            && Atom(s, Comment(s, dot + 1).at) == Token(x.atom, at + |Head(x)|)
  {
    hide HasAt, Comment, Blank, IsAtom;
    var y := x.after + x.atom;
    var dot := at + |x.before|;
    assert Head(x) == x.before + ([DOT] + y);
    PastLead(s, at, x.before, [DOT] + y);
    HasAtSplit(s, at, x.before, [DOT] + y);
    HasAtSplit(s, dot, [DOT], y);
    HasAtByte(s, dot, [DOT], 0);
    AtomAfter(s, dot + 1, x.after, x.atom);
  }

  lemma DotStep(s: Bytes, at: nat, x: Dotted, text: Bytes)
    requires Blank(x.before) && Blank(x.after) && IsAtom(x.atom) && HasAt(s, at, Head(x))
    requires var e := at + |Head(x)|; e == |s| || (e < |s| && !IsAtext(s[e]))
    ensures DotAtomRest(s, at, text) == DotAtomRest(s, at + |Head(x)|, text + [DOT] + x.atom)
  {
    hide HasAt, Comment, Atom, Head;
    DotReads(s, at, x);
  }

  lemma AtomAfter(s: Bytes, at: nat, lead: Bytes, a: Bytes)
    requires Blank(lead) && IsAtom(a) && HasAt(s, at, lead + a)
    requires var e := at + |lead| + |a|; e == |s| || (e < |s| && !IsAtext(s[e]))
    ensures Atom(s, Comment(s, at).at) == Token(a, at + |lead| + |a|)
  {
    hide HasAt, Comment, Atom;
    PastLead(s, at, lead, a);
    HasAtSplit(s, at, lead, a);
    assert [] + a == a;
    AtomReads(s, at + |lead|, [], a);
  }

  lemma {:induction false} DotsRead(s: Bytes, at: nat, ds: seq<Dotted>, text: Bytes)
    requires AllDotted(ds) && HasAt(s, at, DotText(ds))
    requires var e := at + |DotText(ds)|; (e == |s| || (e < |s| && !IsAtext(s[e]))) && NoMoreAtoms(s, e)
    ensures DotAtomRest(s, at, text) == Token(text + Joined(ds), at + |DotText(ds)|)
    decreases |ds|
  {
    hide HasAt, Comment, Atom, Blank, IsAtom, Head;
    if ds == [] {
      assert text + [] == text;
    } else {
      hide DotAtomRest, NoMoreAtoms;
      var x, rest := ds[0], DotText(ds[1..]);
      assert AllDotted(ds[1..]);
      HasAtSplit(s, at, Head(x), rest);
      AfterAtom(s, at + |Head(x)|, ds[1..]);
      DotStep(s, at, x, text);
      DotsRead(s, at + |Head(x)|, ds[1..], text + [DOT] + x.atom);
      assert text + [DOT] + x.atom + Joined(ds[1..]) == text + ([DOT] + x.atom + Joined(ds[1..]));
    }
  }

  /** Atoms with dots between them read to the atoms and the dots, without the white space around these. */
  lemma DotAtomReads(s: Bytes, at: nat, lead: Bytes, a: Bytes, ds: seq<Dotted>)
    requires Blank(lead) && IsAtom(a) && AllDotted(ds) && HasAt(s, at, lead + a + DotText(ds))
    requires var e := at + |lead + a + DotText(ds)|; (e == |s| || (e < |s| && !IsAtext(s[e]))) && NoMoreAtoms(s, e)
    ensures DotAtom(s, at) == Token(a + Joined(ds), at + |lead + a + DotText(ds)|)
  {
    hide HasAt, Comment, DotAtomRest, Atom;
    HasAtSplit(s, at, lead + a, DotText(ds));
    var e := at + |lead| + |a|;
    AfterAtom(s, e, ds);
    AtomReads(s, at, lead, a);
    DotsRead(s, e, ds, a);
  }
}
