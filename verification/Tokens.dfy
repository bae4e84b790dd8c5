/**
  What the parser's token functions read, as functions of the text and the
  cursor.  The cursor may stand past the end: stepping is never checked, and a
  character asked for past the end is NUL.
 */
module Tokens {
  import opened Octets

  /** What was read, and where the cursor stands afterwards. */
  datatype Token = Token(text: Bytes, at: nat)

  function NextChar(s: Bytes, at: nat): Byte { if at >= |s| then NUL else s[at] }

  predicate IsWhitespace(c: Byte) { c == SP || c == HT || c == LF || c == CR || c == 160 }

  predicate IsAtext(c: Byte)
  {
    || IsAlnum(c) || c == 33 || 35 <= c <= 39 || c == STAR || c == 43 || c == DASH || c == 47
    || c == EQUALS || c == QUESTION || 94 <= c <= 96 || 123 <= c <= 126
  }

  /** A MIME token character: section 5.1 of RFC 2045. */
  predicate IsTokenChar(c: Byte)
  {
    && 32 < c < 128
    && c != LPAREN && c != RPAREN && c != 60 && c != 62 && c != 64 && c != 44 && c != SEMICOLON && c != COLON
    && c != 91 && c != 93 && c != QUESTION && c != EQUALS && c != BACKSLASH && c != DQUOTE && c != 47
  }

  /** The longest run of characters of the class `p` at the cursor. */
  function Run(s: Bytes, at: nat, p: Byte -> bool): (t: Token)
    ensures t.at >= at && (at <= |s| ==> t.at <= |s|)
    ensures t.text == [] <==> t.at == at
    ensures t.at > at ==> t.at <= |s| && t.text == s[at..t.at]
  {
    if at >= |s| then Token([], at) else Token(s[at..SpanEnd(s, at, p)], SpanEnd(s, at, p))
  }

  lemma RunStep(s: Bytes, at: nat, p: Byte -> bool, buf: Bytes)
    ensures at < |s| && p(s[at]) ==>
              Run(s, at, p).at == Run(s, at + 1, p).at && buf + Run(s, at, p).text == (buf + [s[at]]) + Run(s, at + 1, p).text
    ensures at >= |s| || !p(s[at]) ==> Run(s, at, p) == Token([], at)
  {
    if at < |s| && p(s[at]) {
      var e := SpanEnd(s, at, p);
      if at + 1 < |s| {
        assert s[at..e] == [s[at]] + s[at + 1..e];
      } else {
        assert s[at..e] == [s[at]];
      }
    }
  }

  function Whitespace(s: Bytes, at: nat): (t: Token)
    ensures t.at >= at
  {
    Run(s, at, IsWhitespace)
  }

  // ---------------------------------------------------------------- comments

  /** One character of a comment at nesting depth `level`: what is kept of it, its width, the new depth. */
  datatype Bite = Bite(text: Bytes, width: nat, level: nat)

  function CommentBite(s: Bytes, at: nat, level: nat): (b: Bite)
    requires at < |s| && level > 0
    ensures b.width > 0
  {
    match s[at]
    case 40 => Bite([LPAREN], 1, level + 1)
    case 41 => Bite(if level > 1 then [RPAREN] else [], 1, level - 1)
    case 92 => Bite([NextChar(s, at + 1)], 2, level)
    case c => Bite([c], 1, level)
  }

  /** The rest of a comment, from inside it. */
  function CommentRest(s: Bytes, at: nat, level: nat, buf: Bytes): (t: Token)
    ensures t.at >= at
    decreases |s| - at
  {
    if level == 0 || at >= |s| then Token(buf, at)
    else
      var b := CommentBite(s, at, level);
      CommentRest(s, at + b.width, b.level, buf + b.text)
  }

  /** All comments from the cursor on, with the white space between; the text is that of the last one. */
  function Comments(s: Bytes, at: nat, text: Bytes): (t: Token)
    ensures t.at >= at
    decreases |s| - at
  {
    if NextChar(s, at) != LPAREN then Token(text, at)
    else
      var c := CommentRest(s, at + 1, 1, []);
      Comments(s, Whitespace(s, c.at).at, c.text)
  }

  function Comment(s: Bytes, at: nat): (t: Token)
    ensures t.at >= at
  {
    Comments(s, Whitespace(s, at).at, [])
  }

  // ------------------------------------------------------------ simple tokens

  function Atom(s: Bytes, at: nat): (t: Token)
    ensures t.at >= at
    ensures t.text != [] ==> t.at > at
  {
    Run(s, Comment(s, at).at, IsAtext)
  }

  function MIMEToken(s: Bytes, at: nat): (t: Token)
    ensures t.at >= at
    ensures t.text != [] ==> t.at > at
  {
    Run(s, Comment(s, at).at, IsTokenChar)
  }

  /** More atoms, each after a dot; white space and comments may surround the dots. */
  function DotAtomRest(s: Bytes, at: nat, text: Bytes): (t: Token)
    ensures t.at >= at
    decreases |s| - at
  {
    var dot := Comment(s, at).at;
    if NextChar(s, dot) != DOT then Token(text, at)
    else
      var a := Atom(s, Comment(s, dot + 1).at);
      if a.text == [] then Token(text, at) else DotAtomRest(s, a.at, text + [DOT] + a.text)
  }

  function DotAtom(s: Bytes, at: nat): (t: Token)
    ensures t.at >= at
    ensures t.text != [] ==> t.at > at
  {
    var a := Atom(s, at);
    if a.text == [] then a else DotAtomRest(s, a.at, a.text)
  }

  predicate HasBreak(s: Bytes) { exists k :: 0 <= k < |s| && IsBreak(s[k]) }

  /** White space that holds a line break counts as one space. */
  function Unfold(w: Bytes): Bytes { if HasBreak(w) then [SP] else w }

  /** The inside of a quoted string, up to and including its closing quote. */
  function QuotedRest(s: Bytes, at: nat, buf: Bytes): (t: Token)
    ensures t.at >= at
    decreases |s| - at
  {
    if at >= |s| then Token(buf, at)
    else if s[at] == DQUOTE then Token(buf, at + 1)
    else if s[at] == BACKSLASH then QuotedRest(s, at + 2, buf + [NextChar(s, at + 1)])
    else if IsSpace(s[at]) then
      var e := Whitespace(s, at + 1).at;
      QuotedRest(s, e, buf + Unfold(s[at..e]))
    else QuotedRest(s, at + 1, buf + [s[at]])
  }

  function String(s: Bytes, at: nat): (t: Token)
    ensures t.at >= at
  {
    var a := Comment(s, at).at;
    if NextChar(s, a) != DQUOTE then Atom(s, a) else QuotedRest(s, a + 1, [])
  }

  function MIMEValue(s: Bytes, at: nat): (t: Token)
    ensures t.at >= at
    ensures t.text != [] ==> t.at > at
  {
    var a := Comment(s, at).at;
    if NextChar(s, a) == DQUOTE then String(s, a) else MIMEToken(s, a)
  }

  /** After comments and white space the cursor is not at white space. */
  lemma {:induction false} PastComments(s: Bytes, at: nat, text: Bytes)
    requires at < |s| ==> !IsWhitespace(s[at])
    ensures var e := Comments(s, at, text).at; e < |s| ==> !IsWhitespace(s[e])
    decreases |s| - at
  {
    if NextChar(s, at) == LPAREN {
      var c := CommentRest(s, at + 1, 1, []);
      PastComments(s, Whitespace(s, c.at).at, c.text);
    }
  }

  lemma PastComment(s: Bytes, at: nat)
    ensures var e := Comment(s, at).at; e < |s| ==> !IsWhitespace(s[e])
  {
    PastComments(s, Whitespace(s, at).at, []);
  }

  /** No white space and no comment: the cursor stays. */
  lemma CommentNone(s: Bytes, at: nat)
    requires at < |s| ==> s[at] != LPAREN && !IsWhitespace(s[at])
    ensures Comment(s, at).at == at
  {
    RunStep(s, at, IsWhitespace, []);
  }

  // ------------------------------------------------------------ where tokens end

  lemma AtomEnds(s: Bytes, at: nat)
    ensures var t := Atom(s, at); t.text != [] ==> 0 < t.at <= |s| && IsAtext(s[t.at - 1])
  {
  }

  /** No dot with an atom after it stands at `e`, with or without comments around the dot. */
  predicate NoMoreAtoms(s: Bytes, e: nat)
  {
    var dot := Comment(s, e).at;
    NextChar(s, dot) != DOT || Atom(s, Comment(s, dot + 1).at).text == []
  }

  lemma {:induction false} DotAtomRestEnds(s: Bytes, at: nat, text: Bytes)
    requires 0 < at <= |s| && IsAtext(s[at - 1])
    ensures var t := DotAtomRest(s, at, text); 0 < t.at <= |s| && IsAtext(s[t.at - 1]) && NoMoreAtoms(s, t.at)
    decreases |s| - at
  {
    hide Comment, Atom;
    var dot := Comment(s, at).at;
    var a := Atom(s, Comment(s, dot + 1).at);
    if NextChar(s, dot) == DOT && a.text != [] {
      AtomEnds(s, Comment(s, dot + 1).at);
      DotAtomRestEnds(s, a.at, text + [DOT] + a.text);
    }
  }

  /** A dot-atom ends right after an atom character, never after a dot, and takes every atom it can. */
  lemma DotAtomEnds(s: Bytes, at: nat)
    ensures var t := DotAtom(s, at);
            t.text != [] ==> 0 < t.at <= |s| && IsAtext(s[t.at - 1]) && s[t.at - 1] != DOT && NoMoreAtoms(s, t.at)
  {
    hide Atom, DotAtomRest, NoMoreAtoms;
    AtomEnds(s, at);
    var a := Atom(s, at);
    if a.text != [] { DotAtomRestEnds(s, a.at, a.text); }
  }

  // ------------------------------------------------- when the cursor stays in

  /** No escape can step past the end. */
  predicate EndsPlain(s: Bytes) { s == [] || s[|s| - 1] != BACKSLASH }

  lemma {:induction false} CommentRestStays(s: Bytes, at: nat, level: nat, buf: Bytes)
    requires EndsPlain(s) && at <= |s|
    ensures CommentRest(s, at, level, buf).at <= |s|
    decreases |s| - at
  {
    if level > 0 && at < |s| {
      var b := CommentBite(s, at, level);
      CommentRestStays(s, at + b.width, b.level, buf + b.text);
    }
  }

  lemma {:induction false} CommentsStay(s: Bytes, at: nat, text: Bytes)
    requires EndsPlain(s) && at <= |s|
    ensures Comments(s, at, text).at <= |s|
    decreases |s| - at
  {
    if NextChar(s, at) == LPAREN {
      var c := CommentRest(s, at + 1, 1, []);
      CommentRestStays(s, at + 1, 1, []);
      CommentsStay(s, Whitespace(s, c.at).at, c.text);
    }
  }

  lemma CommentStays(s: Bytes, at: nat)
    requires EndsPlain(s) && at <= |s|
    ensures Comment(s, at).at <= |s|
  {
    CommentsStay(s, Whitespace(s, at).at, []);
  }

  lemma {:induction false} QuotedRestStays(s: Bytes, at: nat, buf: Bytes)
    requires EndsPlain(s) && at <= |s|
    ensures QuotedRest(s, at, buf).at <= |s|
    decreases |s| - at
  {
    if at < |s| && s[at] != DQUOTE {
      if s[at] == BACKSLASH {
        QuotedRestStays(s, at + 2, buf + [NextChar(s, at + 1)]);
      } else if IsSpace(s[at]) {
        var e := Whitespace(s, at + 1).at;
        QuotedRestStays(s, e, buf + Unfold(s[at..e]));
      } else {
        QuotedRestStays(s, at + 1, buf + [s[at]]);
      }
    }
  }

  lemma DotAtomStays(s: Bytes, at: nat)
    requires EndsPlain(s) && at <= |s|
    ensures DotAtom(s, at).at <= |s|
  {
    hide Comment, DotAtomRest, NoMoreAtoms;
    CommentStays(s, at);
    AtomEnds(s, at);
    var a := Atom(s, at);
    if a.text != [] { DotAtomRestEnds(s, a.at, a.text); }
  }

  lemma MIMEValueStays(s: Bytes, at: nat)
    requires EndsPlain(s) && at <= |s|
    ensures MIMEValue(s, at).at <= |s|
  {
    hide Comment, QuotedRest;
    var a := Comment(s, at).at;
    CommentStays(s, at);
    CommentStays(s, a);
    var b := Comment(s, a).at;
    CommentStays(s, b);
    if b < |s| { QuotedRestStays(s, b + 1, []); }
  }
}
