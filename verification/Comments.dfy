/**
  Nested comments (section 3.2.2 of RFC 5322): the cursor's `Comment` and the
  `stripcomments` filter agree on what a comment is.
 */
module Comments {
  import opened Octets
  import opened Tokens

  /** What stands between the parentheses of a comment. */
  datatype Content =
    | End
    | Text(b: Byte, rest: Content)
    | Pair(b: Byte, rest: Content)
    | Sub(inner: Content, rest: Content)
  {
    predicate Ok()
    {
      match this
      case End => true
      case Text(b, rest) => b != LPAREN && b != RPAREN && b != BACKSLASH && rest.Ok()
      case Pair(b, rest) => rest.Ok()
      case Sub(inner, rest) => inner.Ok() && rest.Ok()
    }

    /** As it is written. */
    function Render(): Bytes
    {
      match this
      case End => []
      case Text(b, rest) => [b] + rest.Render()
      case Pair(b, rest) => [BACKSLASH, b] + rest.Render()
      case Sub(inner, rest) => [LPAREN] + (inner.Render() + ([RPAREN] + rest.Render()))
    }

    /** As it reads, without the escapes. */
    function Flat(): Bytes
    {
      match this
      case End => []
      case Text(b, rest) => [b] + rest.Flat()
      case Pair(b, rest) => [b] + rest.Flat()
      case Sub(inner, rest) => [LPAREN] + (inner.Flat() + ([RPAREN] + rest.Flat()))
    }
  }

  /** What is left of a text of that kind without its comments and escapes. */
  function Outside(c: Content): Bytes
  {
    match c
    case End => []
    case Text(b, rest) => [b] + Outside(rest)
    case Pair(b, rest) => [b] + Outside(rest)
    case Sub(inner, rest) => Outside(rest)
  }

  function Written(c: Content): Bytes { [LPAREN] + (c.Render() + [RPAREN]) }

  /** The pieces of `(a)b`. */
  lemma ParensAt(s: Bytes, i: nat, a: Bytes, b: Bytes)
    requires HasAt(s, i, [LPAREN] + (a + ([RPAREN] + b)))
    ensures var j := i + 1 + |a|;
            && HasAt(s, i + 1, a) && HasAt(s, j + 1, b)
            && i < |s| && s[i] == LPAREN && j < |s| && s[j] == RPAREN
  {
    hide HasAt;
    HasAtSplit(s, i, [LPAREN], a + ([RPAREN] + b));
    HasAtSplit(s, i + 1, a, [RPAREN] + b);
    HasAtSplit(s, i + 1 + |a|, [RPAREN], b);
    HasAtByte(s, i, [LPAREN], 0);
    HasAtByte(s, i + 1 + |a|, [RPAREN], 0);
  }

  lemma ClosedAt(s: Bytes, i: nat, a: Bytes)
    requires HasAt(s, i, [LPAREN] + (a + [RPAREN]))
    ensures var j := i + 1 + |a|; HasAt(s, i + 1, a) && j < |s| && s[i] == LPAREN && s[j] == RPAREN
  {
    hide HasAt;
    HasAtSplit(s, i, [LPAREN], a + [RPAREN]);
    HasAtSplit(s, i + 1, a, [RPAREN]);
    HasAtByte(s, i, [LPAREN], 0);
    HasAtByte(s, i + 1 + |a|, [RPAREN], 0);
  }

  /** A character or a quoted pair in front of more content. */
  lemma FrontAt(s: Bytes, i: nat, w: Bytes, rest: Bytes)
    requires HasAt(s, i, w + rest) && 1 <= |w| <= 2
    ensures HasAt(s, i + |w|, rest) && i < |s| && s[i] == w[0]
    ensures |w| == 2 ==> i + 1 < |s| && s[i + 1] == w[1]
  {
    hide HasAt;
    HasAtSplit(s, i, w, rest);
    HasAtByte(s, i, w, 0);
    if |w| == 2 { HasAtByte(s, i, w, 1); }
  }

  lemma CommentStep(s: Bytes, at: nat, level: nat, buf: Bytes)
    requires at < |s| && level > 0
    ensures var b := CommentBite(s, at, level); CommentRest(s, at, level, buf) == CommentRest(s, at + b.width, b.level, buf + b.text)
  {
  }

  lemma ReadsText(s: Bytes, at: nat, level: nat, buf: Bytes, b: Byte, rest: Bytes)
    requires level > 0 && HasAt(s, at, [b] + rest) && b != LPAREN && b != RPAREN && b != BACKSLASH
    ensures HasAt(s, at + 1, rest)
    ensures CommentRest(s, at, level, buf) == CommentRest(s, at + 1, level, buf + [b])
  {
    hide HasAt, CommentRest;
    FrontAt(s, at, [b], rest);
    CommentStep(s, at, level, buf);
  }

  lemma ReadsPair(s: Bytes, at: nat, level: nat, buf: Bytes, b: Byte, rest: Bytes)
    requires level > 0 && HasAt(s, at, [BACKSLASH, b] + rest)
    ensures HasAt(s, at + 2, rest)
    ensures CommentRest(s, at, level, buf) == CommentRest(s, at + 2, level, buf + [b])
  {
    hide HasAt, CommentRest;
    FrontAt(s, at, [BACKSLASH, b], rest);
    CommentStep(s, at, level, buf);
  }

  /** Inside a comment, the cursor passes over any content and collects it without its escapes. */
  lemma {:induction false} ReadsContent(s: Bytes, at: nat, level: nat, buf: Bytes, c: Content)
    requires level > 0 && c.Ok() && HasAt(s, at, c.Render())
    ensures CommentRest(s, at, level, buf) == CommentRest(s, at + |c.Render()|, level, buf + c.Flat())
    decreases c
  {
    hide HasAt, CommentRest, CommentBite;
    match c
    case End =>
      assert buf + [] == buf;
    case Text(b, rest) =>
      ReadsText(s, at, level, buf, b, rest.Render());
      ReadsContent(s, at + 1, level, buf + [b], rest);
      assert buf + [b] + rest.Flat() == buf + ([b] + rest.Flat());
    case Pair(b, rest) =>
      ReadsPair(s, at, level, buf, b, rest.Render());
      ReadsContent(s, at + 2, level, buf + [b], rest);
      assert buf + [b] + rest.Flat() == buf + ([b] + rest.Flat());
    case Sub(inner, rest) =>
      var j := at + 1 + |inner.Render()|;
      var buf1 := buf + [LPAREN];
      var buf2 := buf1 + inner.Flat();
      ReadsSub(s, at, level, buf, buf2, inner.Render(), rest.Render());
      ReadsContent(s, at + 1, level + 1, buf1, inner);
      ReadsContent(s, j + 1, level, buf2 + [RPAREN], rest);
      assert buf2 + [RPAREN] + rest.Flat() == buf + c.Flat();
  }

  /** Into a nested comment, and out of it. */
  lemma ReadsSub(s: Bytes, at: nat, level: nat, buf: Bytes, buf2: Bytes, inner: Bytes, rest: Bytes)
    requires level > 0 && HasAt(s, at, [LPAREN] + (inner + ([RPAREN] + rest)))
    ensures HasAt(s, at + 1, inner) && HasAt(s, at + 2 + |inner|, rest)
    ensures CommentRest(s, at, level, buf) == CommentRest(s, at + 1, level + 1, buf + [LPAREN])
    ensures CommentRest(s, at + 1 + |inner|, level + 1, buf2) == CommentRest(s, at + 2 + |inner|, level, buf2 + [RPAREN])
  {
    hide HasAt, CommentRest;
    ParensAt(s, at, inner, rest);
    CommentStep(s, at, level, buf);
    CommentStep(s, at + 1 + |inner|, level + 1, buf2);
  }

  /** White space, then neither white space nor another comment. */
  predicate EndsAt(s: Bytes, i: nat, e: nat)
  {
    && i <= e <= |s|
    && (forall k :: i <= k < e ==> IsWhitespace(s[k]))
    && (e < |s| ==> !IsWhitespace(s[e]) && s[e] != LPAREN)
  }

  lemma ReadsWritten(s: Bytes, i: nat, c: Content)
    requires c.Ok() && HasAt(s, i, Written(c))
    ensures NextChar(s, i) == LPAREN
    ensures CommentRest(s, i + 1, 1, []) == Token(c.Flat(), i + |Written(c)|)
  {
    hide HasAt, CommentRest, Content.Render, Content.Flat, Content.Ok;
    var j := i + 1 + |c.Render()|;
    ClosedAt(s, i, c.Render());
    ReadsContent(s, i + 1, 1, [], c);
    assert [] + c.Flat() == c.Flat() && c.Flat() + [] == c.Flat();
    CommentStep(s, j, 1, c.Flat());
    CommentEnds(s, j + 1, c.Flat());
  }

  /**
    On any comment, with white space before and after it, `Comment` consumes
    exactly that, and returns the content with the escapes removed.
   */
  lemma ReadsComment(s: Bytes, at: nat, i: nat, c: Content, e: nat)
    requires c.Ok() && at <= i <= |s| && (forall k :: at <= k < i ==> IsWhitespace(s[k]))
    requires HasAt(s, i, Written(c)) && EndsAt(s, i + |Written(c)|, e)
    ensures Comment(s, at) == Token(c.Flat(), e)
  {
    hide HasAt, CommentRest, Whitespace, Written;
    ReadsWritten(s, i, c);
    SkipsSpace(s, at, i);
    SkipsSpace(s, i + |Written(c)|, e);
    assert Comments(s, i, []) == Comments(s, e, c.Flat());
  }

  lemma CommentEnds(s: Bytes, at: nat, buf: Bytes)
    ensures CommentRest(s, at, 0, buf) == Token(buf, at)
  {
  }

  lemma SkipsSpace(s: Bytes, i: nat, e: nat)
    requires i <= e <= |s| && (forall k :: i <= k < e ==> IsWhitespace(s[k])) && (e < |s| ==> !IsWhitespace(s[e]))
    ensures Whitespace(s, i).at == e
  {
    if i < |s| { SpanIs(s, i, IsWhitespace, e); }
  }

  // ------------------------------------------------------------ stripcomments

  /** The filter's state: nesting depth, and whether the next character is escaped. */
  datatype Filter = Filter(out: Bytes, level: int, escape: bool)

  function Filtered(f: Filter, c: Byte): Filter
  {
    if f.escape then Filter(if f.level == 0 then f.out + [c] else f.out, f.level, false)
    else
      match c
      case 92 => f.(escape := true)
      case 40 => f.(level := f.level + 1)
      case 41 => f.(level := f.level - 1)
      case _ => f.(out := if f.level == 0 then f.out + [c] else f.out)
  }

  function StripFrom(s: Bytes, i: nat, f: Filter): Bytes
    requires i <= |s|
    decreases |s| - i
  {
    if i == |s| then f.out else StripFrom(s, i + 1, Filtered(f, s[i]))
  }

  function Stripped(s: Bytes): Bytes { StripFrom(s, 0, Filter([], 0, false)) }

  method StripComments(s: Bytes) returns (out: Bytes)
    ensures out == Stripped(s)
  {
    out := [];
    var level, escape := 0, false;
    for i := 0 to |s|
      invariant StripFrom(s, i, Filter(out, level, escape)) == Stripped(s)
    {
      var c := s[i];
      if escape {
        escape := false;
        if level == 0 { out := out + [c]; }
      } else if c == BACKSLASH {
        escape := true;
      } else if c == LPAREN {
        level := level + 1;
      } else if c == RPAREN {
        level := level - 1;
      } else if level == 0 {
        out := out + [c];
      }
    }
  }

  lemma StripStep(s: Bytes, i: nat, f: Filter)
    requires i < |s|
    ensures StripFrom(s, i, f) == StripFrom(s, i + 1, Filtered(f, s[i]))
  {
  }

  lemma {:induction false} StripsContent(s: Bytes, i: nat, f: Filter, c: Content)
    requires c.Ok() && HasAt(s, i, c.Render()) && f.level > 0 && !f.escape
    ensures i + |c.Render()| <= |s|
    ensures StripFrom(s, i, f) == StripFrom(s, i + |c.Render()|, f)
    decreases c
  {
    hide StripFrom, HasAt;
    HasAtBound(s, i, c.Render());
    match c
    case End =>
    case Text(b, rest) =>
      FrontAt(s, i, [b], rest.Render());
      StripStep(s, i, f);
      StripsContent(s, i + 1, f, rest);
    case Pair(b, rest) =>
      FrontAt(s, i, [BACKSLASH, b], rest.Render());
      StripStep(s, i, f);
      StripStep(s, i + 1, f.(escape := true));
      StripsContent(s, i + 2, f, rest);
    case Sub(inner, rest) =>
      ParensAt(s, i, inner.Render(), rest.Render());
      var j, g := i + 1 + |inner.Render()|, f.(level := f.level + 1);
      StripStep(s, i, f);
      StripsContent(s, i + 1, g, inner);
      StripStep(s, j, g);
      StripsContent(s, j + 1, f, rest);
  }

  /** At any nonnegative depth the filter erases exactly the span that `Comment` reads as a comment. */
  lemma StripsComment(s: Bytes, i: nat, f: Filter, c: Content)
    requires c.Ok() && HasAt(s, i, Written(c)) && f.level >= 0 && !f.escape
    ensures StripFrom(s, i, f) == StripFrom(s, i + |Written(c)|, f)
  {
    hide StripFrom, Content.Render, Content.Ok;
    ClosedAt(s, i, c.Render());
    var g := f.(level := f.level + 1);
    StripStep(s, i, f);
    StripsContent(s, i + 1, g, c);
    StripStep(s, i + 1 + |c.Render()|, g);
  }

  /** Outside comments everything is kept, without escapes. */
  lemma {:induction false} KeepsOutside(s: Bytes, i: nat, f: Filter, c: Content)
    requires c.Ok() && HasAt(s, i, c.Render()) && f.level == 0 && !f.escape
    ensures i + |c.Render()| <= |s|
    ensures StripFrom(s, i, f) == StripFrom(s, i + |c.Render()|, f.(out := f.out + Outside(c)))
    decreases c
  {
    hide StripFrom, HasAt;
    HasAtBound(s, i, c.Render());
    match c
    case End => assert f.out + [] == f.out;
    case Text(b, rest) =>
      FrontAt(s, i, [b], rest.Render());
      StripStep(s, i, f);
      KeepsOutside(s, i + 1, f.(out := f.out + [b]), rest);
      assert f.out + [b] + Outside(rest) == f.out + ([b] + Outside(rest));
    case Pair(b, rest) =>
      FrontAt(s, i, [BACKSLASH, b], rest.Render());
      StripStep(s, i, f);
      StripStep(s, i + 1, f.(escape := true));
      KeepsOutside(s, i + 2, f.(out := f.out + [b]), rest);
      assert f.out + [b] + Outside(rest) == f.out + ([b] + Outside(rest));
    case Sub(inner, rest) =>
      assert c.Render() == Written(inner) + rest.Render();
      HasAtSplit(s, i, Written(inner), rest.Render());
      StripsComment(s, i, f, inner);
      KeepsOutside(s, i + |Written(inner)|, f, rest);
  }

  /** Of a text with balanced comments exactly the rest is left, of one with an open comment what stands before it. */
  lemma StripsText(c: Content, open: Content)
    requires c.Ok() && open.Ok()
    ensures Stripped(c.Render()) == Outside(c)
    ensures Stripped(c.Render() + [LPAREN] + open.Render()) == Outside(c)
  {
    hide StripFrom, Content.Render, Outside, Content.Ok;
    var f, s := Filter([], 0, false), c.Render();
    Whole(s);
    KeepsOutside(s, 0, f, c);
    StripEnd(s, f.(out := [] + Outside(c)));
    var t := s + [LPAREN] + open.Render();
    Whole(t);
    HasAtSplit(t, 0, s + [LPAREN], open.Render());
    HasAtSplit(t, 0, s, [LPAREN]);
    HasAtByte(t, |s|, [LPAREN], 0);
    KeepsOutside(t, 0, f, c);
    var g := f.(out := [] + Outside(c));
    StripStep(t, |s|, g);
    StripsContent(t, |s| + 1, g.(level := 1), open);
    StripEnd(t, g.(level := 1));
    assert [] + Outside(c) == Outside(c);
  }

  lemma Whole(s: Bytes)
    ensures HasAt(s, 0, s)
  {
    assert s[0..|s|] == s;
  }

  lemma StripEnd(s: Bytes, f: Filter)
    ensures StripFrom(s, |s|, f) == f.out
  {
  }
}
