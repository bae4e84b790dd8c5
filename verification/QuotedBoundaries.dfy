/**
  Which quoted-printable lines look like a MIME boundary: not every line that
  starts with two dashes does.  The lines are those of `QuotedLines`, here with
  the part of the input that is on them.
 */
module QuotedBoundaries {
  import opened Octets
  import opened QuotedPrintable
  import opened QuotedLines

  // ------------------------------------------------------------------- looks

  /** Whether a text is boundary characters so far, has met a control character, or is something else. */
  datatype Look = Going | Fine | Bad

  function Judged(c: Byte): Look { if c < SP then Fine else if IsBoundaryChar(c) then Going else Bad }

  function Then(a: Look, b: Look): Look { if a == Going then b else a }

  function Looked(t: Bytes): Look
  {
    if t == [] then Going else Then(Judged(t[0]), Looked(t[1..]))
  }

  lemma {:induction false} LookedConcat(a: Bytes, b: Bytes)
    ensures Looked(a + b) == Then(Looked(a), Looked(b))
  {
    if a == [] {
      assert a + b == b;
    } else {
      assert (a + b)[0] == a[0] && (a + b)[1..] == a[1..] + b;
      LookedConcat(a[1..], b);
    }
  }

  lemma {:induction false} LookedMeans(t: Bytes, p: nat)
    requires p <= |t|
    ensures OnlyBoundaryChars(t, p) <==> Looked(t[p..]) != Bad
    decreases |t| - p
  {
    if p < |t| {
      assert t[p..][0] == t[p] && t[p..][1..] == t[p + 1..];
      LookedMeans(t, p + 1);
    }
  }

  /** The same for the input, where what is escaped passes. */
  function JudgedIn(b: Byte): Look
  {
    if b == HT then Fine else if IsBoundaryChar(b) || !IsPlain(b) then Going else Bad
  }

  function LookedIn(s: Bytes, a: nat, e: nat): Look
    requires a <= e <= |s|
  {
    if a == e then Going else Then(LookedIn(s, a, e - 1), JudgedIn(s[e - 1]))
  }

  /** Up to the first tab, every byte is a boundary character or has to be escaped. */
  predicate Looks(s: Bytes, a: nat, e: nat)
    requires a <= e <= |s|
  {
    forall k :: a <= k < e && HT !in s[a..k] ==> JudgedIn(s[k]) != Bad
  }

  lemma {:induction false} LooksMeans(s: Bytes, a: nat, e: nat)
    requires a <= e <= |s|
    ensures LookedIn(s, a, e) != Bad <==> Looks(s, a, e)
    ensures LookedIn(s, a, e) == Going ==> HT !in s[a..e]
    ensures LookedIn(s, a, e) == Fine ==> HT in s[a..e]
    decreases e - a
  {
    if a < e {
      LooksMeans(s, a, e - 1);
      assert s[a..e] == s[a..e - 1] + [s[e - 1]];
    }
  }

  lemma UnitLooks(s: Bytes, i: nat, col: nat)
    requires i < |s|
    ensures Looked(Unit(s, false, true, i, col)) == JudgedIn(s[i])
  {
    hide Looked;
    var x := Unit(s, false, true, i, col);
    UnitIs(s, i, col);
    if x == Plainly(s[i]) && IsPlain(s[i]) {
      LookedOne(s[i]);
    } else {
      LookedEscaped(s[i]);
      if IsPlain(s[i]) { RecognisedByte(s, i); }
    }
  }

  lemma RecognisedByte(s: Bytes, i: nat)
    requires i < |s| && Recognised(s, i)
    ensures s[i] == DASH || s[i] == 70
  {
    if LooksLikeFrom(s, i) { assert s[i..i + 5][0] == s[i]; }
  }

  lemma LookedOne(b: Byte)
    ensures Looked([b]) == Judged(b)
  {
    assert [b][1..] == [];
  }

  lemma LookedEscaped(b: Byte)
    ensures Looked(Escaped(b)) == Going
  {
    hide Looked;
    var x, y := HexDigit(b / 16), HexDigit(b % 16);
    LookedOne(EQUALS);
    LookedOne(x);
    LookedOne(y);
    LookedConcat([EQUALS], [x]);
    LookedConcat([EQUALS, x], [y]);
    assert [EQUALS] + [x] == [EQUALS, x] && [EQUALS, x] + [y] == Escaped(b);
  }

  lemma ProtectedLooks(l: Bytes)
    ensures Looked(Protected(l)) == Looked(l)
  {
    hide Looked;
    if l != [] && l[|l| - 1] == SP {
      var a := l[..|l| - 1];
      assert l == a + [SP];
      LookedConcat(a, [SP]);
      LookedOne(SP);
      LookedEscaped(SP);
      assert Escaped(SP) == [EQUALS, 50, 48];
      LookedConcat(a, Escaped(SP));
    }
  }

  // ------------------------------------------------------------------- lines

  /** A line of the output, and the input on it. */
  datatype Span = Span(start: Start, end: nat)

  function MoreSpans(s: Bytes, i: nat, c: Place, done: seq<Span>, cur: Start): seq<Span>
    requires i < |s|
  {
    if AtLineBreak(s, i) then done + [Span(cur, i)]
    else if c.col > 72 then done + [Span(cur, if Tail(c) > 0 then c.word else i)]
    else done
  }

  function SpansFrom(s: Bytes, i: nat, c: Place, done: seq<Span>, ls: Lines): seq<Span>
    requires i <= |s|
    decreases |s| - i
  {
    if i == |s| then done + [Span(ls.cur, i)]
    else SpansFrom(s, Next(s, i), Advance(s, i, c), MoreSpans(s, i, c, done, ls.cur), MoreLines(s, i, c, ls))
  }

  function AllSpans(s: Bytes): seq<Span> { SpansFrom(s, 0, ORIGIN, [], Lines([], Start(0, false))) }

  /** The line starts with two dashes and goes on like a boundary. */
  predicate Boundaryish(s: Bytes, x: Span)
  {
    Exposed(s, x.start, DASHES) && x.start.at <= x.end <= |s| && Looks(s, x.start.at, x.end)
  }

  ghost predicate Found(s: Bytes, xs: seq<Span>) { exists k :: 0 <= k < |xs| && Boundaryish(s, xs[k]) }

  lemma FoundMore(s: Bytes, xs: seq<Span>, x: Span)
    ensures Found(s, xs + [x]) <==> Found(s, xs) || Boundaryish(s, x)
  {
    var ys := xs + [x];
    assert ys[|xs|] == x;
    assert forall k :: 0 <= k < |xs| ==> ys[k] == xs[k];
  }

  /** No line looks like a boundary. */
  ghost predicate NoBoundary(t: Bytes) { forall p: nat :: LineStart(t, p) ==> !LooksLikeBoundary(t, p) }

  predicate Dashy(l: Bytes) { DASHES <= l && Looked(l) != Bad }

  lemma DashesAt(t: Bytes, p: nat)
    requires p <= |t|
    ensures LooksLikeBoundary(t, p) <==> Dashy(t[p..])
  {
    LookedMeans(t, p);
    var l := t[p..];
    assert |l| >= 2 ==> l[0] == t[p] && l[1] == t[p + 1];
    assert DASHES <= l <==> |l| >= 2 && l[0] == DASH && l[1] == DASH;
  }

  /** A line that has ended is not changed by what follows. */
  lemma DashyEnded(l: Bytes, z: Bytes)
    requires Looked(l) != Going
    ensures Dashy(l + z) <==> Dashy(l)
  {
    LookedConcat(l, z);
    if |l| == 1 { assert l[1..] == [] && (l + z)[0] == l[0]; }
    if |l| >= 2 { assert (l + z)[..2] == l[..2]; }
  }

  lemma {:induction false} HasControl(l: Bytes, k: nat)
    requires k < |l| && l[k] < SP
    ensures Looked(l) != Going
  {
    if k > 0 { HasControl(l[1..], k - 1); }
  }

  lemma EndedKept(a: Bytes, z: Bytes, p: nat)
    requires Whole(a) && p < |a|
    ensures LooksLikeBoundary(a + z, p) <==> LooksLikeBoundary(a, p)
  {
    hide LooksLikeBoundary;
    var l := a[p..];
    assert l[|l| - 1] == LF;
    HasControl(l, |l| - 1);
    DashesAt(a, p);
    DashesAt(a + z, p);
    assert (a + z)[p..] == l + z;
    DashyEnded(l, z);
  }

  /** The finished lines, and one that is not finished yet. */
  lemma NoBoundaryLast(a: Bytes, l: Bytes)
    requires Whole(a) && NoLF(l)
    ensures NoBoundary(a + l) <==> NoBoundary(a) && !Dashy(l)
  {
    hide LooksLikeBoundary, Dashy;
    var t := a + l;
    forall p: nat | p < |a| ensures LineStart(t, p) <==> LineStart(a, p) { }
    forall p: nat | p < |a| ensures LooksLikeBoundary(t, p) <==> LooksLikeBoundary(a, p) { EndedKept(a, l, p); }
    forall p: nat | p >= |a| ensures LineStart(t, p) <==> p == |a| {
      if |a| < p <= |t| { assert t[p - 1] == l[p - 1 - |a|]; }
    }
    DashesAt(t, |a|);
    assert t[|a|..] == l;
    NothingThere(a);
  }

  lemma NothingThere(a: Bytes)
    ensures !LooksLikeBoundary(a, |a|)
  {
  }

  lemma NoBoundaryFeed(b: Bytes)
    ensures NoBoundary(b + [LF]) <==> NoBoundary(b)
  {
    hide LooksLikeBoundary;
    var t := b + [LF];
    forall p: nat | p <= |b| ensures LooksLikeBoundary(t, p) <==> LooksLikeBoundary(b, p) {
      DashesAt(t, p);
      DashesAt(b, p);
      assert t[p..] == b[p..] + [LF];
      FeedKept(b[p..]);
    }
    forall p: nat | p <= |b| ensures LineStart(t, p) <==> LineStart(b, p) { }
    NothingThere(t);
  }

  lemma FeedKept(l: Bytes)
    ensures Dashy(l + [LF]) <==> Dashy(l)
  {
    hide Looked;
    LookedConcat(l, [LF]);
    LookedOne(LF);
    var r := l + [LF];
    if |l| >= 2 { assert r[..2] == l[..2]; } else { assert r[|l|] == LF; }
  }

  /** A line that ends in `x`. */
  lemma NoBoundaryEnded(a: Bytes, l: Bytes, x: Bytes)
    requires Whole(a) && NoLF(l) && (x == SOFT || x == CRLF || x == [LF])
    ensures NoBoundary(a + l + x) <==> NoBoundary(a) && !Dashy(l)
  {
    hide NoBoundary, Dashy;
    var y := x[..|x| - 1];
    var b := a + (l + y);
    assert x == y + [LF] && a + l + x == b + [LF];
    NoBoundaryLast(a, l + y);
    NoBoundaryFeed(b);
    EndKept(l, y);
  }

  lemma EndKept(l: Bytes, y: Bytes)
    requires y == [EQUALS, CR] || y == [CR] || y == []
    ensures Dashy(l + y) <==> Dashy(l)
  {
    hide Looked;
    LookedConcat(l, y);
    LookedOne(EQUALS);
    LookedOne(CR);
    LookedConcat([EQUALS], [CR]);
    assert [EQUALS] + [CR] == [EQUALS, CR];
    LookedNone();
    var r := l + y;
    if |l| >= 2 { assert r[..2] == l[..2]; } else if y != [] { assert r[|l|] == y[0]; } else { assert r == l; }
  }

  lemma LookedNone()
    ensures Looked([]) == Going
  {
  }

  // --------------------------------------------------------------- invariant

  /** The current line, its last word and what is before that look like their input. */
  ghost predicate LookOk(l: Bytes, s: Bytes, i: nat, c: Place, cur: Start)
    requires i <= |s|
  {
    && cur.at <= i && Looked(l) == LookedIn(s, cur.at, i)
    && (Near(c) ==>
          && c.back <= |l| && cur.at <= c.word <= i
          && Looked(l[|l| - c.back..]) == LookedIn(s, c.word, i)
          && Looked(l[..|l| - c.back]) == LookedIn(s, cur.at, c.word))
  }

  ghost predicate Tallied(a: Bytes, s: Bytes, done: seq<Span>) { NoBoundary(a) <==> !Found(s, done) }

  lemma SpanMeans(l: Bytes, s: Bytes, x: Span)
    requires x.start.at <= x.end <= |s| && Looked(l) == LookedIn(s, x.start.at, x.end)
    requires DASHES <= l <==> Exposed(s, x.start, DASHES)
    ensures Dashy(l) <==> Boundaryish(s, x)
  {
    LooksMeans(s, x.start.at, x.end);
  }

  lemma UnitLook(l: Bytes, s: Bytes, i: nat, c: Place, cur: Start)
    requires i < |s| && LookOk(l, s, i, c, cur) && !AtLineBreak(s, i) && c.col <= 72
    ensures LookOk(l + Unit(s, false, true, i, c.col), s, i + 1, Advance(s, i, c), cur)
  {
    hide Looked, Unit;
    var x := Unit(s, false, true, i, c.col);
    var r := l + x;
    UnitLooks(s, i, c.col);
    UnitIs(s, i, c.col);
    LookedConcat(l, x);
    LookedNone();
    if x == [SP] {
      assert r[|r|..] == [] && r[..|r|] == r;
    } else if Near(c) {
      var b := |l| - c.back;
      assert r[b..] == l[b..] + x && r[..b] == l[..b];
      LookedConcat(l[b..], x);
    }
  }

  lemma SoftLook(l: Bytes, s: Bytes, i: nat, c: Place, cur: Start)
    requires i <= |s| && LookOk(l, s, i, c, cur) && c.col > 72 && c.col == |l| && (Near(c) && c.back == 0 ==> c.word == i)
    ensures LookOk(l[|l| - Tail(c)..], s, i, Roomy(c, i), SoftStart(c, i))
    ensures var e := if Tail(c) > 0 then c.word else i;
            cur.at <= e <= i && Looked(l[..|l| - Tail(c)]) == LookedIn(s, cur.at, e)
  {
    hide Looked;
    LookedNone();
    assert l[|l|..] == [] && l[..|l|] == l;
  }

  /** The parts of the other invariant that are needed here. */
  lemma Known(st: State, a: Bytes, l: Bytes, s: Bytes, i: nat, c: Place, ls: Lines)
    requires i <= |s| && Inv(st, a, l, s, i, c, ls, DASHES)
    ensures Whole(a) && NoLF(l) && c.col == |l| && ls.cur.at <= i && Unbroken(s, ls.cur.at, i)
    ensures Linked(l, s[ls.cur.at..i], Noticed(s, ls.cur), DASHES) && (Near(c) && c.back == 0 ==> c.word == i)
  {
    hide Linked, Noticed;
  }

  lemma SoftTallied(a: Bytes, l: Bytes, s: Bytes, i: nat, c: Place, cur: Start, done: seq<Span>)
    requires i <= |s| && Whole(a) && NoLF(l) && c.col == |l| > 72 && cur.at <= i && Unbroken(s, cur.at, i)
    requires Linked(l, s[cur.at..i], Noticed(s, cur), DASHES) && (Near(c) && c.back == 0 ==> c.word == i)
    requires LookOk(l, s, i, c, cur) && Tallied(a, s, done)
    ensures Tallied(a + l[..|l| - Tail(c)] + SOFT, s, done + [Span(cur, if Tail(c) > 0 then c.word else i)])
  {
    hide Looked, Linked, Noticed, Exposed, NoBoundary, Found, Dashy, Boundaryish;
    var h, x := l[..|l| - Tail(c)], Span(cur, if Tail(c) > 0 then c.word else i);
    SoftLook(l, s, i, c, cur);
    LongLine(l, s, i, cur, DASHES);
    assert DASHES <= h <==> DASHES <= l;
    assert NoLF(h);
    SpanMeans(h, s, x);
    NoBoundaryEnded(a, h, SOFT);
    FoundMore(s, done, x);
  }

  lemma BreakTallied(a: Bytes, l: Bytes, s: Bytes, i: nat, c: Place, cur: Start, done: seq<Span>)
    requires i < |s| && Whole(a) && NoLF(l) && cur.at <= i && Unbroken(s, cur.at, i) && AtLineBreak(s, i)
    requires Linked(l, s[cur.at..i], Noticed(s, cur), DASHES) && LookOk(l, s, i, c, cur) && Tallied(a, s, done)
    ensures Tallied(a + Protected(l) + BreakText(s[i]), s, done + [Span(cur, i)])
  {
    hide Looked, Linked, Noticed, Exposed, NoBoundary, Found, Dashy, Boundaryish, Protected;
    var h, x := Protected(l), Span(cur, i);
    BreakExposed(l, s, i, cur, DASHES);
    ProtectedLooks(l);
    ProtectedLine(a, l);
    SpanMeans(h, s, x);
    NoBoundaryEnded(a, h, BreakText(s[i]));
    FoundMore(s, done, x);
  }

  lemma EndTallied(a: Bytes, l: Bytes, s: Bytes, c: Place, cur: Start, done: seq<Span>)
    requires Whole(a) && NoLF(l) && cur.at <= |s| && Unbroken(s, cur.at, |s|)
    requires Linked(l, s[cur.at..|s|], Noticed(s, cur), DASHES) && LookOk(l, s, |s|, c, cur) && Tallied(a, s, done)
    ensures Tallied(a + l, s, done + [Span(cur, |s|)])
  {
    hide Looked, Linked, Noticed, Exposed, NoBoundary, Found, Dashy, Boundaryish;
    EndExposed(l, s, cur, DASHES);
    SpanMeans(l, s, Span(cur, |s|));
    NoBoundaryLast(a, l);
    FoundMore(s, done, Span(cur, |s|));
  }

  lemma FreshLook(s: Bytes, i: nat)
    requires i <= |s|
    ensures LookOk([], s, i, Place(0, FAR, i), Start(i, false))
  {
  }

  lemma {:induction false} EncodeSpans(st: State, a: Bytes, l: Bytes, s: Bytes, i: nat, c: Place, ls: Lines, done: seq<Span>)
    requires i <= |s| && Inv(st, a, l, s, i, c, ls, DASHES) && LookOk(l, s, i, c, ls.cur) && Tallied(a, s, done)
    ensures NoBoundary(EncodeFrom(s, false, true, i, st)) <==> !Found(s, SpansFrom(s, i, c, done, ls))
    decreases |s| - i
  {
    hide LookOk, Linked, Noticed, NoBoundary, Found, Step, Unit, Protected, LineOk, Tally;
    Known(st, a, l, s, i, c, ls);
    var cur, more := ls.cur, if i < |s| then MoreSpans(s, i, c, done, ls.cur) else [];
    if i == |s| {
      EndTallied(a, l, s, c, cur, done);
    } else if AtLineBreak(s, i) {
      var a' := BreakStep(st, a, l, s, i, c, ls, DASHES);
      BreakTallied(a, l, s, i, c, cur, done);
      FreshLook(s, Next(s, i));
      EncodeSpans(Step(s, false, true, i, st), a', [], s, Next(s, i), Advance(s, i, c), MoreLines(s, i, c, ls), more);
    } else {
      var a', l' := UnitStep(st, a, l, s, i, c, ls, DASHES);
      var d, l1 := Roomy(c, i), if c.col > 72 then l[|l| - Tail(c)..] else l;
      if c.col > 72 {
        SoftTallied(a, l, s, i, c, cur, done);
        SoftLook(l, s, i, c, cur);
      }
      UnitLook(l1, s, i, d, MoreLines(s, i, c, ls).cur);
      EncodeSpans(Step(s, false, true, i, st), a', l', s, i + 1, Advance(s, i, c), MoreLines(s, i, c, ls), more);
    }
  }

  /**
    A line of the output looks like a boundary exactly if it starts with two
    dashes that the encoder did not recognise or that a soft break moved, and
    what the input has on that line is, up to a tab, boundary characters and
    bytes that are escaped.
   */
  lemma BoundaryExactly(s: Bytes)
    ensures NoBoundary(Encoded(s, false, true)) <==> !Found(s, AllSpans(s))
  {
    hide EncodeFrom, SpansFrom, LooksLikeBoundary, Boundaryish;
    var none: Bytes, ls := [], Lines([], Start(0, false));
    QuotedLines.FreshLine(s, 0, DASHES);
    FreshLook(s, 0);
    assert Clear(none, DASHES);
    NothingThere(none);
    assert none + none == none;
    EncodeSpans(State([], 0), none, none, s, 0, ORIGIN, ls, []);
  }

  /** For example `--"x` starts a line with two dashes and breaks no promise. */
  lemma DashesHarmless()
    ensures var s: Bytes := [DASH, DASH, DQUOTE, 120];
            !Clear(Encoded(s, false, true), DASHES) && NoBoundary(Encoded(s, false, true))
  {
    hide LooksLikeFrom;
    var s: Bytes := [DASH, DASH, DQUOTE, 120];
    assert !OnlyBoundaryChars(s, 2) && !OnlyBoundaryChars(s, 1) && !OnlyBoundaryChars(s, 0);
    NotFrom(s);
    PlainRun(s, 4);
    assert s[..4] == s;
    assert Encoded(s, false, true) == s;
    assert HasAt(s, 0, DASHES) by { assert s[0..2] == DASHES; }
    assert LineStart(s, 0);
    NotDashy(s);
    var none: Bytes := [];
    NothingThere(none);
    NoBoundaryLast(none, s);
    assert none + s == s;
  }

  lemma NotDashy(s: Bytes)
    requires !OnlyBoundaryChars(s, 0)
    ensures !Dashy(s)
  {
    LookedMeans(s, 0);
    assert s[0..] == s;
  }

  lemma NotFrom(s: Bytes)
    requires s != [] && s[0] == DASH
    ensures !LooksLikeFrom(s, 0)
  {
    if |s| >= 5 { assert s[0..5][0] == DASH; }
  }
}
