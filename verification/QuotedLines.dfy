/**
  What quoted-printable lines start with.  The encoder is asked not to start a
  line with `From ` or with what looks like a boundary.  It looks at the input
  where it starts a line itself, but not at text that a soft break moves.  This
  module says exactly when it fails, in terms of the input and the columns.
 */
module QuotedLines {
  import opened Octets
  import opened QuotedPrintable

  predicate Watched(w: Bytes) { w == FROM || w == DASHES }

  predicate LineStart(t: Bytes, p: nat) { p <= |t| && (p == 0 || t[p - 1] == LF) }

  predicate AfterSpace(t: Bytes, p: nat) { 0 < p <= |t| && t[p - 1] == SP }

  /** No line starts with `w`. */
  ghost predicate Clear(t: Bytes, w: Bytes)
  {
    forall p: nat :: LineStart(t, p) ==> !HasAt(t, p, w)
  }

  // ------------------------------------------------------ columns of the input

  /**
    Where the encoder is before it reads a byte: the column, how many columns
    after the last space, and the input index after that space.  More than eight
    columns after a space mean that no space is near on the line.
   */
  datatype Place = Place(col: nat, back: nat, word: nat)

  const FAR: nat := 9

  predicate Near(c: Place) { c.back <= 8 }

  /** How many columns a soft break moves. */
  function Tail(c: Place): (j: nat)
    ensures j <= 8
  {
    if Near(c) then c.back else 0
  }

  /** After a soft break, if the line is too full. */
  function Roomy(c: Place, i: nat): Place { if c.col > 72 then Place(Tail(c), FAR, i) else c }

  function Advance(s: Bytes, i: nat, c: Place): Place
    requires i < |s|
  {
    if AtLineBreak(s, i) then Place(0, FAR, Next(s, i))
    else
      var d := Roomy(c, i);
      var x := Unit(s, false, true, i, d.col);
      if x == [SP] then Place(d.col + 1, 0, i + 1) else Place(d.col + |x|, d.back + |x|, d.word)
  }

  function PlaceFrom(s: Bytes, i: nat, c: Place, q: nat): Place
    decreases |s| - i
  {
    if i >= q || i >= |s| then c else PlaceFrom(s, Next(s, i), Advance(s, i, c), q)
  }

  const ORIGIN: Place := Place(0, FAR, 0)

  function PlaceAt(s: Bytes, q: nat): Place { PlaceFrom(s, 0, ORIGIN, q) }

  /** The column at which the byte at `q` finds the encoder. */
  function Column(s: Bytes, q: nat): nat { PlaceAt(s, q).col }

  // ------------------------------------------------------------ lines started

  /** A line of the output starts with what the input has at `at`, moved there or written there. */
  datatype Start = Start(at: nat, moved: bool)

  datatype Lines = Lines(done: seq<Start>, cur: Start)

  /** The line a soft break starts. */
  function SoftStart(c: Place, i: nat): Start
  {
    if Tail(c) > 0 then Start(c.word, true) else Start(i, false)
  }

  function MoreLines(s: Bytes, i: nat, c: Place, ls: Lines): Lines
    requires i < |s|
  {
    if AtLineBreak(s, i) then Lines(ls.done + [ls.cur], Start(Next(s, i), false))
    else if c.col > 72 then Lines(ls.done + [ls.cur], SoftStart(c, i))
    else ls
  }

  function LinesFrom(s: Bytes, i: nat, c: Place, ls: Lines): seq<Start>
    requires i <= |s|
    decreases |s| - i
  {
    if i == |s| then ls.done + [ls.cur]
    else LinesFrom(s, Next(s, i), Advance(s, i, c), MoreLines(s, i, c, ls))
  }

  function AllLines(s: Bytes): seq<Start> { LinesFrom(s, 0, ORIGIN, Lines([], Start(0, false))) }

  /** The encoder would escape the byte at `q` at the start of a line. */
  predicate Recognised(s: Bytes, q: nat) { q <= |s| && (LooksLikeBoundary(s, q) || LooksLikeFrom(s, q)) }

  predicate Noticed(s: Bytes, x: Start) { !x.moved && Recognised(s, x.at) }

  /** A `From ` that a line break follows gets its space escaped. */
  predicate Shielded(s: Bytes, q: nat, w: Bytes)
  {
    w == FROM && q + 5 < |s| && AtLineBreak(s, q + 5)
  }

  /** The line that starts there starts with `w`. */
  predicate Exposed(s: Bytes, x: Start, w: Bytes)
  {
    HasAt(s, x.at, w) && !Noticed(s, x) && !Shielded(s, x.at, w)
  }

  // -------------------------------------------------- a line and its input

  /** Neither is the beginning of the other. */
  predicate Off(t: Bytes, w: Bytes) { !(t <= w) && !(w <= t) }

  /**
    `t` is what is written for `r`: as far as `w` is concerned they agree, except
    that the first byte of `r` may have been escaped.
   */
  predicate Linked(t: Bytes, r: Bytes, escaped: bool, w: Bytes)
  {
    || (|r| < |w| && t == r && r <= w && (r != [] ==> !escaped))
    || (w <= t && w <= r && !escaped && (|t| == |w| <==> |r| == |w|))
    || (Off(t, w) && (Off(r, w) || (escaped && r != [])))
  }

  function Plainly(b: Byte): Bytes { if IsPlain(b) then [b] else Escaped(b) }

  lemma OffMore(t: Bytes, x: Bytes, w: Bytes)
    requires Off(t, w)
    ensures Off(t + x, w)
  {
    assert t + x <= w ==> t <= w;
    assert w <= t + x && |w| <= |t| ==> w <= t;
    assert w <= t + x && |w| > |t| ==> t <= w;
  }

  lemma OffAt(t: Bytes, x: Bytes, w: Bytes)
    requires |t| < |w| && t <= w && x != [] && x[0] != w[|t|]
    ensures Off(t + x, w)
  {
    var r := t + x;
    assert r[|t|] == x[0];
  }

  lemma LinkOpen(t: Bytes, w: Bytes, escaped: bool, x: Bytes, b: Byte)
    requires Watched(w) && |t| < |w| && t <= w && (t != [] ==> !escaped)
    requires x == if escaped then Escaped(b) else Plainly(b)
    ensures Linked(t + x, t + [b], escaped, w)
  {
    var n := |t|;
    assert IsPlain(w[n]) && w[n] != EQUALS;
    if x[0] == w[n] {
      assert x == [b] && t + [b] == w[..n + 1];
      if n + 1 == |w| { assert t + [b] == w; }
    } else {
      OffAt(t, x, w);
      if !escaped { OffAt(t, [b], w); }
    }
  }

  lemma LinkMore(t: Bytes, r: Bytes, escaped: bool, w: Bytes, x: Bytes, b: Byte)
    requires Watched(w) && Linked(t, r, escaped, w)
    requires x == if escaped && r == [] then Escaped(b) else Plainly(b)
    ensures Linked(t + x, r + [b], escaped, w)
  {
    if |r| < |w| && t == r && r <= w && (r != [] ==> !escaped) {
      LinkOpen(t, w, escaped, x, b);
    } else if Off(t, w) {
      OffMore(t, x, w);
      if Off(r, w) { OffMore(r, [b], w); }
    } else {
      assert w <= t + x && w <= r + [b];
    }
  }

  // ---------------------------------------------------------- finished lines

  predicate NoLF(t: Bytes) { forall k :: 0 <= k < |t| ==> t[k] != LF }

  predicate Whole(a: Bytes) { a == [] || a[|a| - 1] == LF }

  /** What ends a line: only its last byte is a line feed, and nothing of it is in `w`. */
  predicate Ending(x: Bytes, w: Bytes)
  {
    && x != [] && x[|x| - 1] == LF && NoLF(x[..|x| - 1])
    && forall k :: 0 <= k < |x| ==> x[k] !in w
  }

  lemma NotBeyond(a: Bytes, l: Bytes, w: Bytes, p: nat)
    requires Whole(a) && LF !in w && p < |a|
    ensures HasAt(a + l, p, w) <==> HasAt(a, p, w)
  {
    var t := a + l;
    if p + |w| <= |a| {
      assert t[p..p + |w|] == a[p..p + |w|];
    } else if p + |w| <= |t| {
      var m := |a| - 1 - p;
      assert t[p..p + |w|][m] == LF != w[m];
    }
  }

  lemma AtLine(a: Bytes, l: Bytes, w: Bytes)
    ensures HasAt(a + l, |a|, w) <==> w <= l
  {
    var t := a + l;
    if |w| <= |l| { assert t[|a|..|a| + |w|] == l[..|w|]; }
  }

  /** A line that is not ended yet. */
  lemma ClearLast(a: Bytes, l: Bytes, w: Bytes)
    requires Whole(a) && NoLF(l) && w != [] && LF !in w
    ensures Clear(a + l, w) <==> Clear(a, w) && !(w <= l)
  {
    hide HasAt;
    var t := a + l;
    forall p: nat | p < |a| ensures LineStart(t, p) <==> LineStart(a, p) { }
    forall p: nat | p < |a| ensures HasAt(t, p, w) <==> HasAt(a, p, w) { NotBeyond(a, l, w, p); }
    forall p: nat | p >= |a| ensures LineStart(t, p) <==> p == |a| {
      if |a| < p <= |t| { assert t[p - 1] == l[p - 1 - |a|]; }
    }
    AtLine(a, l, w);
    NothingLeft(a, w);
  }

  lemma NothingLeft(a: Bytes, w: Bytes)
    requires w != []
    ensures !HasAt(a, |a|, w)
  {
  }

  /** A line that is. */
  lemma ClearEnded(a: Bytes, l: Bytes, x: Bytes, w: Bytes)
    requires Whole(a) && NoLF(l) && Ending(x, w) && w != [] && LF !in w
    ensures Whole(a + l + x) && (Clear(a + l + x, w) <==> Clear(a, w) && !(w <= l))
  {
    hide HasAt, Clear;
    var y, n := x[..|x| - 1], |x| - 1;
    var b := a + (l + y);
    assert x == y + [LF];
    assert a + l + x == b + [LF];
    ClearLast(a, l + y, w);
    ClearFeed(b, w);
    assert w <= l + y <==> w <= l by {
      if |w| > |l| { PrefixStops(l, y, w); }
    }
  }

  lemma PrefixStops(l: Bytes, y: Bytes, w: Bytes)
    requires |w| > |l| && (y != [] ==> y[0] !in w)
    ensures !(w <= l + y)
  {
    if y != [] { assert (l + y)[|l|] != w[|l|]; }
  }

  lemma ClearFeed(b: Bytes, w: Bytes)
    requires w != [] && LF !in w
    ensures Clear(b + [LF], w) <==> Clear(b, w)
  {
    var t := b + [LF];
    forall p: nat | p <= |b| ensures HasAt(t, p, w) <==> HasAt(b, p, w) {
      if p + |w| <= |b| {
        assert t[p..p + |w|] == b[p..p + |w|];
      } else if p + |w| == |t| {
        assert t[p..p + |w|][|w| - 1] == LF;
      }
    }
    forall p: nat | p <= |b| ensures LineStart(t, p) <==> LineStart(b, p) { }
  }

  // --------------------------------------------------------------- invariant

  /** What the columns say about the last word on the line `l`. */
  ghost predicate WordOk(l: Bytes, s: Bytes, i: nat, c: Place, from: nat, w: Bytes)
    requires i <= |s|
  {
    if Near(c) then
      && c.back < |l| && l[|l| - c.back - 1] == SP && SP !in l[|l| - c.back..]
      && from <= c.word <= i && (c.back == 0 <==> c.word == i)
      && Linked(l[|l| - c.back..], s[c.word..i], false, w)
    else forall k :: 0 <= k < |l| && k >= |l| - 9 ==> l[k] != SP
  }

  predicate Unbroken(s: Bytes, a: nat, b: nat)
    requires a <= b <= |s|
  {
    forall k :: a <= k < b ==> !AtLineBreak(s, k)
  }

  /** The current line `l` and its input. */
  ghost predicate LineOk(l: Bytes, s: Bytes, i: nat, c: Place, cur: Start, w: Bytes)
    requires i <= |s|
  {
    && c.col == |l| && NoLF(l)
    && cur.at <= i && (l == [] <==> cur.at == i) && (cur.moved ==> l != [])
    && Unbroken(s, cur.at, i)
    && Linked(l, s[cur.at..i], Noticed(s, cur), w)
    && WordOk(l, s, i, c, cur.at, w)
  }

  ghost predicate Hit(s: Bytes, xs: seq<Start>, w: Bytes) { exists k :: 0 <= k < |xs| && Exposed(s, xs[k], w) }

  /** The finished lines `a`. */
  ghost predicate Tally(a: Bytes, s: Bytes, done: seq<Start>, w: Bytes)
  {
    Whole(a) && (Clear(a, w) <==> !Hit(s, done, w))
  }

  lemma HitMore(s: Bytes, xs: seq<Start>, x: Start, w: Bytes)
    ensures Hit(s, xs + [x], w) <==> Hit(s, xs, w) || Exposed(s, x, w)
  {
    var ys := xs + [x];
    assert ys[|xs|] == x;
    assert forall k :: 0 <= k < |xs| ==> ys[k] == xs[k];
  }

  // ------------------------------------------------------------------- units

  lemma UnitIs(s: Bytes, i: nat, col: nat)
    requires i < |s|
    ensures Unit(s, false, true, i, col) == if col == 0 && Recognised(s, i) then Escaped(s[i]) else Plainly(s[i])
    ensures var x := Unit(s, false, true, i, col); NoLF(x) && (x != [SP] ==> SP !in x) && 1 <= |x| <= 3
  {
  }

  lemma SegmentSnoc(s: Bytes, q: nat, i: nat)
    requires q <= i < |s|
    ensures s[q..i + 1] == s[q..i] + [s[i]]
  {
  }

  lemma UnitLine(l: Bytes, s: Bytes, i: nat, c: Place, cur: Start, w: Bytes)
    requires i < |s| && Watched(w) && LineOk(l, s, i, c, cur, w) && !AtLineBreak(s, i) && c.col <= 72
    ensures LineOk(l + Unit(s, false, true, i, c.col), s, i + 1, Advance(s, i, c), cur, w)
  {
    hide Linked, Unit, Recognised, Escaped, WordOk;
    var x := Unit(s, false, true, i, c.col);
    UnitIs(s, i, c.col);
    SegmentSnoc(s, cur.at, i);
    LinkMore(l, s[cur.at..i], Noticed(s, cur), w, x, s[i]);
    UnitWord(l, s, i, c, cur.at, w);
  }

  lemma UnitWord(l: Bytes, s: Bytes, i: nat, c: Place, from: nat, w: Bytes)
    requires i < |s| && Watched(w) && WordOk(l, s, i, c, from, w) && !AtLineBreak(s, i)
    requires c.col == |l| <= 72 && from <= i
    ensures WordOk(l + Unit(s, false, true, i, c.col), s, i + 1, Advance(s, i, c), from, w)
  {
    hide Linked, Unit, Recognised, Escaped, Plainly;
    var x := Unit(s, false, true, i, c.col);
    UnitIs(s, i, c.col);
    var r, d := l + x, Advance(s, i, c);
    if x == [SP] {
      assert r[|r|..] == [] && s[i + 1..i + 1] == [];
      LinkNothing(w);
    } else if Near(c) {
      assert r[|r| - d.back..] == l[|l| - c.back..] + x;
      SegmentSnoc(s, c.word, i);
      LinkMore(l[|l| - c.back..], s[c.word..i], false, w, x, s[i]);
      forall k | 0 <= k < |r| && k >= |r| - d.back ensures r[k] != SP { assert r[k] == r[|r| - d.back..][k - (|r| - d.back)]; }
    } else {
      forall k | 0 <= k < |r| && k >= |r| - 9 ensures r[k] != SP {
        if k >= |l| { assert r[k] == x[k - |l|]; }
      }
    }
  }

  lemma LinkNothing(w: Bytes)
    requires w != []
    ensures forall e :: Linked([], [], e, w)
  {
  }

  // ------------------------------------------------------------ line endings

  lemma SegmentHas(s: Bytes, q: nat, i: nat, w: Bytes)
    requires q <= i <= |s|
    ensures w <= s[q..i] ==> HasAt(s, q, w)
    ensures Off(s[q..i], w) ==> !HasAt(s, q, w)
    ensures |w| <= i - q && HasAt(s, q, w) ==> w <= s[q..i]
  {
    if w <= s[q..i] { assert s[q..q + |w|] == s[q..i][..|w|]; }
    if HasAt(s, q, w) {
      if |w| <= i - q { assert s[q..i][..|w|] == s[q..q + |w|]; } else { assert s[q..i] == w[..i - q]; }
    }
  }

  /** A line with more on it than `w`. */
  lemma LongLine(l: Bytes, s: Bytes, i: nat, cur: Start, w: Bytes)
    requires i <= |s| && Watched(w) && cur.at <= i && Unbroken(s, cur.at, i) && |l| > |w|
    requires Linked(l, s[cur.at..i], Noticed(s, cur), w)
    ensures w <= l <==> Exposed(s, cur, w)
  {
    hide Noticed, HasAt;
    SegmentHas(s, cur.at, i, w);
  }

  lemma ShortLine(l: Bytes, s: Bytes, i: nat, cur: Start, w: Bytes)
    requires i <= |s| && Watched(w) && cur.at <= i && |l| < |w|
    requires i < |s| ==> s[i] !in w
    requires Linked(l, s[cur.at..i], Noticed(s, cur), w)
    ensures !(w <= l) && !Exposed(s, cur, w)
  {
    hide Noticed;
    SegmentHas(s, cur.at, i, w);
    if i < |s| && i - cur.at < |w| { NotThere(s, cur.at, i, w); }
  }

  lemma NotThere(s: Bytes, q: nat, i: nat, w: Bytes)
    requires q <= i < |s| && i - q < |w| && s[i] !in w
    ensures !HasAt(s, q, w)
  {
    if q + |w| <= |s| { assert s[q..q + |w|][i - q] == s[i] != w[i - q]; }
  }

  /** A line that holds as much as `w`: with `From ` on it, it depends on what follows. */
  lemma EvenLine(l: Bytes, s: Bytes, i: nat, cur: Start, w: Bytes)
    requires i <= |s| && Watched(w) && cur.at <= i && Unbroken(s, cur.at, i) && |l| == |w|
    requires i < |s| ==> s[i] !in w
    requires Linked(l, s[cur.at..i], Noticed(s, cur), w)
    ensures Exposed(s, cur, w) <==> w <= l && !Shielded(s, i - |w|, w)
  {
    hide Noticed, HasAt;
    SegmentHas(s, cur.at, i, w);
  }

  lemma EndExposed(l: Bytes, s: Bytes, cur: Start, w: Bytes)
    requires Watched(w) && cur.at <= |s| && Unbroken(s, cur.at, |s|)
    requires Linked(l, s[cur.at..|s|], Noticed(s, cur), w)
    ensures w <= l <==> Exposed(s, cur, w)
  {
    hide Linked, Exposed;
    if |l| > |w| { LongLine(l, s, |s|, cur, w); }
    else if |l| < |w| { ShortLine(l, s, |s|, cur, w); }
    else { EvenLine(l, s, |s|, cur, w); }
  }

  lemma BreakExposed(l: Bytes, s: Bytes, i: nat, cur: Start, w: Bytes)
    requires i < |s| && Watched(w) && cur.at <= i && Unbroken(s, cur.at, i) && AtLineBreak(s, i)
    requires Linked(l, s[cur.at..i], Noticed(s, cur), w)
    ensures w <= Protected(l) <==> Exposed(s, cur, w)
  {
    hide Linked, Exposed;
    if |l| > |w| {
      LongLine(l, s, i, cur, w);
    } else if |l| < |w| {
      ShortLine(l, s, i, cur, w);
      ShortProtected(l, w);
    } else {
      EvenLine(l, s, i, cur, w);
      EvenProtected(l, w);
    }
  }

  lemma ShortProtected(l: Bytes, w: Bytes)
    requires Watched(w) && |l| < |w|
    ensures !(w <= Protected(l))
  {
    var r := Protected(l);
    if l != [] && l[|l| - 1] == SP { assert r[|l| - 1] == EQUALS; }
  }

  lemma EvenProtected(l: Bytes, w: Bytes)
    requires Watched(w) && |l| == |w|
    ensures w <= Protected(l) <==> w <= l && w != FROM
  {
    var r := Protected(l);
    if l[|l| - 1] == SP { assert r[|l| - 1] == EQUALS; }
    assert w <= l ==> w == l;
  }

  // ------------------------------------------------------------- soft breaks

  lemma {:induction false} SpaceBackIs(out: Bytes, j: nat, b: nat)
    requires 9 <= |out| && 1 <= j <= b + 1 && b <= 9
    requires forall k :: |out| - b <= k <= |out| - j ==> out[k] != SP
    requires b <= 8 ==> out[|out| - b - 1] == SP
    ensures SpaceBack(out, j) == b + 1
    decreases b + 1 - j
  {
    if j <= b && j < 10 { SpaceBackIs(out, j + 1, b); }
  }

  lemma MovedIs(a: Bytes, l: Bytes, s: Bytes, i: nat, c: Place, from: nat, w: Bytes)
    requires i <= |s| && |l| == c.col > 72 && WordOk(l, s, i, c, from, w)
    ensures MovedTail(a + l) == Tail(c)
  {
    hide Linked;
    var out, b := a + l, if Near(c) then c.back else 9;
    forall k | |out| - b <= k < |out| ensures out[k] != SP {
      assert out[k] == l[k - |a|];
      if Near(c) { assert l[k - |a|] == l[|l| - c.back..][k - (|out| - b)]; }
    }
    if Near(c) { assert out[|out| - b - 1] == l[|l| - b - 1]; }
    SpaceBackIs(out, 1, b);
  }

  lemma SoftLine(l: Bytes, s: Bytes, i: nat, c: Place, cur: Start, w: Bytes)
    requires i <= |s| && Watched(w) && LineOk(l, s, i, c, cur, w) && c.col > 72
    ensures LineOk(l[|l| - Tail(c)..], s, i, Roomy(c, i), SoftStart(c, i), w)
  {
    hide Linked, Recognised;
    LinkNothing(w);
    var j := Tail(c);
    var t := l[|l| - j..];
    if j == 0 { assert t == [] && s[i..i] == []; }
    forall k | 0 <= k < |t| ensures t[k] != LF { assert t[k] == l[|l| - j + k]; }
    forall k | 0 <= k < |t| ensures t[k] != SP { }
  }

  lemma SoftTally(a: Bytes, l: Bytes, s: Bytes, i: nat, c: Place, ls: Lines, w: Bytes)
    requires i <= |s| && Watched(w) && LineOk(l, s, i, c, ls.cur, w) && Tally(a, s, ls.done, w) && c.col > 72
    ensures Tally(a + l[..|l| - Tail(c)] + SOFT, s, ls.done + [ls.cur], w)
  {
    hide Linked, Clear, WordOk, Exposed;
    var h := l[..|l| - Tail(c)];
    LongLine(l, s, i, ls.cur, w);
    assert w <= h <==> w <= l;
    SoftEnds(w);
    ClearEnded(a, h, SOFT, w);
    HitMore(s, ls.done, ls.cur, w);
  }

  lemma SoftEnds(w: Bytes)
    requires Watched(w)
    ensures Ending(SOFT, w) && Ending([LF], w) && Ending(CRLF, w) && LF !in w
  {
    assert SOFT[..2] == [EQUALS, CR] && CRLF[..1] == [CR] && [LF][..0] == [];
  }

  // ------------------------------------------------------------------- steps

  /** The encoder's state is the finished lines `a` and the current line `l`. */
  ghost predicate Inv(st: State, a: Bytes, l: Bytes, s: Bytes, i: nat, c: Place, ls: Lines, w: Bytes)
    requires i <= |s|
  {
    && st == State(a + l, |l|)
    && LineOk(l, s, i, c, ls.cur, w)
    && Tally(a, s, ls.done, w)
  }

  lemma BreakStep(st: State, a: Bytes, l: Bytes, s: Bytes, i: nat, c: Place, ls: Lines, w: Bytes) returns (a': Bytes)
    requires i < |s| && Watched(w) && Inv(st, a, l, s, i, c, ls, w) && AtLineBreak(s, i)
    ensures Inv(Step(s, false, true, i, st), a', [], s, Next(s, i), Advance(s, i, c), MoreLines(s, i, c, ls), w)
    ensures a' == a + Protected(l) + BreakText(s[i])
  {
    hide Linked, Clear, Exposed, WordOk;
    var x := BreakText(s[i]);
    a' := a + Protected(l) + x;
    ProtectedLine(a, l);
    BreakExposed(l, s, i, ls.cur, w);
    SoftEnds(w);
    ClearEnded(a, Protected(l), x, w);
    HitMore(s, ls.done, ls.cur, w);
    FreshLine(s, Next(s, i), w);
    assert a' + [] == a';
  }

  lemma ProtectedLine(a: Bytes, l: Bytes)
    requires Whole(a) && NoLF(l)
    ensures Protected(a + l) == a + Protected(l) && NoLF(Protected(l))
  {
    if l == [] {
      assert a + l == a;
    } else {
      assert (a + l)[|a + l| - 1] == l[|l| - 1];
      assert (a + l)[..|a + l| - 1] == a + l[..|l| - 1];
    }
  }

  lemma FreshLine(s: Bytes, i: nat, w: Bytes)
    requires i <= |s| && Watched(w)
    ensures LineOk([], s, i, Place(0, FAR, i), Start(i, false), w)
  {
    LinkNothing(w);
    assert s[i..i] == [];
  }

  lemma UnitStep(st: State, a: Bytes, l: Bytes, s: Bytes, i: nat, c: Place, ls: Lines, w: Bytes) returns (a': Bytes, l': Bytes)
    requires i < |s| && Watched(w) && Inv(st, a, l, s, i, c, ls, w) && !AtLineBreak(s, i)
    ensures Inv(Step(s, false, true, i, st), a', l', s, i + 1, Advance(s, i, c), MoreLines(s, i, c, ls), w)
    ensures c.col == |l| && (c.col <= 72 ==> a' == a && l' == l + Unit(s, false, true, i, c.col))
    ensures c.col > 72 ==> a' == a + l[..|l| - Tail(c)] + SOFT && l' == l[|l| - Tail(c)..] + Unit(s, false, true, i, Tail(c))
  {
    hide LineOk, Tally, Unit, WithSoftBreak, MovedTail;
    a', l' := a, l;
    var d := Roomy(c, i);
    ColumnIs(l, s, i, c, ls.cur, w);
    if c.col > 72 {
      var j := Tail(c);
      MovedHere(a, l, s, i, c, ls.cur, w);
      SoftLine(l, s, i, c, ls.cur, w);
      SoftTally(a, l, s, i, c, ls, w);
      SoftSplit(a, l, j);
      a', l' := a + l[..|l| - j] + SOFT, l[|l| - j..];
    }
    var x := Unit(s, false, true, i, d.col);
    UnitLine(l', s, i, d, MoreLines(s, i, c, ls).cur, w);
    assert a' + l' + x == a' + (l' + x);
    l' := l' + x;
  }

  lemma ColumnIs(l: Bytes, s: Bytes, i: nat, c: Place, cur: Start, w: Bytes)
    requires i <= |s| && LineOk(l, s, i, c, cur, w)
    ensures c.col == |l|
  {
  }

  lemma MovedHere(a: Bytes, l: Bytes, s: Bytes, i: nat, c: Place, cur: Start, w: Bytes)
    requires i <= |s| && LineOk(l, s, i, c, cur, w) && c.col > 72
    ensures MovedTail(a + l) == Tail(c) <= |l|
  {
    hide WordOk, Linked, MovedTail;
    MovedIs(a, l, s, i, c, cur.at, w);
  }

  lemma SoftSplit(a: Bytes, l: Bytes, j: nat)
    requires j <= |l|
    ensures WithSoftBreak(a + l, j) == (a + l[..|l| - j] + SOFT) + l[|l| - j..]
  {
    var t := a + l;
    assert t[..|t| - j] == a + l[..|l| - j] && t[|t| - j..] == l[|l| - j..];
  }

  lemma {:induction false} EncodeLines(st: State, a: Bytes, l: Bytes, s: Bytes, i: nat, c: Place, ls: Lines, w: Bytes)
    requires i <= |s| && Watched(w) && Inv(st, a, l, s, i, c, ls, w)
    ensures Clear(EncodeFrom(s, false, true, i, st), w) <==> !Hit(s, LinesFrom(s, i, c, ls), w)
    decreases |s| - i
  {
    hide Linked, Clear, Exposed, WordOk, Step, Advance, MoreLines, Hit;
    if i == |s| {
      EndExposed(l, s, ls.cur, w);
      SoftEnds(w);
      ClearLast(a, l, w);
      HitMore(s, ls.done, ls.cur, w);
    } else if AtLineBreak(s, i) {
      var a' := BreakStep(st, a, l, s, i, c, ls, w);
      EncodeLines(Step(s, false, true, i, st), a', [], s, Next(s, i), Advance(s, i, c), MoreLines(s, i, c, ls), w);
    } else {
      var a', l' := UnitStep(st, a, l, s, i, c, ls, w);
      EncodeLines(Step(s, false, true, i, st), a', l', s, i + 1, Advance(s, i, c), MoreLines(s, i, c, ls), w);
    }
  }

  /** A line of the output starts with `w` exactly if one is started there by the columns of the input. */
  lemma LinesOfInput(s: Bytes, w: Bytes)
    requires Watched(w)
    ensures Clear(Encoded(s, false, true), w) <==> !Hit(s, AllLines(s), w)
  {
    hide Linked, WordOk, EncodeFrom, LinesFrom;
    FreshLine(s, 0, w);
    var none: Bytes := [];
    assert Clear(none, w);
    assert none + none == none;
    EncodeLines(State([], 0), none, none, s, 0, ORIGIN, Lines([], Start(0, false)), w);
  }

  // ------------------------------------------------------- where lines start

  lemma {:induction false} PlaceNext(s: Bytes, j: nat, c: Place, i: nat)
    requires j <= i < |s| && Boundary(s, j) && Boundary(s, i)
    ensures PlaceFrom(s, j, c, Next(s, i)) == Advance(s, i, PlaceFrom(s, j, c, i))
    decreases i - j
  {
    hide Advance;
    if j < i { PlaceNext(s, Next(s, j), Advance(s, j, c), i); }
  }

  lemma PlaceStep(s: Bytes, i: nat)
    requires i < |s| && Boundary(s, i)
    ensures PlaceAt(s, Next(s, i)) == Advance(s, i, PlaceAt(s, i))
  {
    PlaceNext(s, 0, ORIGIN, i);
  }

  lemma Before(s: Bytes, q: nat) returns (k: nat)
    requires Boundary(s, q) && q > 0
    ensures k < q && Boundary(s, k) && Next(s, k) == q
  {
    k := if q >= 2 && s[q - 2] == CR && s[q - 1] == LF then q - 2 else q - 1;
  }

  /** The step at `k` starts the line `x`. */
  predicate StartedAt(s: Bytes, k: nat, x: Start)
    requires k < |s|
  {
    var c := PlaceAt(s, k);
    if AtLineBreak(s, k) then x == Start(Next(s, k), false) else c.col > 72 && x == SoftStart(c, k)
  }

  ghost predicate StartedFrom(s: Bytes, i: nat, x: Start) { exists k :: i <= k < |s| && StartedAt(s, k, x) }

  lemma StartedNext(s: Bytes, i: nat, x: Start)
    requires i < |s|
    ensures StartedFrom(s, i, x) <==> StartedAt(s, i, x) || StartedFrom(s, Next(s, i), x)
  {
    hide SoftStart, PlaceAt;
    if StartedFrom(s, i, x) {
      var k :| i <= k < |s| && StartedAt(s, k, x);
      assert k >= Next(s, i) || k == i || (k == i + 1 && StartedAt(s, i, x));
    }
  }

  lemma {:induction false} LinesStarted(s: Bytes, i: nat, ls: Lines, x: Start)
    requires i <= |s| && Boundary(s, i)
    ensures x in LinesFrom(s, i, PlaceAt(s, i), ls) <==> x in ls.done || x == ls.cur || StartedFrom(s, i, x)
    decreases |s| - i
  {
    hide SoftStart, PlaceAt, Advance;
    if i < |s| {
      PlaceStep(s, i);
      StartedNext(s, i, x);
      LinesStarted(s, Next(s, i), MoreLines(s, i, PlaceAt(s, i), ls), x);
    }
  }

  /** A soft break moves the word that begins at `q` to a line of its own. */
  ghost predicate Carried(s: Bytes, q: nat) { exists i :: 0 <= i < |s| && CarriedAt(s, q, i) }

  predicate CarriedAt(s: Bytes, q: nat, i: nat)
    requires i < |s|
  {
    var c := PlaceAt(s, i);
    !AtLineBreak(s, i) && c.col > 72 && Tail(c) > 0 && c.word == q
  }

  /** The encoder starts a line with the byte at `q`. */
  predicate Starts(s: Bytes, q: nat) { Roomy(PlaceAt(s, q), q).col == 0 }

  /**
    Where the promise about `w` fails: at a line the encoder starts without
    recognising `w`, or at a word that a soft break moves.
   */
  ghost predicate Fails(s: Bytes, q: nat, w: Bytes)
  {
    && HasAt(s, q, w) && !Shielded(s, q, w)
    && ((Starts(s, q) && !Recognised(s, q)) || Carried(s, q))
  }

  lemma StartFails(s: Bytes, x: Start, w: Bytes)
    requires Watched(w) && Exposed(s, x, w) && (x == Start(0, false) || StartedFrom(s, 0, x))
    ensures Fails(s, x.at, w)
  {
    hide HasAt, Shielded, Recognised, Advance;
    if x != Start(0, false) {
      var k :| 0 <= k < |s| && StartedAt(s, k, x);
      if AtLineBreak(s, k) {
        FreshColumn(s, k);
      } else if Tail(PlaceAt(s, k)) > 0 {
        assert CarriedAt(s, x.at, k);
      }
    }
  }

  lemma FreshColumn(s: Bytes, k: nat)
    requires k < |s| && AtLineBreak(s, k)
    ensures Column(s, Next(s, k)) == 0
  {
    hide PlaceAt;
    if Boundary(s, k) { PlaceStep(s, k); } else { PlaceStep(s, k - 1); }
  }

  lemma FailStarts(s: Bytes, q: nat, w: Bytes) returns (x: Start)
    requires Watched(w) && Fails(s, q, w)
    ensures Exposed(s, x, w) && (x == Start(0, false) || StartedFrom(s, 0, x))
  {
    hide Shielded, Recognised, Advance, PlaceAt;
    assert s[q] == w[0] by { assert s[q..q + |w|][0] == s[q]; }
    if Carried(s, q) {
      x := Start(q, true);
      var i :| 0 <= i < |s| && CarriedAt(s, q, i);
      assert StartedAt(s, i, x);
    } else {
      x := Start(q, false);
      if PlaceAt(s, q).col > 72 {
        assert StartedAt(s, q, x);
      } else if q > 0 {
        var k := Before(s, q);
        PlaceStep(s, k);
        ColumnZero(s, k, PlaceAt(s, k));
        assert StartedAt(s, k, x);
      }
    }
  }

  lemma ColumnZero(s: Bytes, k: nat, c: Place)
    requires k < |s| && Advance(s, k, c).col == 0
    ensures AtLineBreak(s, k)
  {
    hide Unit;
    UnitIs(s, k, Roomy(c, k).col);
  }

  /**
    A line of the output starts with `w` exactly if `w` stands in the input
    where the encoder starts a line and does not recognise it, or at a word after
    a space that a soft break moves.
   */
  lemma LinesExactly(s: Bytes, w: Bytes)
    requires Watched(w)
    ensures !Clear(Encoded(s, false, true), w) <==> exists q: nat :: Fails(s, q, w)
  {
    hide Clear, Encoded, Exposed, Fails, StartedFrom, LinesFrom;
    LinesOfInput(s, w);
    var xs := AllLines(s);
    if Hit(s, xs, w) {
      var k :| 0 <= k < |xs| && Exposed(s, xs[k], w);
      LinesStarted(s, 0, Lines([], Start(0, false)), xs[k]);
      StartFails(s, xs[k], w);
    }
    if q: nat :| Fails(s, q, w) {
      var x := FailStarts(s, q, w);
      LinesStarted(s, 0, Lines([], Start(0, false)), x);
      var k :| 0 <= k < |xs| && xs[k] == x;
    }
  }

  // ------------------------------------------------------------- moved words

  /** What the columns remember of the last word. */
  ghost predicate Tracked(s: Bytes, k: nat)
  {
    var c := PlaceAt(s, k);
    Near(c) ==>
      && 0 < c.word <= k <= |s| && s[c.word - 1] == SP && 0 < Column(s, c.word) && Column(s, c.word) + c.back == c.col
      && forall m :: c.word <= m < k ==> s[m] != SP && Column(s, m) <= 72
  }

  lemma {:induction false} Track(s: Bytes, k: nat)
    requires Boundary(s, k)
    ensures Tracked(s, k)
    decreases k
  {
    hide PlaceAt, Unit;
    if k == 0 {
      AtOrigin(s);
    } else {
      var j := Before(s, k);
      Track(s, j);
      PlaceStep(s, j);
      UnitIs(s, j, Roomy(PlaceAt(s, j), j).col);
      SpaceIs(s, j, Roomy(PlaceAt(s, j), j).col);
    }
  }

  lemma AtOrigin(s: Bytes)
    ensures PlaceAt(s, 0) == ORIGIN
  {
  }

  lemma SpaceIs(s: Bytes, i: nat, col: nat)
    requires i < |s|
    ensures Unit(s, false, true, i, col) == [SP] <==> s[i] == SP
  {
    if LooksLikeFrom(s, i) { assert s[i..i + 5][0] == s[i]; }
  }

  /** A moved word stands after a space, near the end of the line. */
  lemma CarriedWord(s: Bytes, q: nat)
    requires Carried(s, q)
    ensures AfterSpace(s, q) && 65 <= Column(s, q) <= 72
  {
    hide PlaceAt;
    var i :| 0 <= i < |s| && CarriedAt(s, q, i);
    Track(s, i);
    assert q < i;
  }

  lemma {:induction false} FromColumns(s: Bytes, q: nat, m: nat)
    requires HasAt(s, q, FROM) && m <= 4 && 0 < Column(s, q) && Column(s, q) + m <= 73
    ensures var c := PlaceAt(s, q); PlaceAt(s, q + m) == Place(c.col + m, c.back + m, c.word)
  {
    hide PlaceAt, Unit;
    if m > 0 {
      FromColumns(s, q, m - 1);
      var k := q + m - 1;
      assert s[k] == FROM[m - 1] && (k > 0 && m > 1 ==> s[k - 1] == FROM[m - 2]) by {
        assert s[q..q + 5][m - 1] == s[k];
        if m > 1 { assert s[q..q + 5][m - 2] == s[k - 1]; }
      }
      PlaceStep(s, k);
      UnitIs(s, k, PlaceAt(s, k).col);
    }
  }

  lemma SpaceBefore(s: Bytes, q: nat)
    requires AfterSpace(s, q)
    ensures var c := PlaceAt(s, q); c.col > 0 && c.back == 0 && c.word == q
  {
    hide PlaceAt, Unit;
    PlaceStep(s, q - 1);
    SpaceIs(s, q - 1, Roomy(PlaceAt(s, q - 1), q - 1).col);
  }

  /** `From ` after a space is moved exactly if it starts in one of the last four columns before the limit. */
  lemma FromCarried(s: Bytes, q: nat)
    requires HasAt(s, q, FROM)
    ensures Carried(s, q) <==> AfterSpace(s, q) && 69 <= Column(s, q) <= 72
  {
    hide PlaceAt;
    assert s[q + 4] == SP by { assert s[q..q + 5][4] == s[q + 4]; }
    if Carried(s, q) {
      CarriedWord(s, q);
      var i :| 0 <= i < |s| && CarriedAt(s, q, i);
      Track(s, i);
      var n := 73 - Column(s, q);
      assert q < i <= q + 4;
      if n < i - q { FromColumns(s, q, n); } else { FromColumns(s, q, i - q); }
    }
    if AfterSpace(s, q) && 69 <= Column(s, q) <= 72 {
      SpaceBefore(s, q);
      var n := 73 - Column(s, q);
      FromColumns(s, q, n);
      assert s[q + n] == FROM[n] by { assert s[q..q + 5][n] == s[q + n]; }
      assert CarriedAt(s, q, q + n);
    }
  }

  /** Where the promise about `From ` fails. */
  predicate FromFails(s: Bytes, q: nat)
  {
    && AfterSpace(s, q) && LooksLikeFrom(s, q) && 69 <= Column(s, q) <= 72
    && !(q + 5 < |s| && AtLineBreak(s, q + 5))
  }

  /**
    A line starts with `From ` exactly if that stands in the input after a space,
    in column 69 to 72, and not at the end of its line.
   */
  lemma FromExactly(s: Bytes)
    ensures !Clear(Encoded(s, false, true), FROM) <==> exists q: nat :: FromFails(s, q)
  {
    hide Clear, Encoded, Carried, PlaceAt;
    LinesExactly(s, FROM);
    if q: nat :| Fails(s, q, FROM) {
      FromCarried(s, q);
      assert FromFails(s, q);
    }
    if q: nat :| FromFails(s, q) {
      FromCarried(s, q);
      assert Fails(s, q, FROM);
    }
  }

  // --------------------------------------------- the variant of encoded words

  predicate Free(t: Bytes) { SP !in t && DASH !in t }

  lemma FreeStep(s: Bytes, from: bool, i: nat, st: State)
    requires i < |s| && Sized(st) && Free(st.out)
    ensures Free(Step(s, true, from, i, st).out)
  {
    if !AtLineBreak(s, i) {
      var st1 := Room(st);
      assert Free(st1.out) by {
        if st.col > 72 {
          var n := |st.out| - MovedTail(st.out);
          forall k | 0 <= k < |st1.out| ensures st1.out[k] in st.out || st1.out[k] in SOFT { }
        }
      }
      assert Free(Unit(s, true, from, i, st1.col));
    }
  }

  lemma {:induction false} FreeFrom(s: Bytes, from: bool, i: nat, st: State)
    requires i <= |s| && Sized(st) && Free(st.out)
    ensures Free(EncodeFrom(s, true, from, i, st))
    decreases |s| - i
  {
    hide Step, Free;
    if i < |s| {
      FreeStep(s, from, i, st);
      FreeFrom(s, from, Next(s, i), Step(s, true, from, i, st));
    }
  }

  /** In the variant for encoded words no space or dash is written at all. */
  lemma NeverInWords(s: Bytes, from: bool, w: Bytes)
    requires Watched(w)
    ensures Clear(Encoded(s, true, from), w)
  {
    FreeFrom(s, from, 0, State([], 0));
    var r := Encoded(s, true, from);
    forall p: nat ensures !HasAt(r, p, w) {
      var m := |w| - 1;
      if p + |w| <= |r| { assert r[p..p + |w|][m] == r[p + m] != w[m]; }
    }
  }

  // ------------------------------------------------------- a simple condition

  /** In the input, `w` never follows a space, and wherever it stands the encoder would take notice of it. */
  ghost predicate Guarded(s: Bytes, w: Bytes)
  {
    forall q: nat :: HasAt(s, q, w) ==> !AfterSpace(s, q) && Recognised(s, q)
  }

  /** Then no line of the output starts with it, whatever the columns. */
  lemma LinesClear(s: Bytes, u: bool, w: Bytes)
    requires Watched(w) && Guarded(s, w)
    ensures Clear(Encoded(s, u, true), w)
  {
    hide Clear, Encoded, Carried, PlaceAt;
    if u {
      NeverInWords(s, true, w);
    } else {
      LinesExactly(s, w);
      forall q: nat ensures !Fails(s, q, w) { if Carried(s, q) { CarriedWord(s, q); } }
    }
  }

  /** `From ` is noticed everywhere. */
  lemma FromGuarded(s: Bytes)
    requires forall q: nat :: AfterSpace(s, q) ==> !LooksLikeFrom(s, q)
    ensures Guarded(s, FROM)
  {
    forall q: nat | HasAt(s, q, FROM) ensures !AfterSpace(s, q) && Recognised(s, q) { assert LooksLikeFrom(s, q); }
  }

  // --------------------------------------------------------------- witnesses

  lemma {:induction false} PlainRun(s: Bytes, n: nat)
    requires n <= |s| && n <= 73
    requires forall k :: 0 <= k < n ==> IsPlain(s[k])
    requires !LooksLikeBoundary(s, 0) && !LooksLikeFrom(s, 0)
    ensures Encoded(s, false, true) == EncodeFrom(s, false, true, n, State(s[..n], n))
  {
    if n > 0 {
      PlainRun(s, n - 1);
      Snoc(s, n - 1);
      assert Step(s, false, true, n - 1, State(s[..n - 1], n - 1)) == State(s[..n], n);
    }
  }

  /**
    Otherwise it may: after 68 letters or digits, the word after a space is
    moved to a line of its own unseen.
   */
  lemma FromMissed(s: Bytes)
    requires |s| == 74 && s[68..] == [SP] + FROM && forall k :: 0 <= k < 68 ==> IsAlnum(s[k])
    ensures !Clear(Encoded(s, false, true), FROM)
  {
    forall m | 0 <= m < 6 ensures s[68 + m] == ([SP] + FROM)[m] { assert s[68..][m] == s[68 + m]; }
    assert s[0] != DASH && s[4] != SP;
    assert !LooksLikeFrom(s, 0) by { assert s[0..5][4] == s[4]; }
    assert s[68] == SP && s[69] == 70 && s[70] == 114 && s[71] == 111 && s[72] == 109 && s[73] == SP;
    PlainRun(s, 73);
    var t := s[..73];
    assert SpaceBack(t, 5) == 5;
    assert SpaceBack(t, 4) == 5 && SpaceBack(t, 3) == 5;
    assert SpaceBack(t, 1) == 5;
    var st := Step(s, false, true, 73, State(t, 73));
    var r := WithSoftBreak(t, 4) + [SP];
    assert st == State(r, 5);
    assert Encoded(s, false, true) == r;
    assert r[71] == LF && r[72] == 70 && r[73] == 114 && r[74] == 111 && r[75] == 109 && r[76] == SP;
    assert r[72..77] == FROM;
    assert LineStart(r, 72) && HasAt(r, 72, FROM);
  }

  /** A line of dashes and a byte that has to be escaped is not noticed, and looks like a boundary when it is. */
  lemma BoundaryMissed(b: Byte)
    requires b >= 128
    ensures var r := Encoded([DASH, DASH, b], false, true); LineStart(r, 0) && LooksLikeBoundary(r, 0)
  {
    var s := [DASH, DASH, b];
    assert !LooksLikeBoundary(s, 0) by {
      assert !OnlyBoundaryChars(s, 2);
      assert !OnlyBoundaryChars(s, 1);
    }
    PlainRun(s, 2);
    var r := s[..2] + Escaped(b);
    assert Encoded(s, false, true) == r;
    assert OnlyBoundaryChars(r, 5);
    assert OnlyBoundaryChars(r, 4) && OnlyBoundaryChars(r, 3);
    assert OnlyBoundaryChars(r, 2) && OnlyBoundaryChars(r, 1);
  }
}
