/**
  Folding long lines: `wrap`, and what it promises when it folds a header
  field (section 2.2.3 of RFC 5322), that is with no first prefix, one space
  as the prefix of later lines and no space left at line ends.
 */
module Folding {
  import opened Octets
  import opened LineEndings

  /** The text so far, where its last line is taken to start, and the last space written. */
  datatype State = State(buf: Bytes, linestart: nat, space: nat)

  /** The first of the run of spaces that ends just before `k`. */
  function RunStart(buf: Bytes, k: nat): (r: nat)
    requires k <= |buf|
    ensures r <= k
  {
    if k > 0 && buf[k - 1] == SP then RunStart(buf, k - 1) else k
  }

  /** The first position from `k` on that holds no space. */
  function RunEnd(buf: Bytes, k: nat): (r: nat)
    requires k <= |buf|
    ensures k <= r <= |buf|
    decreases |buf| - k
  {
    if k < |buf| && buf[k] == SP then RunEnd(buf, k + 1) else k
  }

  /** Breaks the line at its last space; what comes after moves to the next line. */
  function Broken(st: State, other: Bytes, spaceAtEOL: bool): (r: State)
    requires st.space < |st.buf|
    ensures r.space <= |r.buf|
  {
    var space := RunStart(st.buf, st.space);
    var next := RunEnd(st.buf, space + 1);
    State(st.buf[..if spaceAtEOL then space + 1 else space] + CRLF + other + st.buf[next..], next, space)
  }

  function Written(st: State, c: Byte): State
  {
    State(st.buf + [c],
          if c == LF then |st.buf| + 1 else st.linestart,
          if c == SP then |st.buf| else st.space)
  }

  predicate TooLong(st: State, n: int)
  {
    |st.buf| > st.linestart + n && st.space > st.linestart
  }

  function Step(st: State, c: Byte, n: int, other: Bytes, spaceAtEOL: bool): (r: State)
    requires st.space <= |st.buf|
    ensures r.space <= |r.buf|
  {
    if TooLong(Written(st, c), n) then Broken(Written(st, c), other, spaceAtEOL) else Written(st, c)
  }

  function WrapFrom(s: Bytes, i: nat, st: State, n: int, other: Bytes, spaceAtEOL: bool): Bytes
    requires i <= |s| && st.space <= |st.buf|
    decreases |s| - i
  {
    if i == |s| then st.buf else WrapFrom(s, i + 1, Step(st, s[i], n, other, spaceAtEOL), n, other, spaceAtEOL)
  }

  function Wrapped(s: Bytes, n: int, first: Bytes, other: Bytes, spaceAtEOL: bool): Bytes
  {
    WrapFrom(s, 0, State(first, 0, 0), n, other, spaceAtEOL)
  }

  method BreakLine(buf: Bytes, at: nat, other: Bytes, spaceAtEOL: bool) returns (r: Bytes, linestart: nat, space: nat)
    requires at < |buf|
    ensures forall l :: State(r, linestart, space) == Broken(State(buf, l, at), other, spaceAtEOL)
  {
    space := at;
    while space > 0 && buf[space - 1] == SP
      invariant space <= at
      invariant RunStart(buf, space) == RunStart(buf, at)
    {
      space := space - 1;
    }
    linestart := space + 1;
    while linestart < |buf| && buf[linestart] == SP
      invariant linestart <= |buf|
      invariant RunEnd(buf, linestart) == RunEnd(buf, space + 1)
    {
      linestart := linestart + 1;
    }
    var move := [];
    if |buf| > linestart { move := buf[linestart..]; }
    if spaceAtEOL { r := buf[..space + 1]; } else { r := buf[..space]; }
    r := r + CRLF;
    r := r + other;
    r := r + move;
  }

  method Wrap(s: Bytes, n: int, first: Bytes, other: Bytes, spaceAtEOL: bool) returns (r: Bytes)
    ensures r == Wrapped(s, n, first, other, spaceAtEOL)
  {
    r := first;
    var i: nat, linestart: nat, space: nat := 0, 0, 0;
    while i < |s|
      invariant i <= |s| && space <= |r|
      invariant WrapFrom(s, i, State(r, linestart, space), n, other, spaceAtEOL) == Wrapped(s, n, first, other, spaceAtEOL)
    {
      ghost var st := State(r, linestart, space);
      var c := s[i];
      if c == SP {
        space := |r|;
      } else if c == LF {
        linestart := |r| + 1;
      }
      r := r + [c];
      i := i + 1;
      assert State(r, linestart, space) == Written(st, c);
      if |r| > linestart + n && space > linestart {
        r, linestart, space := BreakLine(r, space, other, spaceAtEOL);
        assert State(r, linestart, space) == Step(st, c, n, other, spaceAtEOL);
      }
    }
  }

  predicate AllSpaces(g: Bytes) { g != [] && forall k :: 0 <= k < |g| ==> g[k] == SP }

  lemma {:induction false} RunStartIs(buf: Bytes, k: nat, r: nat)
    requires r <= k <= |buf| && (forall j :: r <= j < k ==> buf[j] == SP) && (r > 0 ==> buf[r - 1] != SP)
    ensures RunStart(buf, k) == r
  {
    if r < k { RunStartIs(buf, k - 1, r); }
  }

  lemma {:induction false} RunEndIs(buf: Bytes, k: nat, r: nat)
    requires k <= r <= |buf| && (forall j :: k <= j < r ==> buf[j] == SP) && (r < |buf| ==> buf[r] != SP)
    ensures RunEnd(buf, k) == r
    decreases r - k
  {
    if k < r { RunEndIs(buf, k + 1, r); }
  }

  /** Where a line is broken, all spaces are replaced by the line break and the prefix; one may stay before it. */
  lemma BreaksRun(a: Bytes, g: Bytes, b: Bytes, linestart: nat, other: Bytes, spaceAtEOL: bool)
    requires AllSpaces(g) && (a != [] ==> a[|a| - 1] != SP) && (b != [] ==> b[0] != SP)
    ensures Broken(State(a + g + b, linestart, |a| + |g| - 1), other, spaceAtEOL) ==
            State(a + (if spaceAtEOL then [' ' as int] else []) + ['\r' as int, '\n' as int] + other + b, |a| + |g|, |a|)
  {
    var buf, n := a + g + b, |a| + |g|;
    hide RunStart, RunEnd;
    assert forall j :: |a| <= j < n ==> buf[j] == g[j - |a|];
    assert |a| > 0 ==> buf[|a| - 1] == a[|a| - 1];
    assert n < |buf| ==> buf[n] == b[0];
    RunStartIs(buf, n - 1, |a|);
    RunEndIs(buf, |a| + 1, n);
    assert buf[..|a|] == a && buf[..|a| + 1] == a + [SP] && buf[n..] == b;
    assert a + [] == a;
  }

  // -------------------------------------------------------- folding a header

  /** Deletes every CR LF. */
  function Unfolded(s: Bytes): Bytes
  {
    if s == [] then []
    else if |s| >= 2 && s[0] == CR && s[1] == LF then Unfolded(s[2..])
    else [s[0]] + Unfolded(s[1..])
  }

  /** The lines one after the other. */
  function Glued(ls: seq<Bytes>): Bytes
  {
    if ls == [] then [] else ls[0] + Glued(ls[1..])
  }

  lemma {:induction false} GluedSnoc(ls: seq<Bytes>, l: Bytes)
    ensures Glued(ls + [l]) == Glued(ls) + l
  {
    if ls == [] {
      assert ls + [l] == [l] && [l][1..] == [];
    } else {
      assert (ls + [l])[1..] == ls[1..] + [l];
      GluedSnoc(ls[1..], l);
      assert ls[0] + (Glued(ls[1..]) + l) == ls[0] + Glued(ls[1..]) + l;
    }
  }

  lemma {:induction false} JoinedSnoc(ls: seq<Bytes>, l: Bytes)
    ensures Joined(ls + [l]) == Joined(ls) + l + CRLF
  {
    if ls == [] {
      assert ls + [l] == [l] && [l][1..] == [] && l + CRLF + [] == [] + l + CRLF;
    } else {
      assert (ls + [l])[1..] == ls[1..] + [l];
      JoinedSnoc(ls[1..], l);
      assert ls[0] + CRLF + (Joined(ls[1..]) + l + CRLF) == ls[0] + CRLF + Joined(ls[1..]) + l + CRLF;
    }
  }

  lemma {:induction false} UnfoldedLine(l: Bytes, rest: Bytes)
    requires NoBreaks(l)
    ensures Unfolded(l + rest) == l + Unfolded(rest)
  {
    if l == [] {
      assert l + rest == rest;
    } else {
      assert (l + rest)[0] == l[0] && (l + rest)[1..] == l[1..] + rest;
      UnfoldedLine(l[1..], rest);
      assert [l[0]] + (l[1..] + Unfolded(rest)) == l + Unfolded(rest);
    }
  }

  lemma UnfoldedBreak(rest: Bytes)
    ensures Unfolded([]) == [] && Unfolded(CRLF + rest) == Unfolded(rest)
  {
    assert (CRLF + rest)[2..] == rest;
  }

  lemma {:induction false} UnfoldedJoined(ls: seq<Bytes>, cur: Bytes)
    requires BreakFree(ls) && NoBreaks(cur)
    ensures Unfolded(Joined(ls) + cur) == Glued(ls) + cur
  {
    hide Unfolded;
    if ls == [] {
      UnfoldedLine(cur, []);
      UnfoldedBreak([]);
      assert cur + [] == cur && [] + cur == cur;
    } else {
      var rest := Joined(ls[1..]) + cur;
      UnfoldedJoined(ls[1..], cur);
      assert Joined(ls) + cur == ls[0] + (CRLF + rest);
      UnfoldedLine(ls[0], CRLF + rest);
      UnfoldedBreak(rest);
      assert ls[0] + (Glued(ls[1..]) + cur) == Glued(ls) + cur;
    }
  }

  predicate SingleSpaced(s: Bytes)
  {
    forall k :: 0 < k < |s| && s[k] == SP ==> s[k - 1] != SP
  }

  /** No space where the line could be broken: none after its first character. */
  predicate Unbreakable(l: Bytes)
  {
    forall k :: 0 < k < |l| ==> l[k] != SP
  }

  predicate LineOk(l: Bytes, n: int) { |l| <= n || Unbreakable(l) }

  /** Lines after the first are given one column less. */
  function Room(k: nat, n: int): int { if k == 0 then n else n - 1 }

  predicate IsInk(c: Byte) { c != SP }

  /** The length of the first word of a line, with the space before it. */
  function WordLength(l: Bytes): (r: nat)
    ensures r <= |l|
  {
    if l == [] then 0 else SpanEnd(l, 1, IsInk)
  }

  function LineAfter(ls: seq<Bytes>, cur: Bytes, k: nat): Bytes { if k + 1 < |ls| then ls[k + 1] else cur }

  /** No finished line had room for the first word of the next one. */
  predicate Full(ls: seq<Bytes>, cur: Bytes, n: int)
  {
    forall k :: 0 <= k < |ls| ==> |ls[k]| + WordLength(LineAfter(ls, cur, k)) > Room(k, n)
  }

  predicate LinesOk(ls: seq<Bytes>, n: int) { forall k :: 0 <= k < |ls| ==> LineOk(ls[k], Room(k, n)) }

  lemma WordGrows(l: Bytes, c: Byte)
    ensures WordLength(l + [c]) >= WordLength(l)
  {
    if l != [] {
      var e := SpanEnd(l, 1, IsInk);
      var r := l + [c];
      if e < |l| { SpanIs(r, 1, IsInk, e); } else { SpanReaches(r, 1, e); }
    } else {
      assert l + [c] == [c];
    }
  }

  lemma SpanReaches(r: Bytes, i: nat, e: nat)
    requires i <= e <= |r| && forall k :: i <= k < e ==> IsInk(r[k])
    ensures SpanEnd(r, i, IsInk) >= e
    decreases e - i
  {
    if i < e { SpanReaches(r, i + 1, e); }
  }

  /** Cutting a line at a space leaves its first word. */
  lemma WordCut(l: Bytes, q: nat)
    requires 0 < q < |l| && l[q] == SP
    ensures WordLength(l[..q]) == WordLength(l)
  {
    SpanStops(l, 1, IsInk, q);
    var e, r := SpanEnd(l, 1, IsInk), l[..q];
    SpanIs(r, 1, IsInk, e);
  }

  lemma WordOnly(l: Bytes)
    requires Unbreakable(l)
    ensures WordLength(l) == |l|
  {
    if l != [] { SpanIs(l, 1, IsInk, |l|); }
  }

  lemma FullGrows(ls: seq<Bytes>, cur: Bytes, n: int, c: Byte)
    requires Full(ls, cur, n)
    ensures Full(ls, cur + [c], n)
  {
    WordGrows(cur, c);
    forall k | 0 <= k < |ls| ensures |ls[k]| + WordLength(LineAfter(ls, cur + [c], k)) > Room(k, n) {
      assert |ls[k]| + WordLength(LineAfter(ls, cur, k)) > Room(k, n);
    }
  }

  lemma FullBroken(ls: seq<Bytes>, cur: Bytes, n: int, q: nat)
    requires Full(ls, cur, n) && LastSpace(cur, q) && |cur| > Room(|ls|, n)
    ensures Full(ls + [cur[..q]], cur[q..], n)
  {
    var ms := ls + [cur[..q]];
    WordCut(cur, q);
    assert Unbreakable(cur[q..]);
    WordOnly(cur[q..]);
    forall k | 0 <= k < |ms| ensures |ms[k]| + WordLength(LineAfter(ms, cur[q..], k)) > Room(k, n) {
      if k < |ls| { assert |ls[k]| + WordLength(LineAfter(ls, cur, k)) > Room(k, n); }
    }
  }

  /** `q` is the last space of the line `cur`, and the line may be broken there. */
  predicate LastSpace(cur: Bytes, q: int)
  {
    && 0 < q < |cur| && cur[q] == SP && cur[q - 1] != SP
    && forall k :: q < k < |cur| ==> cur[k] != SP
  }

  /**
    The text so far is the finished lines `ls` and the line `cur`.  After the
    first break `linestart` is one less than where `cur` starts.
   */
  ghost predicate Layout(st: State, ls: seq<Bytes>, cur: Bytes)
  {
    && st.buf == Joined(ls) + cur
    && BreakFree(ls) && NoBreaks(cur)
    && st.linestart == (if ls == [] then 0 else |Joined(ls)| - 1)
    && (ls != [] ==> cur != [])
    && (if st.space > st.linestart then LastSpace(cur, st.space - |Joined(ls)|) else Unbreakable(cur))
    && st.space <= |st.buf|
  }

  ghost predicate Inv(st: State, ls: seq<Bytes>, cur: Bytes, s: Bytes, i: nat, n: int)
    requires i <= |s|
  {
    && Layout(st, ls, cur)
    && !TooLong(st, n)
    && Glued(ls) + cur == s[..i]
    && LinesOk(ls, n) && Full(ls, cur, n)
  }

  lemma LastByte(ls: seq<Bytes>, cur: Bytes, s: Bytes, i: nat)
    requires 0 < i <= |s| && Glued(ls) + cur == s[..i] && cur != []
    ensures cur[|cur| - 1] == s[i - 1]
  {
    assert (Glued(ls) + cur)[i - 1] == cur[|cur| - 1];
  }

  lemma LayoutWritten(st: State, ls: seq<Bytes>, cur: Bytes, c: Byte)
    requires Layout(st, ls, cur) && !IsBreak(c)
    requires cur == [] ==> ls == []
    requires c == SP && cur != [] ==> cur[|cur| - 1] != SP
    ensures Layout(Written(st, c), ls, cur + [c])
  {
    assert Joined(ls) + cur + [c] == Joined(ls) + (cur + [c]);
    var q := st.space - |Joined(ls)|;
    if c == SP && cur != [] { assert LastSpace(cur + [c], |cur|); }
    if ls != [] { JoinedLong(ls); }
  }

  lemma JoinedLong(ls: seq<Bytes>)
    requires ls != []
    ensures |Joined(ls)| >= 2
  {
  }

  lemma BrokenText(a: Bytes, cur: Bytes, q: nat, l: nat)
    requires LastSpace(cur, q)
    ensures Broken(State(a + cur, l, |a| + q), [SP], false)
            == State(a + cur[..q] + CRLF + cur[q..], |a| + q + 1, |a| + q)
  {
    var buf := a + cur;
    assert buf[|a| + q - 1] == cur[q - 1];
    if q + 1 < |cur| { assert buf[|a| + q + 1] == cur[q + 1]; }
    assert buf[..|a| + q] == a + cur[..q];
    assert buf[|a| + q + 1..] == cur[q + 1..] && [SP] + cur[q + 1..] == cur[q..];
    assert a + cur[..q] + CRLF + [SP] + cur[q + 1..] == a + cur[..q] + CRLF + ([SP] + cur[q + 1..]);
  }

  lemma LayoutBroken(st: State, ls: seq<Bytes>, cur: Bytes, q: nat)
    requires Layout(st, ls, cur) && st.space > st.linestart && q == st.space - |Joined(ls)|
    ensures Layout(Broken(st, [SP], false), ls + [cur[..q]], cur[q..])
    ensures !(Broken(st, [SP], false).space > Broken(st, [SP], false).linestart)
  {
    BrokenText(Joined(ls), cur, q, st.linestart);
    JoinedSnoc(ls, cur[..q]);
  }

  lemma TooLongMeans(st: State, ls: seq<Bytes>, cur: Bytes, n: int)
    requires Layout(st, ls, cur)
    ensures st.space > st.linestart ==> LastSpace(cur, st.space - |Joined(ls)|)
    ensures TooLong(st, n) <==> |cur| > Room(|ls|, n) && st.space > st.linestart
  {
  }

  lemma LinesOkMore(ls: seq<Bytes>, l: Bytes, n: int)
    requires LinesOk(ls, n) && LineOk(l, Room(|ls|, n))
    ensures LinesOk(ls + [l], n)
  {
  }

  /** One character: either the line grows, or it is broken at its last space. */
  lemma InvStep(st: State, ls: seq<Bytes>, cur: Bytes, s: Bytes, i: nat, n: int) returns (ls': seq<Bytes>, cur': Bytes)
    requires i < |s| && NoBreaks(s) && SingleSpaced(s) && Inv(st, ls, cur, s, i, n)
    ensures Inv(Step(st, s[i], n, [SP], false), ls', cur', s, i + 1, n)
  {
    hide Full, LinesOk, LineOk, TooLong, Layout, Broken, LastSpace, Glued;
    var c, st1 := s[i], Written(st, s[i]);
    if cur != [] { LastByte(ls, cur, s, i); }
    NothingYet(st, ls, cur);
    LayoutWritten(st, ls, cur, c);
    Snoc(s, i);
    FullGrows(ls, cur, n, c);
    assert Glued(ls) + (cur + [c]) == Glued(ls) + cur + [c];
    ls', cur' := ls, cur + [c];
    TooLongMeans(st1, ls, cur', n);
    if TooLong(st1, n) {
      var q := st1.space - |Joined(ls)|;
      Inside(cur', q);
      LayoutBroken(st1, ls, cur', q);
      FinishedLine(st, ls, cur, c, n);
      FullBroken(ls, cur', n, q);
      LinesOkMore(ls, cur'[..q], n);
      GluedSnoc(ls, cur'[..q]);
      assert Glued(ls) + cur'[..q] + cur'[q..] == Glued(ls) + cur' by { assert cur' == cur'[..q] + cur'[q..]; }
      NotLong(Broken(st1, [SP], false), n);
      ls', cur' := ls + [cur'[..q]], cur'[q..];
    }
  }

  lemma NothingYet(st: State, ls: seq<Bytes>, cur: Bytes)
    requires Layout(st, ls, cur)
    ensures cur == [] ==> ls == []
  {
  }

  lemma Inside(cur: Bytes, q: int)
    requires LastSpace(cur, q)
    ensures 0 < q < |cur|
  {
  }

  lemma NotLong(st: State, n: int)
    requires !(st.space > st.linestart)
    ensures !TooLong(st, n)
  {
  }

  /** The part of a line left behind by a break was short enough, or could not be broken earlier. */
  lemma FinishedLine(st: State, ls: seq<Bytes>, cur: Bytes, c: Byte, n: int)
    requires Layout(st, ls, cur) && !TooLong(st, n) && Layout(Written(st, c), ls, cur + [c])
    requires Written(st, c).space > Written(st, c).linestart && !IsBreak(c)
    ensures LineOk((cur + [c])[..Written(st, c).space - |Joined(ls)|], Room(|ls|, n))
  {
    var q := Written(st, c).space - |Joined(ls)|;
    var l := (cur + [c])[..q];
    assert l == cur[..q];
    if st.space > st.linestart {
      assert |cur| <= Room(|ls|, n);
    } else {
      assert q == |cur| && l == cur;
    }
  }

  /** The finished text, line by line. */
  lemma {:induction false} WrapFromOk(s: Bytes, i: nat, st: State, n: int, ls: seq<Bytes>, cur: Bytes)
    returns (ls': seq<Bytes>, cur': Bytes)
    requires i <= |s| && NoBreaks(s) && SingleSpaced(s) && Inv(st, ls, cur, s, i, n)
    ensures WrapFrom(s, i, st, n, [SP], false) == Joined(ls') + cur'
    ensures BreakFree(ls') && NoBreaks(cur') && Glued(ls') + cur' == s
    ensures LinesOk(ls', n) && LineOk(cur', Room(|ls'|, n)) && Full(ls', cur', n) && (cur' == [] ==> s == [])
    decreases |s| - i
  {
    if i == |s| {
      ls', cur' := ls, cur;
      assert s[..i] == s;
    } else {
      var ls1, cur1 := InvStep(st, ls, cur, s, i, n);
      ls', cur' := WrapFromOk(s, i + 1, Step(st, s[i], n, [SP], false), n, ls1, cur1);
    }
  }

  /**
    Folding is undone by deleting every CR LF; each line of the folded text has
    at most `n` characters, one less after the first, or no place to break it;
    and no line was broken while it had room for the next word.
   */
  lemma FoldingInverse(s: Bytes, n: int)
    requires NoBreaks(s) && SingleSpaced(s)
    ensures var r := Wrapped(s, n, [], [SP], false);
            && Unfolded(r) == s && LinesOk(Lines(r), n)
            && forall k :: 0 <= k < |Lines(r)| - 1 ==> |Lines(r)[k]| + WordLength(Lines(r)[k + 1]) > Room(k, n)
  {
    hide Unfolded, LineOk, WordLength, Wrapped;
    var ls, cur := WrapFromOk(s, 0, State([], 0, 0), n, [], []);
    WrappedIs(s, n);
    UnfoldedJoined(ls, cur);
    SplitJoined(ls, cur);
    SplitAppend(cur, [], []);
    assert cur + [] == cur && [] + cur == cur;
    LinesAre(ls, cur, n, Lines(Wrapped(s, n, [], [SP], false)));
  }

  lemma WrappedIs(s: Bytes, n: int)
    ensures Wrapped(s, n, [], [SP], false) == WrapFrom(s, 0, State([], 0, 0), n, [SP], false)
  {
  }

  lemma LinesAre(ls: seq<Bytes>, cur: Bytes, n: int, all: seq<Bytes>)
    requires LinesOk(ls, n) && LineOk(cur, Room(|ls|, n)) && Full(ls, cur, n)
    requires all == ls + [cur] || (cur == [] && all == ls)
    ensures LinesOk(all, n) && forall k :: 0 <= k < |all| - 1 ==> |all[k]| + WordLength(all[k + 1]) > Room(k, n)
  {
    hide LineOk, WordLength;
    forall k | 0 <= k < |all| - 1 ensures |all[k]| + WordLength(all[k + 1]) > Room(k, n) {
      assert |ls[k]| + WordLength(LineAfter(ls, cur, k)) > Room(k, n);
    }
  }
}
