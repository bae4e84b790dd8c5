/**
  The framing of multipart bodies (section 5.1.1 of RFC 2046): printing parts
  between boundary lines, and cutting such a text into parts again.  What is
  inside a part is its header, scanned by `HeaderText`, and its body text.  An
  index or slice out of range is the outcome `OutOfRange`.
 */
module Multipart {
  import opened Octets
  import opened HeaderText

  datatype Part = Part(fields: seq<RawField>, body: Bytes)

  datatype Piece = Piece(number: nat, part: Part)

  datatype Result = OutOfRange | Parts(pieces: seq<Piece>)

  // ---------------------------------------------------------------- scanning

  datatype Line = Overrun | NotBoundary | Boundary(next: nat, last: bool)

  predicate StartsLine(t: Bytes, i: nat)
    requires i <= |t|
  {
    i == 0 || t[i - 1] == 31 || t[i - 1] == LF
  }

  /** Past at most one CR and then at most one LF. */
  function PastLineEnd(t: Bytes, j: nat): (r: nat)
    requires j <= |t|
    ensures j <= r <= |t|
  {
    var k := if j < |t| && t[j] == CR then j + 1 else j;
    if k < |t| && t[k] == LF then k + 1 else k
  }

  /** What follows the divider: white space to the line end makes it a boundary. */
  function RestOfBoundary(t: Bytes, j: nat, last: bool): (x: Line)
    requires j <= |t|
    ensures x.Boundary? ==> j <= x.next <= |t|
  {
    var k := SpanEnd(t, j, IsBlank);
    if k == |t| || IsBreak(t[k]) then Boundary(PastLineEnd(t, k), last) else NotBoundary
  }

  function AfterDivider(t: Bytes, j: nat): (x: Line)
    requires j <= |t|
    ensures x.Boundary? ==> j <= x.next <= |t|
  {
    if j == |t| then Overrun
    else if t[j] != DASH then RestOfBoundary(t, j, false)
    else if j + 1 == |t| then Overrun
    else if t[j + 1] == DASH then RestOfBoundary(t, j + 2, true)
    else RestOfBoundary(t, j, false)
  }

  function LineAt(t: Bytes, d: Bytes, i: nat): (x: Line)
    requires i < |t|
    ensures x.Boundary? ==> i + 2 < x.next <= |t|
  {
    if t[i] != DASH then NotBoundary
    else if i + 1 >= |t| then Overrun
    else if t[i + 1] != DASH || !StartsLine(t, i) then NotBoundary
    else if i + 2 >= |t| || d == [] then Overrun
    else if t[i + 2] != d[0] then NotBoundary
    else if i + 2 + |d| > |t| then Overrun
    else if t[i + 2..i + 2 + |d|] != d then NotBoundary
    else AfterDivider(t, i + 2 + |d|)
  }

  /** Past the line at `i` and every empty line after it. */
  function NextLine(t: Bytes, i: nat): (r: nat)
    requires i <= |t|
    ensures i <= r <= |t| && (i < |t| ==> i < r)
  {
    SpanEnd(t, SpanEnd(t, i, NotBreak), IsBreak)
  }

  /** The line break before a boundary belongs to the boundary. */
  function Stripped(t: Bytes, i: nat): (r: nat)
    requires 2 <= i <= |t|
  {
    if t[i - 1] != LF then i else if t[i - 2] == CR then i - 2 else i - 1
  }

  /** `pieces`, and the part from `start` to the boundary line that stretches from `i` to `j`, if one has started. */
  function WithPart(t: Bytes, start: nat, i: nat, j: nat, pieces: seq<Piece>): Result
    requires (start == 0 || 2 <= start) && start <= i <= j <= |t|
  {
    if start == 0 || start == |t| then Parts(pieces)
    else
      match Scanned(t[start..j], MIME)
      case Panic => OutOfRange
      case Done(fields, n) =>
        if start + n > Stripped(t, i) then OutOfRange
        else Parts(pieces + [Piece(|pieces| + 1, Part(fields, t[start + n..Stripped(t, i)]))])
  }

  /** The scan with the cursor at `i`, the current part started at `start`, and `pieces` cut off so far. */
  function ScanFrom(t: Bytes, d: Bytes, i: nat, start: nat, pieces: seq<Piece>): Result
    requires (start == 0 || 2 <= start) && start <= i <= |t|
    decreases |t| - i
  {
    if i == |t| then WithPart(t, start, i, i, pieces)
    else
      match LineAt(t, d, i)
      case Overrun => OutOfRange
      case NotBoundary => ScanFrom(t, d, NextLine(t, i), start, pieces)
      case Boundary(j, last) =>
        match WithPart(t, start, i, j, pieces)
        case OutOfRange => OutOfRange
        case Parts(more) => if last then Parts(more) else ScanFrom(t, d, NextLine(t, j), j, more)
  }

  function Split(t: Bytes, d: Bytes): Result { ScanFrom(t, d, 0, 0, []) }

  // ------------------------------------------------------ the scanner's loops

  method ReadBoundary(t: Bytes, d: Bytes, i: nat) returns (x: Line)
    requires i < |t|
    ensures x == LineAt(t, d, i)
  {
    if t[i] != DASH { return NotBoundary; }
    if i + 1 >= |t| { return Overrun; }
    if t[i + 1] != DASH || !StartsLine(t, i) { return NotBoundary; }
    if i + 2 >= |t| || d == [] { return Overrun; }
    if t[i + 2] != d[0] { return NotBoundary; }
    if i + 2 + |d| > |t| { return Overrun; }
    if t[i + 2..i + 2 + |d|] != d { return NotBoundary; }
    x := ReadAfterDivider(t, i + 2 + |d|);
  }

  method ReadAfterDivider(t: Bytes, i: nat) returns (x: Line)
    requires i <= |t|
    ensures x == AfterDivider(t, i)
  {
    var j, last := i, false;
    if j == |t| { return Overrun; }
    if t[j] == DASH {
      if j + 1 == |t| { return Overrun; }
      if t[j + 1] == DASH { j, last := j + 2, true; }
    }
    j := SkipClass(t, j, IsBlank);
    if j == |t| || t[j] == CR || t[j] == LF {
      if j < |t| && t[j] == CR { j := j + 1; }
      if j < |t| && t[j] == LF { j := j + 1; }
      return Boundary(j, last);
    }
    return NotBoundary;
  }

  method CutPart(t: Bytes, start: nat, at: nat, j: nat, pieces: seq<Piece>) returns (r: Result)
    requires (start == 0 || 2 <= start) && start <= at <= j <= |t|
    ensures r == WithPart(t, start, at, j, pieces)
  {
    hide HeaderText.Scanned;
    r := Parts(pieces);
    if 0 < start < |t| {
      var h := ReadHeader(t[start..j], MIME);
      if h == HeaderText.Panic { return OutOfRange; }
      var b := start + h.numBytes;
      var i := at;
      if t[i - 1] == LF {
        i := i - 1;
        if t[i - 1] == CR { i := i - 1; }
      }
      if b > i { return OutOfRange; }
      r := Parts(pieces + [Piece(|pieces| + 1, Part(h.fields, t[b..i]))]);
    }
  }

  method ParseMultipart(t: Bytes, d: Bytes) returns (r: Result)
    ensures r == Split(t, d)
  {
    hide LineAt, WithPart, NextLine;
    var i: nat, start: nat, last := 0, 0, false;
    r := Parts([]);
    while !last
      invariant start <= i <= |t| && r.Parts? && (!last ==> start == 0 || 2 <= start)
      invariant Split(t, d) == if last then r else ScanFrom(t, d, i, start, r.pieces)
      decreases !last, |t| - i
    {
      var x := Boundary(i, true);
      if i < |t| { x := ReadBoundary(t, d, i); }
      if x.Overrun? { return OutOfRange; }
      if x.Boundary? {
        r := CutPart(t, start, i, x.next, r.pieces);
        if r.OutOfRange? { return; }
        last := x.last;
        start := x.next;
        i := x.next;
      }
      i := SkipLine(t, i);
    }
  }

  method SkipLine(t: Bytes, i: nat) returns (r: nat)
    requires i <= |t|
    ensures r == NextLine(t, i)
  {
    r := SkipClass(t, i, NotBreak);
    r := SkipClass(t, r, IsBreak);
  }

  // ---------------------------------------------------------------- printing

  function Delimiter(d: Bytes): Bytes { DASHES + d }

  /** How parts may be laid out: their headers, the line ends, and the blanks after a delimiter. */
  datatype Layout = Layout(style: Style, pad: Bytes)

  /** The layout the printer uses. */
  const PLAIN := Layout(CANONICAL, [])

  /** The text of a part: header, blank line, body. */
  function PartText(p: Part, l: Layout): Bytes { HeaderText.Printed(p.fields, l.style) + l.style.nl + p.body }

  /** The rest of a delimiter's line. */
  function LineRest(l: Layout): Bytes { l.pad + l.style.nl }

  /** What follows a delimiter when the parts `ps` are still to come. */
  function Tail(d: Bytes, ps: seq<Part>, l: Layout): Bytes
  {
    if ps == [] then DASHES + LineRest(l)
    else LineRest(l) + (PartText(ps[0], l) + l.style.nl + Delimiter(d) + Tail(d, ps[1..], l))
  }

  function Printed(d: Bytes, ps: seq<Part>): Bytes { Delimiter(d) + Tail(d, ps, PLAIN) }

  lemma TailStep(d: Bytes, ps: seq<Part>, k: nat, r: Bytes)
    requires k < |ps|
    ensures r + Tail(d, ps[k..], PLAIN) == (r + CRLF + PartText(ps[k], PLAIN) + CRLF + Delimiter(d)) + Tail(d, ps[k + 1..], PLAIN)
  {
    hide PartText, Delimiter;
    assert ps[k..][1..] == ps[k + 1..] && ps[k..][0] == ps[k];
    assert LineRest(PLAIN) == CRLF;
    var a, b := PartText(ps[k], PLAIN) + CRLF + Delimiter(d), Tail(d, ps[k + 1..], PLAIN);
    assert Tail(d, ps[k..], PLAIN) == CRLF + (a + b);
    assert r + (CRLF + (a + b)) == r + CRLF + PartText(ps[k], PLAIN) + CRLF + Delimiter(d) + b;
  }

  method AppendMultipart(buf: Bytes, d: Bytes, ps: seq<Part>) returns (r: Bytes)
    ensures r == buf + Printed(d, ps)
  {
    hide HeaderText.Printed;
    r := buf + (DASHES + d);
    assert ps[0..] == ps && r + Tail(d, ps, PLAIN) == buf + Printed(d, ps);
    for k := 0 to |ps|
      invariant r + Tail(d, ps[k..], PLAIN) == buf + Printed(d, ps)
    {
      TailStep(d, ps, k, r);
      ghost var r0 := r;
      r := r + CRLF;
      var h := AsText(ps[k].fields);
      r := r + h;
      r := r + CRLF;
      r := r + ps[k].body;
      r := r + CRLF;
      r := r + DASHES;
      r := r + d;
      assert r == r0 + CRLF + PartText(ps[k], PLAIN) + CRLF + Delimiter(d);
    }
    r := r + DASHES;
    r := r + CRLF;
  }

  // --------------------------------------------------------------- inversion

  /** Only white space, after two dashes if there are any, stands between `j` and the line end. */
  predicate EndsLine(p: Bytes, j: nat)
    requires j <= |p|
  {
    var e := SpanEnd(p, if HasAt(p, j, DASHES) then j + 2 else j, IsBlank);
    e == |p| || IsBreak(p[e])
  }

  /** The text has a boundary line at `k`. */
  predicate DividesAt(p: Bytes, d: Bytes, k: nat) { HasAt(p, k, Delimiter(d)) && EndsLine(p, k + 2 + |d|) }

  /** A line feed stands before `k`. */
  predicate NewLine(p: Bytes, k: nat) { 0 < k < |p| && p[k - 1] == LF }

  /** None of the first `n` bytes of the text, and no first line, starts a boundary line. */
  predicate QuietTo(p: Bytes, d: Bytes, n: nat)
  {
    forall k :: 0 <= k < n && NewLine(p, k) ==> !DividesAt(p, d, k)
  }

  predicate Quiet(p: Bytes, d: Bytes) { QuietTo(p, d, |p|) }

  /**
    Every field of the part can be read, its text holds no boundary line after
    the first line, and its last byte is not taken for part of the line end.
   */
  predicate Kept(p: Part, d: Bytes, l: Layout)
  {
    && (forall k :: 0 <= k < |p.fields| ==> Readable(p.fields[k]))
    && Quiet(PartText(p, l), d) && Ends(p.body, l.style)
  }

  predicate LegalPart(p: Part, d: Bytes, l: Layout) { AllLegal(p.fields, l.style) && Kept(p, d, l) }

  predicate LegalDivider(d: Bytes) { d != [] && NoBreaks(d) }

  predicate LegalLayout(l: Layout) { LegalStyle(l.style) && forall k :: 0 <= k < |l.pad| ==> IsBlank(l.pad[k]) }

  predicate LineEnd(nl: Bytes) { nl == CRLF || nl == [LF] }

  function Numbered(ps: seq<Part>, n: nat): (r: seq<Piece>)
    ensures |r| == |ps| && forall k :: 0 <= k < |ps| ==> r[k] == Piece(n + k, ps[k])
  {
    seq(|ps|, k requires 0 <= k < |ps| => Piece(n + k, ps[k]))
  }

  lemma HasAtFirst(t: Bytes, i: nat, w: Bytes)
    requires i < |t| && w != []
    ensures HasAt(t, i, w) ==> t[i] == w[0]
  {
    if HasAt(t, i, w) { assert t[i..i + |w|][0] == w[0]; }
  }

  lemma NotDelimited(t: Bytes, d: Bytes, i: nat)
    requires d != [] && i + 2 + |d| <= |t|
    requires !HasAt(t, i, Delimiter(d)) || !StartsLine(t, i)
    ensures LineAt(t, d, i) == NotBoundary
  {
    if t[i] == DASH && t[i + 1] == DASH && t[i + 2..i + 2 + |d|] == d {
      assert t[i..i + 2 + |d|] == Delimiter(d);
    }
  }

  lemma SpanInside(t: Bytes, start: nat, p: Bytes, nl: Bytes, j: nat)
    requires j <= |p| && LineEnd(nl) && HasAt(t, start, p + nl)
    ensures start + j <= |t| && SpanEnd(t, start + j, IsBlank) == start + SpanEnd(p, j, IsBlank)
  {
    hide HasAt;
    HasAtBound(t, start, p + nl);
    HasAtSplit(t, start, p, nl);
    var e := SpanEnd(p, j, IsBlank);
    forall k | start + j <= k < start + e ensures IsBlank(t[k]) { HasAtByte(t, start, p, k - start); }
    HasAtByte(t, start + |p|, nl, 0);
    if e < |p| { HasAtByte(t, start, p, e); }
    SpanIs(t, start + j, IsBlank, start + e);
  }

  lemma RestInside(t: Bytes, start: nat, p: Bytes, nl: Bytes, j: nat, last: bool)
    requires j <= |p| && LineEnd(nl) && HasAt(t, start, p + nl)
    ensures start + j <= |t|
    ensures var e, x := SpanEnd(p, j, IsBlank), RestOfBoundary(t, start + j, last);
            if e == |p| || IsBreak(p[e]) then x.Boundary? else x == NotBoundary
  {
    hide HasAt;
    SpanInside(t, start, p, nl, j);
    var e := SpanEnd(p, j, IsBlank);
    HasAtSplit(t, start, p, nl);
    HasAtByte(t, start + |p|, nl, 0);
    if e < |p| { HasAtByte(t, start, p, e); }
  }

  /** In a text that a line end and more follow, the line ends where the text says so. */
  lemma AfterInside(t: Bytes, start: nat, p: Bytes, nl: Bytes, j: nat)
    requires j <= |p| && LineEnd(nl) && HasAt(t, start, p + nl) && start + |p + nl| < |t|
    ensures start + j <= |t|
    ensures var x := AfterDivider(t, start + j); if EndsLine(p, j) then x.Boundary? else x == NotBoundary
  {
    hide RestOfBoundary, HasAt;
    var u := p + nl;
    HasAtByte(t, start, u, j);
    HasAtByte(t, start, u, |p|);
    if j < |p| { HasAtByte(t, start, u, j + 1); }
    DashesInside(p, j);
    RestInside(t, start, p, nl, j, false);
    if HasAt(p, j, DASHES) { RestInside(t, start, p, nl, j + 2, true); }
  }

  lemma DashesInside(p: Bytes, j: nat)
    requires j <= |p|
    ensures HasAt(p, j, DASHES) <==> j + 1 < |p| && p[j] == DASH && p[j + 1] == DASH
  {
    if j + 2 <= |p| { assert p[j..j + 2] == [p[j], p[j + 1]]; }
  }

  /** Inside a text that a line end and a delimiter follow, a line is a boundary exactly if the text has one there. */
  lemma LineInside(t: Bytes, d: Bytes, start: nat, p: Bytes, nl: Bytes, i: nat)
    requires LegalDivider(d) && LineEnd(nl) && HasAt(t, start, p + nl + Delimiter(d))
    requires start < i < start + |p + nl| && IsBreak(t[i - 1])
    ensures var x, k := LineAt(t, d, i), i - start;
            if NewLine(p, k) && DividesAt(p, d, k) then x.Boundary? else x == NotBoundary
  {
    hide LineAt, EndsLine, AfterDivider, HasAt;
    var k := i - start;
    BytesInside(t, d, start, p, nl, k);
    if NewLine(p, k) && HasAt(p, k, Delimiter(d)) {
      DividedInside(t, d, start, p, nl, k);
    } else {
      NotDelimited(t, d, i);
    }
  }

  lemma DividedInside(t: Bytes, d: Bytes, start: nat, p: Bytes, nl: Bytes, k: nat)
    requires LegalDivider(d) && LineEnd(nl) && HasAt(t, start, p + nl + Delimiter(d))
    requires k < |p| && HasAt(p, k, Delimiter(d)) && HasAt(t, start + k, Delimiter(d)) && StartsLine(t, start + k)
    ensures var x := LineAt(t, d, start + k); if EndsLine(p, k + 2 + |d|) then x.Boundary? else x == NotBoundary
  {
    hide LineAt, EndsLine, AfterDivider, HasAt;
    HasAtBound(t, start, p + nl + Delimiter(d));
    HasAtSplit(t, start, p + nl, Delimiter(d));
    HasAtBound(p, k, Delimiter(d));
    AfterInside(t, start, p, nl, k + 2 + |d|);
    Divided(t, d, start + k);
    assert start + (k + 2 + |d|) == start + k + 2 + |d|;
  }

  lemma Divided(t: Bytes, d: Bytes, i: nat)
    requires d != [] && HasAt(t, i, Delimiter(d)) && StartsLine(t, i)
    ensures i < |t| && LineAt(t, d, i) == AfterDivider(t, i + 2 + |d|)
  {
    hide AfterDivider;
    var w := Delimiter(d);
    HasAtByte(t, i, w, 0);
    HasAtByte(t, i, w, 1);
    HasAtByte(t, i, w, 2);
    SubSlice(t, i, i + |w|, 2, |w|);
    assert t[i..i + |w|] == w && w[2..|w|] == d;
  }

  lemma BytesInside(t: Bytes, d: Bytes, start: nat, p: Bytes, nl: Bytes, k: nat)
    requires LegalDivider(d) && LineEnd(nl) && HasAt(t, start, p + nl + Delimiter(d))
    requires k < |p + nl|
    ensures start + k + 2 + |d| <= |t|
    ensures k > 0 && t[start + k - 1] == LF && k < |p| ==> NewLine(p, k)
    ensures NewLine(p, k) ==> t[start + k - 1] == LF
    ensures k < |p| ==> (HasAt(t, start + k, Delimiter(d)) <==> HasAt(p, k, Delimiter(d)))
    ensures k >= |p| ==> !HasAt(t, start + k, Delimiter(d))
  {
    hide LegalDivider;
    var w := Delimiter(d);
    var u := p + nl + w;
    if k > 0 { HasAtByte(t, start, u, k - 1); }
    HasAtByte(t, start, u, k);
    SubSlice(t, start, start + |u|, k, k + |w|);
    assert t[start..start + |u|] == u;
    if k < |p| { NotAcross(p, nl, d, k); } else { HasAtFirst(t, start + k, w); }
  }

  /** A delimiter cannot stretch over the line end after the text. */
  lemma NotAcross(p: Bytes, nl: Bytes, d: Bytes, k: nat)
    requires LegalDivider(d) && LineEnd(nl) && k < |p|
    ensures HasAt(p + nl + Delimiter(d), k, Delimiter(d)) <==> HasAt(p, k, Delimiter(d))
  {
    var u, w := p + nl + Delimiter(d), Delimiter(d);
    if k + |w| <= |p| {
      assert u[k..k + |w|] == p[k..k + |w|];
    } else {
      assert u[k..k + |w|][|p| - k] == nl[0];
    }
  }

  lemma NextLineIs(t: Bytes, i: nat, e: nat)
    requires i < e < |t| && IsBreak(t[e - 1]) && !IsBreak(t[e])
    ensures i < NextLine(t, i) <= e && IsBreak(t[NextLine(t, i) - 1])
  {
    SpanStops(t, i, NotBreak, e - 1);
    SpanStops(t, SpanEnd(t, i, NotBreak), IsBreak, e);
  }

  /** The scan runs through a text to its first boundary line. */
  lemma {:induction false} SkipPart(t: Bytes, d: Bytes, start: nat, p: Bytes, nl: Bytes, i: nat, e: nat, pieces: seq<Piece>)
    requires LegalDivider(d) && LineEnd(nl) && HasAt(t, start, p + nl + Delimiter(d))
    requires (start == 0 || 2 <= start) && start < i <= e <= start + |p + nl| && e < |t|
    requires IsBreak(t[i - 1]) && IsBreak(t[e - 1]) && !IsBreak(t[e])
    requires QuietTo(p, d, e - start)
    ensures ScanFrom(t, d, i, start, pieces) == ScanFrom(t, d, e, start, pieces)
    decreases |t| - i
  {
    hide LineAt, NextLine, WithPart, DividesAt, HasAt;
    if i < e {
      LineInside(t, d, start, p, nl, i);
      NextLineIs(t, i, e);
      SkipPart(t, d, start, p, nl, NextLine(t, i), e, pieces);
    }
  }

  lemma DelimiterBytes(t: Bytes, d: Bytes, start: nat, p: Bytes, nl: Bytes)
    requires LineEnd(nl) && HasAt(t, start, p + nl + Delimiter(d))
    ensures var e := start + |p + nl|;
            && e + 2 + |d| <= |t| && t[e - 1] == LF && (nl == CRLF ==> t[e - 2] == CR) && t[e] == DASH
            && HasAt(t, start, p) && HasAt(t, start + |p|, nl)
  {
    hide HasAt;
    HasAtBound(t, start, p + nl + Delimiter(d));
    HasAtSplit(t, start, p + nl, Delimiter(d));
    HasAtSplit(t, start, p, nl);
    HasAtByte(t, start + |p + nl|, Delimiter(d), 0);
    HasAtByte(t, start + |p|, nl, |nl| - 1);
    HasAtByte(t, start + |p|, nl, 0);
  }

  /** A printed delimiter is a boundary line, the last one if no part follows. */
  lemma FindsDelimiter(t: Bytes, d: Bytes, e: nat, ps: seq<Part>, l: Layout, post: Bytes)
    requires LegalDivider(d) && LegalLayout(l) && e <= |t| && t[e..] == Delimiter(d) + (Tail(d, ps, l) + post)
    requires e == 0 || t[e - 1] == LF
    ensures e < |t|
    ensures var j := e + 2 + |d| + (if ps == [] then 2 else 0) + |LineRest(l)|;
            && j <= |t| && LineAt(t, d, e) == Boundary(j, ps == [])
            && (ps != [] ==> t[j..] == PartText(ps[0], l) + l.style.nl + Delimiter(d) + (Tail(d, ps[1..], l) + post))
  {
    hide Tail, AfterDivider, LineAt, PartText, Delimiter, LineRest;
    DividerBytes(t, d, e, Tail(d, ps, l) + post);
    TailBytes(t, d, e + 2 + |d|, ps, l, post);
  }

  lemma DividerBytes(t: Bytes, d: Bytes, e: nat, w: Bytes)
    requires LegalDivider(d) && e <= |t| && t[e..] == Delimiter(d) + w
    requires e == 0 || t[e - 1] == LF
    ensures e + 2 + |d| <= |t| && t[e + 2 + |d|..] == w
    ensures LineAt(t, d, e) == AfterDivider(t, e + 2 + |d|)
  {
    hide AfterDivider;
    var u := Delimiter(d) + w;
    var j := e + 2 + |d|;
    assert u[0] == DASH && u[1] == DASH && u[2] == d[0] && u[2..2 + |d|] == d && u[2 + |d|..] == w;
    assert t[e] == t[e..][0] && t[e + 1] == t[e..][1] && t[e + 2] == t[e..][2];
    assert t[e + 2..j] == t[e..][2..2 + |d|] && t[j..] == t[e..][2 + |d|..];
  }

  lemma TailBytes(t: Bytes, d: Bytes, i: nat, ps: seq<Part>, l: Layout, post: Bytes)
    requires LegalLayout(l) && i <= |t| && t[i..] == Tail(d, ps, l) + post
    ensures var j := i + (if ps == [] then 2 else 0) + |LineRest(l)|;
            && j <= |t| && AfterDivider(t, i) == Boundary(j, ps == [])
            && (ps != [] ==> t[j..] == PartText(ps[0], l) + l.style.nl + Delimiter(d) + (Tail(d, ps[1..], l) + post))
  {
    hide AfterDivider, PartText, Delimiter, LineRest;
    if ps == [] {
      assert t[i..] == DASHES + (LineRest(l) + post);
      LastTail(t, i, l, post);
    } else {
      var a, b := PartText(ps[0], l) + l.style.nl + Delimiter(d), Tail(d, ps[1..], l);
      assert t[i..] == LineRest(l) + (a + (b + post));
      PartSome(ps[0], l);
      NextTail(t, i, l, a + (b + post));
    }
  }

  lemma PartSome(p: Part, l: Layout)
    requires LegalLayout(l)
    ensures PartText(p, l) != []
  {
  }

  /** Blanks and a line end after the divider. */
  lemma RestRead(t: Bytes, j: nat, l: Layout, rest: Bytes, last: bool)
    requires LegalLayout(l) && j <= |t| && t[j..] == LineRest(l) + rest
    ensures j + |LineRest(l)| <= |t| && t[j + |LineRest(l)|..] == rest
    ensures RestOfBoundary(t, j, last) == Boundary(j + |LineRest(l)|, last)
    ensures j < |t| && t[j] != DASH
  {
    hide HasAt;
    var k, nl := j + |l.pad|, l.style.nl;
    StandsFirst(t, j, LineRest(l), rest);
    HasAtSplit(t, j, l.pad, nl);
    HasAtByte(t, j, LineRest(l), 0);
    HasAtByte(t, k, nl, 0);
    HasAtByte(t, k, nl, |nl| - 1);
    HasAtBound(t, k, nl);
    forall m | j <= m < k ensures IsBlank(t[m]) { HasAtByte(t, j, l.pad, m - j); }
    SpanIs(t, j, IsBlank, k);
  }

  lemma LastTail(t: Bytes, j: nat, l: Layout, post: Bytes)
    requires LegalLayout(l) && j <= |t| && t[j..] == DASHES + (LineRest(l) + post)
    ensures j + 2 + |LineRest(l)| <= |t| && AfterDivider(t, j) == Boundary(j + 2 + |LineRest(l)|, true)
  {
    hide RestOfBoundary, LineRest;
    StandsFirst(t, j, DASHES, LineRest(l) + post);
    HasAtByte(t, j, DASHES, 0);
    HasAtByte(t, j, DASHES, 1);
    RestRead(t, j + 2, l, post, true);
  }

  lemma NextTail(t: Bytes, j: nat, l: Layout, rest: Bytes)
    requires LegalLayout(l) && j <= |t| && t[j..] == LineRest(l) + rest && rest != []
    ensures j + |LineRest(l)| <= |t| && t[j + |LineRest(l)|..] == rest
    ensures AfterDivider(t, j) == Boundary(j + |LineRest(l)|, false)
  {
    hide RestOfBoundary, LineRest;
    RestRead(t, j, l, rest, false);
  }

  /** What the boundary takes of the text before it. */
  function Ending(s: Bytes): Bytes
  {
    if |s| >= 2 && s[|s| - 2..] == CRLF then CRLF else if s != [] && s[|s| - 1] == LF then [LF] else []
  }

  /** In every text, the body of a part and the line end that belongs to the boundary are what stands before it. */
  lemma BodyBefore(t: Bytes, start: nat, i: nat, j: nat, pieces: seq<Piece>)
    requires 2 <= start <= i <= j <= |t| && start < |t| && WithPart(t, start, i, j, pieces).Parts?
    ensures var r, h := WithPart(t, start, i, j, pieces).pieces, Scanned(t[start..j], MIME);
            && h.Done? && start + h.numBytes <= i && |r| == |pieces| + 1 && r[..|pieces|] == pieces
            && r[|pieces|].number == |r| && r[|pieces|].part.fields == h.fields
            && r[|pieces|].part.body + Ending(t[..i]) == t[start + h.numBytes..i]
  {
    hide HeaderText.Scanned;
    var s, e := t[..i], Stripped(t, i);
    assert s[i - 2..] == [t[i - 2], t[i - 1]];
    assert t[..e] + Ending(s) == s;
    var b := start + Scanned(t[start..j], MIME).numBytes;
    assert t[b..e] + Ending(s) == t[b..i];
  }

  /** A part between two boundary lines is cut out as it was printed, without the fields that cannot be read. */
  lemma CutsPart(t: Bytes, d: Bytes, start: nat, p: Part, l: Layout, j: nat, pieces: seq<Piece>)
    requires LegalDivider(d) && LegalLayout(l) && AllLegal(p.fields, l.style)
    requires HasAt(t, start, PartText(p, l) + l.style.nl + Delimiter(d))
    requires 2 <= start && start + |PartText(p, l) + l.style.nl| <= j <= |t|
    ensures var b := p.body;
            WithPart(t, start, start + |PartText(p, l) + l.style.nl|, j, pieces) ==
            Parts(pieces + [Piece(|pieces| + 1, Part(ReadableOnly(p.fields), if Ends(b, l.style) then b else b[..|b| - 1]))])
  {
    hide HeaderText.Scanned, HeaderText.Printed, ReadableOnly, HasAt, AllLegal;
    var u, nl, h := PartText(p, l), l.style.nl, HeaderText.Printed(p.fields, l.style);
    var e, n := start + |u + nl|, |h| + |nl|;
    DelimiterBytes(t, d, start, u, nl);
    HasAtSplit(t, start, h + nl, p.body);
    Taken(t, start + n, p.body);
    FrontOf(t, start, j, h + nl);
    HeaderInverse(p.fields, t[start + n..j], MIME, l.style);
    StripsBody(t, d, start, p, l);
    var b := p.body;
    assert !Ends(b, l.style) ==> t[start + n..e - 2] == b[..|b| - 1];
  }

  lemma FrontOf(t: Bytes, start: nat, j: nat, a: Bytes)
    requires HasAt(t, start, a) && start + |a| <= j <= |t|
    ensures t[start..j] == a + t[start + |a|..j]
  {
    assert t[start..j] == t[start..start + |a|] + t[start + |a|..j];
  }

  /** Where the line end before the delimiter starts. */
  lemma StripsBody(t: Bytes, d: Bytes, start: nat, p: Part, l: Layout)
    requires LegalLayout(l) && HasAt(t, start, PartText(p, l) + l.style.nl + Delimiter(d)) && 2 <= start
    ensures var e := start + |PartText(p, l) + l.style.nl|;
            e <= |t| && Stripped(t, e) == if Ends(p.body, l.style) then start + |PartText(p, l)| else e - 2
  {
    hide HasAt, HeaderText.Printed;
    var u, nl := PartText(p, l), l.style.nl;
    DelimiterBytes(t, d, start, u, nl);
    HasAtByte(t, start, u, |u| - 1);
    assert u[|u| - 1] == if p.body == [] then nl[|nl| - 1] else p.body[|p.body| - 1];
  }

  /** The result does not hold that part next to `pieces`. */
  predicate Misses(r: Result, pieces: seq<Piece>, p: Part)
  {
    r.Parts? ==> |r.pieces| <= |pieces| || r.pieces[|pieces|] != Piece(|pieces| + 1, p)
  }

  /** Pieces that are cut off stay. */
  lemma {:induction false} PiecesStay(t: Bytes, d: Bytes, i: nat, start: nat, pieces: seq<Piece>)
    requires (start == 0 || 2 <= start) && start <= i <= |t|
    ensures var r := ScanFrom(t, d, i, start, pieces); r.Parts? ==> pieces <= r.pieces
    decreases |t| - i
  {
    hide LineAt, NextLine, HeaderText.Scanned, Stripped;
    if i < |t| {
      match LineAt(t, d, i)
      case Overrun =>
      case NotBoundary => PiecesStay(t, d, NextLine(t, i), start, pieces);
      case Boundary(j, last) =>
        match WithPart(t, start, i, j, pieces)
        case OutOfRange =>
        case Parts(more) => if !last { PiecesStay(t, d, NextLine(t, j), j, more); }
    }
  }

  /** A boundary line at `e` where the part cut off is not `p`: what follows does not matter. */
  lemma MissesOn(t: Bytes, d: Bytes, e: nat, start: nat, pieces: seq<Piece>, p: Part)
    requires 2 <= start <= e < |t| && LineAt(t, d, e).Boundary?
    requires var r := WithPart(t, start, e, LineAt(t, d, e).next, pieces); r.Parts? ==> |r.pieces| == |pieces| + 1 && Misses(r, pieces, p)
    ensures Misses(ScanFrom(t, d, e, start, pieces), pieces, p)
  {
    hide LineAt, NextLine, WithPart;
    var x := LineAt(t, d, e);
    var r := WithPart(t, start, e, x.next, pieces);
    if r.Parts? && !x.last { PiecesStay(t, d, NextLine(t, x.next), x.next, r.pieces); }
  }

  /** The first boundary line inside a text. */
  lemma {:induction false} FirstBoundary(p: Bytes, d: Bytes, n: nat) returns (k: nat)
    requires !QuietTo(p, d, n)
    ensures k < n && NewLine(p, k) && DividesAt(p, d, k) && QuietTo(p, d, k)
  {
    hide DividesAt;
    if QuietTo(p, d, n - 1) {
      k := n - 1;
    } else {
      k := FirstBoundary(p, d, n - 1);
    }
  }

  /** What stands before a line of the header that is no continuation is whole fields. */
  lemma FieldsBefore(p: Part, l: Layout, k: nat) returns (q: nat)
    requires LegalLayout(l) && AllLegal(p.fields, l.style)
    requires k < |HeaderText.Printed(p.fields, l.style)| && NewLine(PartText(p, l), k) && PartText(p, l)[k] == DASH
    ensures q <= |p.fields| && AllLegal(p.fields[..q], l.style) && |HeaderText.Printed(p.fields[..q], l.style)| == k
    ensures PartText(p, l) == HeaderText.Printed(p.fields[..q], l.style) + PartText(p, l)[k..]
  {
    hide HeaderText.Printed, AllLegal;
    var u, h := PartText(p, l), HeaderText.Printed(p.fields, l.style);
    assert u[k] == h[k] && u[k - 1] == h[k - 1];
    q := HeaderLines(p.fields, k, l.style);
    PrintedTake(p.fields, q, l.style);
    LegalTake(p.fields, q, l.style);
    assert u[..k] == h[..k] && u == u[..k] + u[k..];
  }

  lemma ReadsTooFar(t: Bytes, start: nat, j: nat, g: seq<RawField>, y: Style)
    requires LegalStyle(y) && AllLegal(g, y) && HasAt(t, start, HeaderText.Printed(g, y))
    requires var k := start + |HeaderText.Printed(g, y)|; k < j <= |t| && !IsBlank(t[k])
    ensures var h := Scanned(t[start..j], MIME); h.Done? ==> h.numBytes >= |HeaderText.Printed(g, y)|
  {
    hide HeaderText.Printed, AllLegal, HasAt;
    var a, x := HeaderText.Printed(g, y), t[start..j];
    var rest := t[start + |a|..j];
    FrontOf(t, start, j, a);
    assert x[0..] == x && rest[0] == t[start + |a|];
    ScanFields(x, MIME, 0, g, rest, [], y);
  }

  /** A boundary line in the header: the header is read too far. */
  lemma CutInHeader(t: Bytes, start: nat, p: Part, l: Layout, k: nat, j: nat, pieces: seq<Piece>)
    requires LegalLayout(l) && AllLegal(p.fields, l.style) && HasAt(t, start, PartText(p, l)) && 2 <= start && start + k < j <= |t|
    requires k < |HeaderText.Printed(p.fields, l.style)| && NewLine(PartText(p, l), k) && PartText(p, l)[k] == DASH
    ensures WithPart(t, start, start + k, j, pieces) == OutOfRange
  {
    hide HeaderText.Printed, AllLegal, HasAt, HeaderText.Scanned, PartText;
    var u := PartText(p, l);
    HasAtByte(t, start, u, k - 1);
    HasAtByte(t, start, u, k);
    var q := FieldsBefore(p, l, k);
    HasAtSplit(t, start, HeaderText.Printed(p.fields[..q], l.style), u[k..]);
    ReadsTooFar(t, start, j, p.fields[..q], l.style);
  }

  lemma LegalTake(fs: seq<RawField>, q: nat, y: Style)
    requires AllLegal(fs, y) && q <= |fs|
    ensures AllLegal(fs[..q], y)
  {
  }

  /** A boundary line in the body: the body is cut short, or too short. */
  lemma CutInBody(t: Bytes, start: nat, p: Part, l: Layout, k: nat, j: nat, pieces: seq<Piece>)
    requires LegalLayout(l) && AllLegal(p.fields, l.style) && HasAt(t, start, PartText(p, l)) && 2 <= start && start + k < j <= |t|
    requires |HeaderText.Printed(p.fields, l.style)| + |l.style.nl| <= k && NewLine(PartText(p, l), k)
    ensures var r := WithPart(t, start, start + k, j, pieces);
            r.Parts? ==> |r.pieces| == |pieces| + 1 && Misses(r, pieces, p)
  {
    hide HeaderText.Scanned, HeaderText.Printed, AllLegal, ReadableOnly, HasAt;
    var nl, h := l.style.nl, HeaderText.Printed(p.fields, l.style);
    var n := |h| + |nl|;
    HasAtByte(t, start, PartText(p, l), k - 1);
    HasAtSplit(t, start, h + nl, p.body);
    FrontOf(t, start, j, h + nl);
    HeaderInverse(p.fields, t[start + n..j], MIME, l.style);
    assert Stripped(t, start + k) < start + k;
  }

  /** A part that is not kept is lost. */
  lemma PartLost(t: Bytes, d: Bytes, start: nat, ps: seq<Part>, l: Layout, post: Bytes, pieces: seq<Piece>)
    requires LegalDivider(d) && LegalLayout(l) && ps != [] && AllLegal(ps[0].fields, l.style) && !Kept(ps[0], d, l)
    requires 2 <= start <= |t| && t[start..] == PartText(ps[0], l) + l.style.nl + Delimiter(d) + (Tail(d, ps[1..], l) + post)
    ensures Misses(ScanFrom(t, d, NextLine(t, start), start, pieces), pieces, ps[0])
  {
    hide LineAt, NextLine, WithPart, Tail, AllLegal, Misses, PartText, DividesAt, HasAt;
    var p, nl := PartText(ps[0], l), l.style.nl;
    StandsFirst(t, start, p + nl + Delimiter(d), Tail(d, ps[1..], l) + post);
    if Quiet(p, d) {
      PartSpoilt(t, d, start, ps, l, post, pieces);
    } else {
      var k := FirstBoundary(p, d, |p|);
      var e := start + k;
      AtBoundary(t, d, start, p, nl, k);
      NextLineIs(t, start, e);
      SkipPart(t, d, start, p, nl, NextLine(t, start), e, pieces);
      LineInside(t, d, start, p, nl, e);
      CutShort(t, start, ps[0], l, k, LineAt(t, d, e).next, pieces);
      MissesOn(t, d, e, start, pieces, ps[0]);
    }
  }

  lemma AtBoundary(t: Bytes, d: Bytes, start: nat, p: Bytes, nl: Bytes, k: nat)
    requires HasAt(t, start, p + nl + Delimiter(d)) && NewLine(p, k) && DividesAt(p, d, k)
    ensures start + k < |t| && t[start + k - 1] == LF && t[start + k] == p[k] == DASH && HasAt(t, start, p)
  {
    HasAtSplit(t, start, p + nl, Delimiter(d));
    HasAtSplit(t, start, p, nl);
    HasAtByte(t, start, p, k - 1);
    HasAtByte(t, start, p, k);
    HasAtByte(p, k, Delimiter(d), 0);
  }

  lemma CutShort(t: Bytes, start: nat, p: Part, l: Layout, k: nat, j: nat, pieces: seq<Piece>)
    requires LegalLayout(l) && AllLegal(p.fields, l.style) && HasAt(t, start, PartText(p, l)) && 2 <= start && start + k < j <= |t|
    requires NewLine(PartText(p, l), k) && PartText(p, l)[k] == DASH
    ensures var r := WithPart(t, start, start + k, j, pieces);
            r.Parts? ==> |r.pieces| == |pieces| + 1 && Misses(r, pieces, p)
  {
    hide WithPart, AllLegal, Misses, HeaderText.Printed, HasAt;
    var n, nl := |HeaderText.Printed(p.fields, l.style)|, l.style.nl;
    assert PartText(p, l)[n] == nl[0] && PartText(p, l)[n + |nl| - 1] == LF;
    if k < n { CutInHeader(t, start, p, l, k, j, pieces); } else { CutInBody(t, start, p, l, k, j, pieces); }
  }

  /** A field that cannot be read, or a last byte that is taken for part of the line end. */
  lemma PartSpoilt(t: Bytes, d: Bytes, start: nat, ps: seq<Part>, l: Layout, post: Bytes, pieces: seq<Piece>)
    requires LegalDivider(d) && LegalLayout(l) && ps != [] && AllLegal(ps[0].fields, l.style) && Quiet(PartText(ps[0], l), d)
    requires !Ends(ps[0].body, l.style) || exists k :: 0 <= k < |ps[0].fields| && !Readable(ps[0].fields[k])
    requires 2 <= start <= |t| && t[start..] == PartText(ps[0], l) + l.style.nl + Delimiter(d) + (Tail(d, ps[1..], l) + post)
    ensures Misses(ScanFrom(t, d, NextLine(t, start), start, pieces), pieces, ps[0])
  {
    hide LineAt, NextLine, WithPart, Tail, AllLegal, PartText, ReadableOnly, Readable, Quiet, HasAt;
    var e := start + |PartText(ps[0], l) + l.style.nl|;
    var j := ReachesDelimiter(t, d, start, ps, l, post, pieces);
    if exists k :: 0 <= k < |ps[0].fields| && !Readable(ps[0].fields[k]) { SomeUnreadable(ps[0].fields); }
    CutsPart(t, d, start, ps[0], l, j, pieces);
    MissesOn(t, d, e, start, pieces, ps[0]);
  }

  /** The scan of a part whose text holds no boundary line reaches the delimiter after it. */
  lemma ReachesDelimiter(t: Bytes, d: Bytes, start: nat, ps: seq<Part>, l: Layout, post: Bytes, pieces: seq<Piece>) returns (j: nat)
    requires LegalDivider(d) && LegalLayout(l) && ps != [] && Quiet(PartText(ps[0], l), d)
    requires 2 <= start <= |t| && t[start..] == PartText(ps[0], l) + l.style.nl + Delimiter(d) + (Tail(d, ps[1..], l) + post)
    ensures HasAt(t, start, PartText(ps[0], l) + l.style.nl + Delimiter(d))
    ensures var e := start + |PartText(ps[0], l) + l.style.nl|;
            && e < |t| && LineAt(t, d, e) == Boundary(j, ps[1..] == []) && e <= j <= |t|
            && ScanFrom(t, d, NextLine(t, start), start, pieces) == ScanFrom(t, d, e, start, pieces)
            && (ps[1..] != [] ==> t[j..] == PartText(ps[1], l) + l.style.nl + Delimiter(d) + (Tail(d, ps[2..], l) + post))
  {
    hide LineAt, NextLine, WithPart, PartText, Tail, Quiet, ScanFrom, LineRest, HasAt, Delimiter, LegalDivider;
    var p, nl, rest := PartText(ps[0], l), l.style.nl, ps[1..];
    var e := start + |p + nl|;
    PassesPart(t, d, start, p, nl, Tail(d, rest, l) + post, pieces);
    FindsDelimiter(t, d, e, rest, l, post);
    j := e + 2 + |d| + (if rest == [] then 2 else 0) + |LineRest(l)|;
    assert rest != [] ==> rest[0] == ps[1] && rest[1..] == ps[2..];
  }

  lemma PassesPart(t: Bytes, d: Bytes, start: nat, p: Bytes, nl: Bytes, w: Bytes, pieces: seq<Piece>)
    requires LegalDivider(d) && LineEnd(nl) && Quiet(p, d) && 2 <= start <= |t| && t[start..] == p + nl + Delimiter(d) + w
    ensures var e := start + |p + nl|;
            && HasAt(t, start, p + nl + Delimiter(d)) && e < |t| && t[e - 1] == LF && t[e..] == Delimiter(d) + w
            && ScanFrom(t, d, NextLine(t, start), start, pieces) == ScanFrom(t, d, e, start, pieces)
  {
    hide LineAt, NextLine, WithPart, Quiet, ScanFrom, HasAt, Delimiter, LegalDivider, QuietTo;
    var e := start + |p + nl|;
    StandsFirst(t, start, p + nl + Delimiter(d), w);
    DelimiterBytes(t, d, start, p, nl);
    NextLineIs(t, start, e);
    QuietMore(p, d, e - start);
    SkipPart(t, d, start, p, nl, NextLine(t, start), e, pieces);
    assert t[start..] == (p + nl) + (Delimiter(d) + w);
    StandsFirst(t, start, p + nl, Delimiter(d) + w);
  }

  lemma QuietMore(p: Bytes, d: Bytes, n: nat)
    requires Quiet(p, d)
    ensures QuietTo(p, d, n)
  {
  }

  /** A boundary line that ends a part. */
  lemma ScanOn(t: Bytes, d: Bytes, e: nat, start: nat, pieces: seq<Piece>, j: nat, last: bool, more: seq<Piece>)
    requires 2 <= start <= e < |t| && LineAt(t, d, e) == Boundary(j, last) && WithPart(t, start, e, j, pieces) == Parts(more)
    ensures 2 <= j <= |t|
    ensures ScanFrom(t, d, e, start, pieces) == if last then Parts(more) else ScanFrom(t, d, NextLine(t, j), j, more)
  {
    hide LineAt, NextLine, WithPart;
  }

  /** The scan from just after a delimiter that parts follow. */
  lemma {:induction false} ScanParts(t: Bytes, d: Bytes, start: nat, ps: seq<Part>, l: Layout, post: Bytes, pieces: seq<Piece>)
    requires LegalDivider(d) && LegalLayout(l) && ps != [] && forall k :: 0 <= k < |ps| ==> AllLegal(ps[k].fields, l.style)
    requires 2 <= start <= |t| && t[start..] == PartText(ps[0], l) + l.style.nl + Delimiter(d) + (Tail(d, ps[1..], l) + post)
    ensures ScanFrom(t, d, NextLine(t, start), start, pieces) == Parts(pieces + Numbered(ps, |pieces| + 1)) <==> AllKept(ps, d, l)
    decreases |ps|
  {
    hide LineAt, NextLine, WithPart, AllLegal, PartText, Tail, Kept, ScanFrom, ReadableOnly, LegalLayout, HasAt;
    var all := pieces + Numbered(ps, |pieces| + 1);
    assert all[|pieces|] == Piece(|pieces| + 1, ps[0]);
    if !Kept(ps[0], d, l) {
      PartLost(t, d, start, ps, l, post, pieces);
    } else {
      KeptMeans(ps[0], d, l);
      var j := ReachesDelimiter(t, d, start, ps, l, post, pieces);
      CutsPart(t, d, start, ps[0], l, j, pieces);
      var more := pieces + [Piece(|pieces| + 1, ps[0])];
      var rest := ps[1..];
      ScanOn(t, d, start + |PartText(ps[0], l) + l.style.nl|, start, pieces, j, rest == [], more);
      if rest == [] {
        assert more == all;
      } else {
        assert rest[0] == ps[1] && rest[1..] == ps[2..];
        ScanParts(t, d, j, rest, l, post, more);
        assert more + Numbered(rest, |more| + 1) == all;
        assert forall k :: 0 < k < |ps| ==> ps[k] == rest[k - 1];
      }
    }
  }

  predicate AllKept(ps: seq<Part>, d: Bytes, l: Layout) { forall k :: 0 <= k < |ps| ==> Kept(ps[k], d, l) }

  lemma KeptMeans(p: Part, d: Bytes, l: Layout)
    requires Kept(p, d, l)
    ensures Quiet(PartText(p, l), d) && ReadableOnly(p.fields) == p.fields && Ends(p.body, l.style)
  {
    AllReadable(p.fields);
  }

  // ------------------------------------------------------ before and after it

  /** The text before the first delimiter: whole lines, none of them a boundary. */
  predicate Preamble(pre: Bytes, d: Bytes)
  {
    pre != [] ==>
      && pre[|pre| - 1] == LF
      && forall k :: 0 <= k < |pre| && (k == 0 || NewLine(pre, k)) ==> !DividesAt(pre, d, k)
  }

  /** The parts between delimiters, with text before and after. */
  function Framed(pre: Bytes, d: Bytes, ps: seq<Part>, l: Layout, post: Bytes): Bytes
  {
    pre + (Delimiter(d) + (Tail(d, ps, l) + post))
  }

  lemma PreambleLine(q: Bytes, d: Bytes, k: nat)
    requires LegalDivider(d) && k < |q|
    ensures DividesAt(q, d, k) <==> DividesAt(q + [LF], d, k)
  {
    hide EndsLine;
    var u, w, j := q + [LF], Delimiter(d), k + 2 + |d|;
    if k + |w| <= |q| {
      assert u[k..k + |w|] == q[k..k + |w|];
      EndsEither(q, j);
    } else if k + |w| <= |u| {
      assert u[k..k + |w|][|q| - k] == LF && !IsBreak(w[|q| - k]);
    }
  }

  lemma EndsEither(q: Bytes, j: nat)
    requires j <= |q|
    ensures EndsLine(q, j) <==> EndsLine(q + [LF], j)
  {
    var u := q + [LF];
    DashesInside(q, j);
    DashesInside(u, j);
    var i := if HasAt(q, j, DASHES) then j + 2 else j;
    SpanIs(u, i, IsBlank, SpanEnd(q, i, IsBlank));
  }

  /** The first line of the text. */
  lemma FirstLine(t: Bytes, d: Bytes, q: Bytes)
    requires LegalDivider(d) && HasAt(t, 0, q + [LF] + Delimiter(d)) && (q != [] ==> !DividesAt(q, d, 0))
    ensures t != [] && LineAt(t, d, 0) == NotBoundary
  {
    hide LineAt, EndsLine, AfterDivider, HasAt;
    BytesInside(t, d, 0, q, [LF], 0);
    if q != [] && HasAt(q, 0, Delimiter(d)) {
      DividedInside(t, d, 0, q, [LF], 0);
    } else {
      NotDelimited(t, d, 0);
    }
  }

  lemma PreambleBytes(t: Bytes, d: Bytes, pre: Bytes)
    requires HasAt(t, 0, pre + Delimiter(d)) && pre != []
    ensures |pre| < |t| && t[|pre| - 1] == pre[|pre| - 1] && t[|pre|] == DASH
  {
    hide HasAt;
    HasAtSplit(t, 0, pre, Delimiter(d));
    HasAtByte(t, 0, pre, |pre| - 1);
    HasAtByte(t, |pre|, Delimiter(d), 0);
  }

  lemma PreambleQuiet(pre: Bytes, q: Bytes, d: Bytes)
    requires LegalDivider(d) && Preamble(pre, d) && pre == q + [LF]
    ensures QuietTo(q, d, |pre|)
  {
    hide DividesAt, LegalDivider;
    forall k | 0 <= k < |pre| && NewLine(q, k) ensures !DividesAt(q, d, k) {
      assert NewLine(pre, k);
      PreambleLine(q, d, k);
    }
  }

  /** The scan passes the text before the first delimiter. */
  lemma SkipPreamble(t: Bytes, d: Bytes, pre: Bytes)
    requires LegalDivider(d) && Preamble(pre, d) && HasAt(t, 0, pre + Delimiter(d))
    ensures |pre| <= |t| && Split(t, d) == ScanFrom(t, d, |pre|, 0, [])
  {
    hide LineAt, NextLine, DividesAt, HasAt, LegalDivider, QuietTo, Delimiter, WithPart;
    HasAtBound(t, 0, pre + Delimiter(d));
    if pre != [] {
      var q := pre[..|pre| - 1];
      assert pre == q + [LF];
      PreambleBytes(t, d, pre);
      if q != [] { PreambleLine(q, d, 0); }
      FirstLine(t, d, q);
      NextLineIs(t, 0, |pre|);
      PreambleQuiet(pre, q, d);
      SkipPart(t, d, 0, q, [LF], NextLine(t, 0), |pre|, []);
    }
  }

  lemma ScanStarts(t: Bytes, d: Bytes, e: nat, ps: seq<Part>, l: Layout, post: Bytes)
    requires LegalDivider(d) && LegalLayout(l) && e <= |t| && t[e..] == Delimiter(d) + (Tail(d, ps, l) + post)
    requires e == 0 || t[e - 1] == LF
    ensures ps == [] ==> ScanFrom(t, d, e, 0, []) == Parts([])
    ensures var j := e + 2 + |d| + |LineRest(l)|;
            ps != [] ==>
              && 2 <= j <= |t| && ScanFrom(t, d, e, 0, []) == ScanFrom(t, d, NextLine(t, j), j, [])
              && t[j..] == PartText(ps[0], l) + l.style.nl + Delimiter(d) + (Tail(d, ps[1..], l) + post)
  {
    hide LineAt, NextLine, PartText, Tail, LineRest, LegalDivider, LegalLayout, Delimiter;
    FindsDelimiter(t, d, e, ps, l, post);
  }

  /**
    Splitting undoes printing exactly if every field can be read and no part holds
    a boundary line, whatever stands before and after: lines may end with CR LF or
    LF, and blanks may follow the delimiters.  A part's first line is never looked at.
   */
  lemma FramingExactly(pre: Bytes, d: Bytes, ps: seq<Part>, l: Layout, post: Bytes)
    requires LegalDivider(d) && LegalLayout(l) && Preamble(pre, d) && forall k :: 0 <= k < |ps| ==> AllLegal(ps[k].fields, l.style)
    ensures Split(Framed(pre, d, ps, l, post), d) == Parts(Numbered(ps, 1)) <==> AllKept(ps, d, l)
  {
    hide NextLine, AllLegal, Kept, PartText, Tail, ScanFrom, Split, Numbered, LegalDivider, Delimiter, HasAt, LegalLayout, LineRest, DividesAt;
    var t, rest := Framed(pre, d, ps, l, post), Tail(d, ps, l) + post;
    assert t[0..] == t && t == pre + Delimiter(d) + rest;
    StandsFirst(t, 0, pre + Delimiter(d), rest);
    SkipPreamble(t, d, pre);
    assert t[|pre|..] == Delimiter(d) + rest;
    assert pre != [] ==> t[|pre| - 1] == pre[|pre| - 1];
    ScanStarts(t, d, |pre|, ps, l, post);
    var all := Numbered(ps, 1);
    if ps == [] {
      assert all == [];
    } else {
      ScanParts(t, d, |pre| + 2 + |d| + |LineRest(l)|, ps, l, post, []);
      assert [] + all == all;
    }
  }

  // ------------------------------------------------------ texts not closed

  /** No line after the first starts with a dash. */
  predicate Dashless(u: Bytes) { forall k :: 0 < k < |u| && IsBreak(u[k - 1]) ==> u[k] != DASH }

  lemma NextLineEnds(t: Bytes, i: nat)
    requires i < |t|
    ensures i < NextLine(t, i) <= |t| && (NextLine(t, i) < |t| ==> IsBreak(t[NextLine(t, i) - 1]))
  {
  }

  /** Without dashes the scan runs to the end of the text. */
  lemma {:induction false} ScanToEnd(t: Bytes, d: Bytes, start: nat, i: nat, pieces: seq<Piece>)
    requires 2 <= start <= i <= |t| && (i < |t| ==> i > start && IsBreak(t[i - 1])) && Dashless(t[start..])
    ensures ScanFrom(t, d, i, start, pieces) == WithPart(t, start, |t|, |t|, pieces)
    decreases |t| - i
  {
    hide NextLine, WithPart;
    if i < |t| {
      var u, k := t[start..], i - start;
      assert u[k] == t[i] && u[k - 1] == t[i - 1];
      assert LineAt(t, d, i) == NotBoundary;
      NextLineEnds(t, i);
      ScanToEnd(t, d, start, NextLine(t, i), pieces);
    }
  }

  lemma OpenLine(t: Bytes, d: Bytes, l: Layout, u: Bytes)
    requires LegalDivider(d) && LegalLayout(l) && t == Delimiter(d) + (LineRest(l) + u)
    ensures var start := 2 + |d| + |LineRest(l)|;
            start <= |t| && t[start..] == u && LineAt(t, d, 0) == Boundary(start, false)
  {
    hide LineAt, LineRest, RestOfBoundary, LegalDivider, LegalLayout;
    assert t[0..] == t;
    DividerBytes(t, d, 0, LineRest(l) + u);
    RestRead(t, 2 + |d|, l, u, false);
  }

  /** The scan of a text that starts with a delimiter. */
  lemma OpenStarts(t: Bytes, d: Bytes, l: Layout, u: Bytes)
    requires LegalDivider(d) && LegalLayout(l) && t == Delimiter(d) + (LineRest(l) + u) && Dashless(u)
    ensures var start := 2 + |d| + |LineRest(l)|;
            start <= |t| && t[start..] == u && Split(t, d) == WithPart(t, start, |t|, |t|, [])
  {
    hide LineAt, NextLine, LineRest, Dashless, LegalDivider, LegalLayout, Delimiter;
    var start := 2 + |d| + |LineRest(l)|;
    OpenLine(t, d, l, u);
    if start < |t| { NextLineEnds(t, start); }
    OpenStep(t, d, start);
    ScanToEnd(t, d, start, NextLine(t, start), []);
  }

  lemma OpenStep(t: Bytes, d: Bytes, start: nat)
    requires |t| > 0 && LineAt(t, d, 0) == Boundary(start, false)
    ensures Split(t, d) == ScanFrom(t, d, NextLine(t, start), start, [])
  {
    hide LineAt, NextLine;
  }

  /**
    A last part that no delimiter follows reaches to the end of the text, but for
    a line end there; without a body it stops the program.  After a delimiter
    at the end of the text there is no part.
   */
  lemma OpenPart(d: Bytes, p: Part, l: Layout)
    requires LegalDivider(d) && LegalLayout(l) && AllLegal(p.fields, l.style) && Dashless(PartText(p, l))
    ensures Split(Delimiter(d) + (LineRest(l) + PartText(p, l)), d) ==
            if p.body == [] then OutOfRange
            else Parts([Piece(1, Part(ReadableOnly(p.fields), p.body[..|p.body| - |Ending(p.body)|]))])
    ensures Split(Delimiter(d) + (LineRest(l) + []), d) == Parts([])
  {
    hide HeaderText.Scanned, HeaderText.Printed, AllLegal, ReadableOnly, Split, LineRest, Dashless, Stripped, Ending;
    var u := PartText(p, l);
    var t := Delimiter(d) + (LineRest(l) + u);
    var start, h := 2 + |d| + |LineRest(l)|, HeaderText.Printed(p.fields, l.style) + l.style.nl;
    OpenStarts(t, d, l, u);
    assert t[start..|t|] == u == h + p.body;
    HeaderInverse(p.fields, p.body, MIME, l.style);
    EndStripped(t, start, l.style.nl, h, p.body);
    NoDashes();
    OpenStarts(Delimiter(d) + (LineRest(l) + []), d, l, []);
  }

  lemma NoDashes()
    ensures Dashless([])
  {
  }

  lemma EndStripped(t: Bytes, start: nat, nl: Bytes, h: Bytes, body: Bytes)
    requires 2 <= start <= |t| && t[start..] == h + body && LineEnd(nl) && |h| >= |nl| && h[|h| - |nl|..] == nl
    ensures body == [] ==> Stripped(t, |t|) < start + |h|
    ensures body != [] ==> Stripped(t, |t|) == |t| - |Ending(body)| && start + |h| <= |t| - |Ending(body)|
    ensures body != [] ==> t[start + |h|..|t| - |Ending(body)|] == body[..|body| - |Ending(body)|]
  {
    var u, n := h + body, |h| + |body|;
    assert |t| == start + n;
    assert h[|h| - 1] == nl[|nl| - 1];
    assert t[|t| - 1] == t[start..][n - 1];
    assert t[|t| - 2] == if n >= 2 then t[start..][n - 2] else t[start - 1];
    if |body| >= 2 { assert body[|body| - 2..] == [body[|body| - 2], body[|body| - 1]]; }
    assert t[start + |h|..] == t[start..][|h|..] == body;
  }

  lemma FramedAlone(d: Bytes, ps: seq<Part>)
    ensures Framed([], d, ps, PLAIN, []) == Printed(d, ps)
  {
    hide Tail;
  }

  /**
    Splitting undoes printing: exactly the parts printed, in order, numbered
    from 1.
   */
  lemma FramingInverse(d: Bytes, ps: seq<Part>)
    requires LegalDivider(d) && forall k :: 0 <= k < |ps| ==> LegalPart(ps[k], d, PLAIN)
    ensures Split(Printed(d, ps), d) == Parts(Numbered(ps, 1))
  {
    hide Split, Kept, AllLegal, Tail;
    FramingExactly([], d, ps, PLAIN, []);
    FramedAlone(d, ps);
  }
}
