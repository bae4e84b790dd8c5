/**
  What may stand before the fields of a header: a byte order mark, and the
  `From ` line of a mailbox file.
 */
module HeaderStart {
  import opened Octets
  import opened HeaderText

  function ShiftedItem(x: Item, n: nat): Item
  {
    match x
    case Crash => Crash
    case Stop(j) => Stop(n + j)
    case Skip(j) => Skip(n + j)
    case Field(f, j) => Field(f, n + j)
  }

  function Shifted(x: Scan, n: nat): Scan
  {
    match x
    case Panic => Panic
    case Done(fs, k) => Done(fs, n + k)
  }

  lemma SliceShift(p: Bytes, u: Bytes, i: nat, j: nat)
    requires i <= j <= |u|
    ensures (p + u)[|p| + i..|p| + j] == u[i..j]
  {
  }

  lemma {:induction false} ValueEndShift(p: Bytes, u: Bytes, i: nat)
    requires i <= |u|
    ensures ValueEnd(p + u, |p| + i) == |p| + ValueEnd(u, i)
    decreases |u| - i
  {
    assert forall k :: 0 <= k < |u| ==> (p + u)[|p| + k] == u[k];
    if i < |u| { ValueEndShift(p, u, i + 1); }
  }

  lemma ValueShift(p: Bytes, u: Bytes, name: Bytes, i: nat)
    requires i <= |u|
    ensures ValueAt(p + u, name, |p| + i) == ShiftedItem(ValueAt(u, name, i), |p|)
  {
    hide ValueEnd, AllSpace, IsExtension;
    var t, e := p + u, ValueEnd(u, i);
    ValueEndShift(p, u, i);
    assert forall k :: 0 <= k < |u| ==> t[|p| + k] == u[k];
    var j := if e > i && u[e - 1] == CR then e - 1 else e;
    SliceShift(p, u, i, j);
  }

  lemma FieldShift(p: Bytes, u: Bytes, i: nat, j: nat)
    requires i <= j < |u|
    ensures FieldAt(p + u, |p| + i, |p| + j) == ShiftedItem(FieldAt(u, i, j), |p|)
  {
    hide ValueAt;
    SpanShift(p, u, j + 1, IsBlank);
    SliceShift(p, u, i, j);
    var v := SpanEnd(u, j + 1, IsBlank);
    ValueShift(p, u, u[i..j], v);
  }

  lemma FromShift(p: Bytes, u: Bytes, i: nat)
    requires i < |u| && !IsBreak(u[i])
    ensures FromLine(p + u, |p| + i) == ShiftedItem(FromLine(u, i), |p|)
  {
    hide SpanEnd;
    assert forall k :: 0 <= k < |u| ==> (p + u)[|p| + k] == u[k];
    SpanShift(p, u, i, NotBreak);
    SpanShift(p, u, SpanEnd(u, i, NotBreak), IsReturn);
  }

  lemma HereShift(p: Bytes, u: Bytes, m: Mode, i: nat)
    requires i <= |u|
    ensures ItemHere(p + u, m, |p| + i) == ShiftedItem(ItemHere(u, m, i), |p|)
  {
    hide FromLine, FieldAt, SpanEnd, Lower, IsNameByte, FROM_;
    SpanShift(p, u, i, IsNameByte);
    var j := SpanEnd(u, i, IsNameByte);
    if j < |u| {
      assert (p + u)[|p| + j] == u[j];
      SliceShift(p, u, i, j + 1);
      if j > i {
        FieldShift(p, u, i, j);
        NameStarts(u, i, j);
        FromShift(p, u, i);
      }
    }
  }

  lemma NameStarts(u: Bytes, i: nat, j: nat)
    requires i < j <= |u| && j == SpanEnd(u, i, IsNameByte)
    ensures !IsBreak(u[i])
  {
  }

  /** An item looks at what follows only. */
  lemma ItemShift(p: Bytes, u: Bytes, m: Mode, at: nat)
    requires at < |u|
    ensures ItemAt(p + u, m, |p| + at) == ShiftedItem(ItemAt(u, m, at), |p|)
  {
    hide ItemHere;
    assert forall k :: 0 <= k < |u| ==> (p + u)[|p| + k] == u[k];
    HereShift(p, u, m, if HasBOM(u, at) then at + 3 else at);
  }

  lemma {:induction false} ScanShift(p: Bytes, u: Bytes, m: Mode, i: nat, done: seq<RawField>)
    ensures ScanFrom(p + u, m, |p| + i, done) == Shifted(ScanFrom(u, m, i, done), |p|)
    decreases |u| - i
  {
    hide ItemAt;
    if i < |u| {
      ItemShift(p, u, m, i);
      match ItemAt(u, m, i)
      case Crash =>
      case Stop(j) => BlankShift(p, u, j);
      case Skip(j) => ScanShift(p, u, m, j, done);
      case Field(f, j) => ScanShift(p, u, m, j, done + [f]);
    }
  }

  const MARK: Bytes := [0xEF, 0xBB, 0xBF]

  lemma MarkedItem(u: Bytes, m: Mode)
    requires u != [] && !HasBOM(u, 0)
    ensures ItemAt(MARK + u, m, 0) == ShiftedItem(ItemAt(u, m, 0), 3)
  {
    hide ItemHere;
    assert HasBOM(MARK + u, 0);
    HereShift(MARK, u, m, 0);
  }

  /** A byte order mark in front of a header is skipped. */
  lemma MarkSkipped(u: Bytes, m: Mode)
    requires !HasBOM(u, 0)
    ensures Scanned(MARK + u, m) == Shifted(Scanned(u, m), 3)
  {
    hide ItemAt;
    var t := MARK + u;
    if u == [] {
      assert t == MARK;
      OnlyMark(m);
    } else {
      MarkedItem(u, m);
      MarkedScan(u, m, ItemAt(u, m, 0));
    }
  }

  lemma MarkedScan(u: Bytes, m: Mode, x: Item)
    requires u != [] && ItemAt(u, m, 0) == x && ItemAt(MARK + u, m, 0) == ShiftedItem(x, 3)
    ensures Scanned(MARK + u, m) == Shifted(Scanned(u, m), 3)
  {
    hide ItemAt;
    match x
    case Crash =>
    case Stop(j) => BlankShift(MARK, u, j);
    case Skip(j) => ScanShift(MARK, u, m, j, []);
    case Field(f, j) => ScanShift(MARK, u, m, j, [] + [f]);
  }

  lemma BlankShift(p: Bytes, u: Bytes, j: nat)
    requires j <= |u|
    ensures PastBlankLine(p + u, |p| + j) == |p| + PastBlankLine(u, j)
  {
    assert forall k :: 0 <= k < |u| ==> (p + u)[|p| + k] == u[k];
  }

  lemma OnlyMark(m: Mode)
    ensures ItemAt(MARK, m, 0) == Stop(3)
  {
    assert HasBOM(MARK, 0);
  }

  /** A line that starts with `From `, in any case. */
  predicate IsFromLine(line: Bytes) { |line| >= 5 && IsText(Lower(line[..5]), "from ") && NoBreaks(line) }

  lemma FromBytes(line: Bytes)
    requires IsFromLine(line)
    ensures (forall k :: 0 <= k < 4 ==> IsNameByte(line[k])) && line[4] == SP && Lower(line[..5]) == FROM_
  {
    var l := Lower(line[..5]);
    assert forall k :: 0 <= k < 5 ==> l[k] == LowerByte(line[k]);
    assert l[0] == 102 && l[1] == 114 && l[2] == 111 && l[3] == 109 && l[4] == 32;
  }

  lemma FromPlain(line: Bytes)
    requires IsFromLine(line)
    ensures |line| >= 5 && NoBreaks(line)
  {
  }

  /** Any number of CRs and an LF, or CRs that no LF follows. */
  predicate FromEnd(nl: Bytes, u: Bytes)
  {
    && nl != [] && (forall k :: 0 <= k < |nl| - 1 ==> nl[k] == CR)
    && (nl[|nl| - 1] == LF || (nl[|nl| - 1] == CR && u != [] && !IsBreak(u[0])))
  }

  lemma FromItem(line: Bytes, nl: Bytes, u: Bytes)
    requires IsFromLine(line) && FromEnd(nl, u)
    ensures ItemAt(line + nl + u, RFC5322, 0) == Skip(|line + nl|)
  {
    hide FieldAt, SpanEnd, IsFromLine;
    var t, n, e := line + nl + u, |line|, |line| + |nl|;
    FromBytes(line);
    FromPlain(line);
    assert forall k :: 0 <= k < n ==> t[k] == line[k];
    assert forall k :: n <= k < e ==> t[k] == nl[k - n];
    assert u != [] ==> t[e] == u[0];
    SpanIs(t, 0, IsNameByte, 4);
    assert t[0..5] == line[..5];
    SpanIs(t, 0, NotBreak, n);
    SpanIs(t, n, IsReturn, if nl[|nl| - 1] == LF then e - 1 else e);
  }

  /** Without a line end the `From ` line stops the program. */
  lemma FromUnended(line: Bytes, crs: Bytes)
    requires IsFromLine(line) && forall k :: 0 <= k < |crs| ==> crs[k] == CR
    ensures Scanned(line + crs, RFC5322) == Panic
  {
    hide FieldAt;
    var t, n := line + crs, |line|;
    FromBytes(line);
    assert forall k :: 0 <= k < n ==> t[k] == line[k];
    assert forall k :: n <= k < |t| ==> t[k] == crs[k - n];
    SpanIs(t, 0, IsNameByte, 4);
    assert t[0..5] == line[..5];
    SpanIs(t, 0, NotBreak, n);
    SpanIs(t, n, IsReturn, |t|);
  }

  /** The `From ` line is skipped in front of a message; in the header of a part it is no field, and the header is over. */
  lemma FromSkipped(line: Bytes, nl: Bytes, u: Bytes)
    requires IsFromLine(line) && FromEnd(nl, u)
    ensures Scanned(line + nl + u, RFC5322) == Shifted(Scanned(u, RFC5322), |line + nl|)
    ensures Scanned(line + nl + u, MIME) == Done([], 0)
  {
    hide ItemAt;
    FromItem(line, nl, u);
    ScanShift(line + nl, u, RFC5322, 0, []);
    NoField(line, nl + u);
    assert line + nl + u == line + (nl + u);
  }

  lemma NoField(line: Bytes, rest: Bytes)
    requires IsFromLine(line)
    ensures ItemAt(line + rest, MIME, 0) == Stop(0) && PastBlankLine(line + rest, 0) == 0
  {
    var t := line + rest;
    FromBytes(line);
    assert forall k :: 0 <= k < |line| ==> t[k] == line[k];
    SpanIs(t, 0, IsNameByte, 4);
  }
}
