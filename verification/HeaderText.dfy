/**
  The text of a header (section 2.2 of RFC 5322): printing a list of fields and
  scanning it back.  A field is a raw name and value; an index or slice out of
  range, which stops the program, is the outcome `Panic`.
 */
module HeaderText {
  import opened Octets

  datatype Mode = RFC5322 | MIME

  datatype RawField = RawField(name: Bytes, value: Bytes)

  /** The fields read and the number of bytes they took, blank line included. */
  datatype Scan = Panic | Done(fields: seq<RawField>, numBytes: nat)

  // ---------------------------------------------------------------- scanning

  predicate IsNameByte(c: Byte) { 33 <= c <= 127 && c != COLON }

  lemma NameChars(c: Byte)
    ensures IsNameByte(c) <==> '!' as int <= c <= 127 && c != ':' as int
  {
  }

  predicate IsReturn(c: Byte) { c == CR }

  predicate NotBreak(c: Byte) { !IsBreak(c) }

  /** The first LF from `i` on that no blank follows, or the end of the text. */
  function ValueEnd(t: Bytes, i: nat): (r: nat)
    requires i <= |t|
    ensures i <= r <= |t|
    decreases |t| - i
  {
    if i == |t| || (t[i] == LF && !(i + 1 < |t| && IsBlank(t[i + 1]))) then i else ValueEnd(t, i + 1)
  }

  predicate HasBOM(t: Bytes, i: nat)
  {
    i + 2 < |t| && t[i] == 0xEF && t[i + 1] == 0xBB && t[i + 2] == 0xBF
  }

  const FROM_: Bytes := [102, 114, 111, 109, SP]

  predicate AllSpace(s: Bytes) { forall k :: 0 <= k < |s| ==> IsSpace(s[k]) }

  predicate IsExtension(name: Bytes)
  {
    |name| >= 2 && LowerByte(name[0]) == 120 && name[1] == DASH
  }

  lemma ExtensionMeans(name: Bytes)
    ensures IsExtension(name) <==> |name| >= 2 && (name[0] == 'x' as int || name[0] == 'X' as int) && name[1] == '-' as int
  {
  }

  /** What stands at the cursor, and where the cursor goes. */
  datatype Item = Crash | Stop(next: nat) | Skip(next: nat) | Field(field: RawField, next: nat)

  /** A `From ` line at `i`; its line end must be there. */
  function FromLine(t: Bytes, i: nat): (x: Item)
    requires i < |t| && !IsBreak(t[i])
    ensures x.Crash? || (x.Skip? && x.next > i)
  {
    var k := SpanEnd(t, SpanEnd(t, i, NotBreak), IsReturn);
    if k == |t| then Crash else Skip(if t[k] == LF then k + 1 else k)
  }

  /** The value at `i`, folded lines included, of a field with the given name. */
  function ValueAt(t: Bytes, name: Bytes, i: nat): (x: Item)
    requires i <= |t|
    ensures x.Crash? || ((x.Skip? || x.Field?) && x.next > i)
  {
    var e := ValueEnd(t, i);
    var j := if e > i && t[e - 1] == CR then e - 1 else e;
    var value := t[i..j];
    var next := if j + 1 < |t| && t[j] == CR && t[j + 1] == LF then j + 2 else j + 1;
    if value != [] && AllSpace(value) then Crash
    else if value != [] || IsExtension(name) then Field(RawField(name, value), next)
    else Skip(next)
  }

  /** The field whose name stretches from `i` to the colon at `j`. */
  function FieldAt(t: Bytes, i: nat, j: nat): (x: Item)
    requires i <= j < |t|
    ensures x.Crash? || ((x.Skip? || x.Field?) && x.next > i)
  {
    var v := SpanEnd(t, j + 1, IsBlank);
    if v == |t| then Crash else ValueAt(t, t[i..j], v)
  }

  /** What stands at `i`, after a byte order mark if there is one. */
  function ItemHere(t: Bytes, m: Mode, i: nat): (x: Item)
    requires i <= |t|
    ensures x.Stop? ==> x.next == i
    ensures x.Skip? || x.Field? ==> x.next > i
  {
    var j := SpanEnd(t, i, IsNameByte);
    if j == i + 4 && m == RFC5322 && j == |t| then Crash
    else if j == i + 4 && m == RFC5322 && Lower(t[i..j + 1]) == FROM_ then FromLine(t, i)
    else if j > i && j == |t| then Crash
    else if j > i && t[j] == COLON then FieldAt(t, i, j)
    else Stop(i)
  }

  function ItemAt(t: Bytes, m: Mode, at: nat): (x: Item)
    requires at < |t|
    ensures x.Stop? ==> at <= x.next <= |t|
    ensures x.Skip? || x.Field? ==> x.next > at
  {
    ItemHere(t, m, if HasBOM(t, at) then at + 3 else at)
  }

  /** Past the blank line that ends a header. */
  function PastBlankLine(t: Bytes, i: nat): nat
    requires i <= |t|
  {
    if i + 1 < |t| && t[i] == CR && t[i + 1] == LF then i + 2 else if i < |t| && t[i] == LF then i + 1 else i
  }

  /** The cursor may pass the end by one: a value that runs to the end still steps over a line end. */
  function ScanFrom(t: Bytes, m: Mode, i: nat, fields: seq<RawField>): Scan
    decreases |t| - i
  {
    if i >= |t| then Done(fields, i)
    else
      match ItemAt(t, m, i)
      case Crash => Panic
      case Stop(j) => Done(fields, PastBlankLine(t, j))
      case Skip(j) => ScanFrom(t, m, j, fields)
      case Field(f, j) => ScanFrom(t, m, j, fields + [f])
  }

  function Scanned(t: Bytes, m: Mode): Scan { ScanFrom(t, m, 0, []) }

  // ------------------------------------------------------ the scanner's loops

  method FindValueEnd(t: Bytes, i: nat) returns (j: nat)
    requires i <= |t|
    ensures j == ValueEnd(t, i)
  {
    j := i;
    while j < |t| && (t[j] != LF || (j + 1 < |t| && IsBlank(t[j + 1])))
      invariant i <= j <= |t|
      invariant ValueEnd(t, i) == ValueEnd(t, j)
    {
      j := j + 1;
    }
  }

  method ReadFromLine(t: Bytes, at: nat) returns (x: Item)
    requires at < |t| && !IsBreak(t[at])
    ensures x == FromLine(t, at)
  {
    var i := SkipClass(t, at, NotBreak);
    i := SkipClass(t, i, IsReturn);
    if i == |t| { return Crash; }
    if t[i] == LF { i := i + 1; }
    return Skip(i);
  }

  method ReadValue(t: Bytes, name: Bytes, i: nat) returns (x: Item)
    requires i <= |t|
    ensures x == ValueAt(t, name, i)
  {
    var j := FindValueEnd(t, i);
    if j > i && t[j - 1] == CR { j := j - 1; }
    var value := t[i..j];
    if value != [] && AllSpace(value) { return Crash; }
    var next := j;
    if next + 1 < |t| && t[next] == CR && t[next + 1] == LF { next := next + 1; }
    next := next + 1;
    if value != [] || IsExtension(name) { return Field(RawField(name, value), next); }
    return Skip(next);
  }

  method ReadField(t: Bytes, at: nat, colon: nat) returns (x: Item)
    requires at <= colon < |t|
    ensures x == FieldAt(t, at, colon)
  {
    var name := t[at..colon];
    var i := SkipClass(t, colon + 1, IsBlank);
    if i == |t| { return Crash; }
    x := ReadValue(t, name, i);
  }

  method ReadItem(t: Bytes, m: Mode, at: nat) returns (x: Item)
    requires at < |t|
    ensures x == ItemAt(t, m, at)
  {
    hide FromLine, FieldAt, SpanEnd;
    var i := at;
    if HasBOM(t, i) { i := i + 3; }
    var j := SkipClass(t, i, IsNameByte);
    if j == i + 4 && m == RFC5322 && j == |t| {
      x := Crash;
    } else if j == i + 4 && m == RFC5322 && Lower(t[i..j + 1]) == FROM_ {
      x := ReadFromLine(t, i);
    } else if j > i && j == |t| {
      x := Crash;
    } else if j > i && t[j] == COLON {
      x := ReadField(t, i, j);
    } else {
      x := Stop(i);
    }
  }

  method ReadHeader(t: Bytes, m: Mode) returns (r: Scan)
    ensures r == Scanned(t, m)
  {
    hide ItemAt;
    var fields: seq<RawField> := [];
    var i: nat := 0;
    while i < |t|
      invariant ScanFrom(t, m, i, fields) == Scanned(t, m)
    {
      var x := ReadItem(t, m, i);
      match x
      case Crash =>
        return Panic;
      case Stop(j) =>
        i := j;
        if i + 1 < |t| && t[i] == CR && t[i + 1] == LF {
          i := i + 2;
        } else if i < |t| && t[i] == LF {
          i := i + 1;
        }
        return Done(fields, i);
      case Skip(j) =>
        i := j;
      case Field(f, j) =>
        fields := fields + [f];
        i := j;
    }
    return Done(fields, i);
  }

  // ---------------------------------------------------------------- printing

  const SEPARATOR: Bytes := [COLON, SP]

  /** How fields may be laid out: the blanks after the colon, and the line end. */
  datatype Style = Style(gap: Bytes, nl: Bytes)

  /** The layout the printer uses. */
  const CANONICAL := Style([SP], CRLF)

  function PrintedField(f: RawField, y: Style): Bytes { f.name + ([COLON] + y.gap) + f.value + y.nl }

  function Printed(fs: seq<RawField>, y: Style): Bytes
  {
    if fs == [] then [] else PrintedField(fs[0], y) + Printed(fs[1..], y)
  }

  lemma {:induction false} PrintedSnoc(fs: seq<RawField>, k: nat, y: Style)
    requires k < |fs|
    ensures Printed(fs[..k + 1], y) == Printed(fs[..k], y) + PrintedField(fs[k], y)
  {
    if k == 0 {
      assert fs[..1][1..] == [];
    } else {
      PrintedSnoc(fs[1..], k - 1, y);
      assert fs[..k + 1][1..] == fs[1..][..k] && fs[..k][1..] == fs[1..][..k - 1];
    }
  }

  method AsText(fs: seq<RawField>) returns (r: Bytes)
    ensures r == Printed(fs, CANONICAL)
  {
    r := [];
    for k := 0 to |fs|
      invariant r == Printed(fs[..k], CANONICAL)
    {
      PrintedSnoc(fs, k, CANONICAL);
      r := r + fs[k].name;
      r := r + SEPARATOR;
      r := r + fs[k].value;
      r := r + CRLF;
    }
    assert fs[..|fs|] == fs;
  }

  // --------------------------------------------------------------- inversion

  predicate LegalName(name: Bytes)
  {
    name != [] && forall k :: 0 <= k < |name| ==> IsNameByte(name[k])
  }

  /** Every line feed in `v` starts a continuation line. */
  predicate Folded(v: Bytes)
  {
    forall k :: 0 <= k < |v| && v[k] == LF ==> k + 1 < |v| && IsBlank(v[k + 1])
  }

  predicate Visible(v: Bytes) { exists k :: 0 <= k < |v| && !Among(v[k], " \t\r\n") }

  lemma VisibleMeans(v: Bytes)
    ensures Visible(v) <==> !AllSpace(v)
  {
    forall k | 0 <= k < |v| ensures Among(v[k], " \t\r\n") <==> IsSpace(v[k]) { ClassesAre(v[k]); }
  }

  /** Empty, or with something to read in it; no blank in front; line breaks only in folds. */
  predicate LegalValue(v: Bytes)
  {
    && (v != [] ==> !IsBlank(v[0]))
    && (v == [] || Visible(v))
    && Folded(v)
  }

  predicate LegalStyle(y: Style) { (y.nl == CRLF || y.nl == [LF]) && forall k :: 0 <= k < |y.gap| ==> IsBlank(y.gap[k]) }

  /** A CR at the end of the text would be taken for part of the line end if that is LF. */
  predicate Ends(text: Bytes, y: Style) { y.nl == [LF] && text != [] ==> text[|text| - 1] != CR }

  predicate Legal(f: RawField, y: Style) { LegalName(f.name) && LegalValue(f.value) && Ends(f.value, y) }

  predicate AllLegal(fs: seq<RawField>, y: Style) { forall k :: 0 <= k < |fs| ==> Legal(fs[k], y) }

  /** A field with an empty value is read only if its name starts with `x-`. */
  predicate Readable(f: RawField) { f.value != [] || IsExtension(f.name) }

  function ReadableOnly(fs: seq<RawField>): seq<RawField>
  {
    if fs == [] then []
    else (if Readable(fs[0]) then [fs[0]] else []) + ReadableOnly(fs[1..])
  }

  lemma Regrouped(f: RawField, y: Style)
    ensures PrintedField(f, y) == f.name + ([COLON] + (y.gap + (f.value + y.nl)))
  {
  }

  /** Where the pieces of a printed field are. */
  lemma FieldStands(t: Bytes, i: nat, f: RawField, y: Style)
    requires HasAt(t, i, PrintedField(f, y))
    ensures var c := i + |f.name|;
            && HasAt(t, i, f.name) && c < |t| && t[c] == COLON
            && HasAt(t, c + 1, y.gap + (f.value + y.nl)) && HasAt(t, c + 1 + |y.gap|, f.value + y.nl)
  {
    hide HasAt, PrintedField;
    var w := y.gap + (f.value + y.nl);
    Regrouped(f, y);
    HasAtSplit(t, i, f.name, [COLON] + w);
    HasAtSplit(t, i + |f.name|, [COLON], w);
    HasAtByte(t, i + |f.name|, [COLON], 0);
    HasAtSplit(t, i + |f.name| + 1, y.gap, f.value + y.nl);
  }

  lemma {:induction false} ValueEndIs(t: Bytes, i: nat, e: nat)
    requires i <= e < |t| && t[e] == LF && !(e + 1 < |t| && IsBlank(t[e + 1]))
    requires forall k :: i <= k < e && t[k] == LF ==> IsBlank(t[k + 1])
    ensures ValueEnd(t, i) == e
    decreases e - i
  {
    if i < e { ValueEndIs(t, i + 1, e); }
  }

  lemma EndsValue(t: Bytes, v: nat, value: Bytes, nl: Bytes)
    requires Folded(value) && (nl == CRLF || nl == [LF]) && HasAt(t, v, value + nl)
    requires v + |value + nl| < |t| ==> !IsBlank(t[v + |value + nl|])
    ensures v <= |t| && ValueEnd(t, v) == v + |value + nl| - 1
  {
    hide HasAt;
    var u := value + nl;
    var n := v + |u|;
    HasAtBound(t, v, u);
    HasAtByte(t, v, u, |u| - 1);
    forall k | v <= k < n - 1 && t[k] == LF ensures IsBlank(t[k + 1]) {
      HasAtByte(t, v, u, k - v);
      HasAtByte(t, v, u, k - v + 1);
      assert value[k - v] == LF;
    }
    ValueEndIs(t, v, n - 1);
  }

  lemma ReadsValue(t: Bytes, name: Bytes, v: nat, value: Bytes, y: Style)
    requires LegalValue(value) && LegalStyle(y) && Ends(value, y)
    requires HasAt(t, v, value + y.nl)
    requires v + |value + y.nl| < |t| ==> !IsBlank(t[v + |value + y.nl|])
    ensures var f := RawField(name, value); var next := v + |value + y.nl|;
            v <= |t| && ValueAt(t, name, v) == if Readable(f) then Field(f, next) else Skip(next)
  {
    hide ValueEnd, Folded, AllSpace, IsExtension, Visible;
    var u, e := value + y.nl, v + |value|;
    VisibleMeans(value);
    EndsValue(t, v, value, y.nl);
    HasAtSplit(t, v, value, y.nl);
    HasAtByte(t, v, u, |value|);
    if y.nl == CRLF { HasAtByte(t, v, u, |value| + 1); }
    if value != [] { HasAtByte(t, v, u, |value| - 1); }
  }

  lemma FindsName(t: Bytes, m: Mode, i: nat, c: nat)
    requires i < c < |t| && (forall k :: i <= k < c ==> IsNameByte(t[k])) && t[c] == COLON
    ensures ItemAt(t, m, i) == FieldAt(t, i, c)
  {
    assert !HasBOM(t, i);
    SpanIs(t, i, IsNameByte, c);
    if c == i + 4 {
      var w := Lower(t[i..c + 1]);
      assert w[4] == COLON;
      assert FROM_[4] == SP;
    }
  }

  lemma NameBytes(t: Bytes, i: nat, name: Bytes)
    requires LegalName(name) && HasAt(t, i, name)
    ensures forall k :: i <= k < i + |name| ==> IsNameByte(t[k])
  {
    forall k | i <= k < i + |name| ensures IsNameByte(t[k]) { HasAtByte(t, i, name, k - i); }
  }

  lemma GapSkipped(t: Bytes, i: nat, gap: Bytes, rest: Bytes)
    requires HasAt(t, i, gap + rest) && (forall k :: 0 <= k < |gap| ==> IsBlank(gap[k])) && rest != [] && !IsBlank(rest[0])
    ensures i <= |t| && SpanEnd(t, i, IsBlank) == i + |gap|
  {
    hide HasAt;
    HasAtBound(t, i, gap + rest);
    HasAtSplit(t, i, gap, rest);
    HasAtByte(t, i + |gap|, rest, 0);
    forall k | i <= k < i + |gap| ensures IsBlank(t[k]) { HasAtByte(t, i, gap, k - i); }
    SpanIs(t, i, IsBlank, i + |gap|);
  }

  lemma ReadsNamed(t: Bytes, i: nat, f: RawField, y: Style)
    requires LegalStyle(y) && Legal(f, y) && HasAt(t, i, PrintedField(f, y))
    requires i + |PrintedField(f, y)| < |t| ==> !IsBlank(t[i + |PrintedField(f, y)|])
    ensures i + |f.name| < |t|
    ensures FieldAt(t, i, i + |f.name|) == var next := i + |PrintedField(f, y)|; if Readable(f) then Field(f, next) else Skip(next)
  {
    hide ValueAt, LegalName, Folded, Visible, HasAt, PrintedField;
    var u, c := f.value + y.nl, i + |f.name|;
    FieldStands(t, i, f, y);
    Regrouped(f, y);
    GapSkipped(t, c + 1, y.gap, u);
    HasAtBound(t, c + 1 + |y.gap|, u);
    Taken(t, i, f.name);
    ReadsValue(t, f.name, c + 1 + |y.gap|, f.value, y);
  }

  lemma Taken(t: Bytes, i: nat, w: Bytes)
    ensures HasAt(t, i, w) <==> i + |w| <= |t| && t[i..i + |w|] == w
  {
  }

  /** A printed field is read back, provided no continuation line follows it. */
  lemma ReadsField(t: Bytes, m: Mode, i: nat, f: RawField, rest: Bytes, y: Style)
    requires LegalStyle(y) && i <= |t| && t[i..] == PrintedField(f, y) + rest && Legal(f, y)
    requires rest != [] ==> !IsBlank(rest[0])
    ensures i < |t|
    ensures ItemAt(t, m, i) == var next := i + |PrintedField(f, y)|; if Readable(f) then Field(f, next) else Skip(next)
  {
    hide ItemAt, FieldAt, HasAt, PrintedField;
    var u := PrintedField(f, y);
    StandsFirst(t, i, u, rest);
    FieldStands(t, i, f, y);
    NameBytes(t, i, f.name);
    FindsName(t, m, i, i + |f.name|);
    if rest != [] { assert t[i + |u|] == t[i + |u|..][0]; }
    ReadsNamed(t, i, f, y);
  }

  lemma ReadsEnd(t: Bytes, m: Mode, i: nat, done: seq<RawField>, y: Style)
    requires LegalStyle(y) && HasAt(t, i, y.nl)
    ensures ScanFrom(t, m, i, done) == Done(done, i + |y.nl|)
  {
    assert t[i] == t[i..i + |y.nl|][0] && (y.nl == CRLF ==> t[i + 1] == t[i..i + 2][1]);
    SpanIs(t, i, IsNameByte, i);
    assert ItemAt(t, m, i) == Stop(i);
  }

  lemma ScanStep(t: Bytes, m: Mode, i: nat, f: RawField, rest: Bytes, done: seq<RawField>, y: Style)
    requires LegalStyle(y) && i <= |t| && t[i..] == PrintedField(f, y) + rest && Legal(f, y)
    requires rest != [] ==> !IsBlank(rest[0])
    ensures var next := i + |PrintedField(f, y)|;
            && next <= |t| && t[next..] == rest
            && ScanFrom(t, m, i, done) == ScanFrom(t, m, next, if Readable(f) then done + [f] else done)
  {
    hide ItemAt, Legal, Readable;
    ReadsField(t, m, i, f, rest, y);
    assert t[i + |PrintedField(f, y)|..] == t[i..][|PrintedField(f, y)|..] == rest;
  }

  /** Neither a field nor a blank line looks like a continuation line. */
  lemma PrintedStart(fs: seq<RawField>, tail: Bytes, y: Style)
    requires AllLegal(fs, y) && tail != [] && !IsBlank(tail[0])
    ensures !IsBlank((Printed(fs, y) + tail)[0])
  {
    if fs != [] {
      assert Legal(fs[0], y);
      assert (Printed(fs, y) + tail)[0] == fs[0].name[0];
    }
  }

  lemma PrintedSplit(fs: seq<RawField>, tail: Bytes, y: Style)
    requires fs != []
    ensures Printed(fs, y) + tail == PrintedField(fs[0], y) + (Printed(fs[1..], y) + tail)
  {
    hide PrintedField;
    var a, b := PrintedField(fs[0], y), Printed(fs[1..], y);
    assert a + b + tail == a + (b + tail);
  }

  lemma {:induction false} ScanPrinted(t: Bytes, m: Mode, i: nat, fs: seq<RawField>, tail: Bytes, done: seq<RawField>, y: Style)
    requires LegalStyle(y) && AllLegal(fs, y) && HasAt(tail, 0, y.nl)
    requires i <= |t| && t[i..] == Printed(fs, y) + tail
    ensures ScanFrom(t, m, i, done) == Done(done + ReadableOnly(fs), i + |Printed(fs, y)| + |y.nl|)
    decreases |fs|
  {
    hide ItemAt, ScanFrom, Legal, PrintedField, Readable;
    if fs == [] {
      assert t[i..] == tail && t[i..i + |y.nl|] == tail[0..|y.nl|];
      ReadsEnd(t, m, i, done, y);
      assert done + [] == done;
    } else {
      var f, rest := fs[0], Printed(fs[1..], y) + tail;
      PrintedSplit(fs, tail, y);
      assert tail[0] == tail[0..|y.nl|][0];
      PrintedStart(fs[1..], tail, y);
      ScanStep(t, m, i, f, rest, done, y);
      var done' := if Readable(f) then done + [f] else done;
      ScanPrinted(t, m, i + |PrintedField(f, y)|, fs[1..], tail, done', y);
      assert done' + ReadableOnly(fs[1..]) == done + ReadableOnly(fs);
    }
  }

  /**
    Scanning undoes printing: a printed header, the blank line after it and any
    body give back exactly the fields that can be read, in order, and the count
    of bytes is that of the header text and the blank line.  Lines may end with
    CR LF or LF, and any blanks may follow the colons.
   */
  lemma HeaderInverse(fs: seq<RawField>, body: Bytes, m: Mode, y: Style)
    requires LegalStyle(y) && AllLegal(fs, y)
    ensures Scanned(Printed(fs, y) + y.nl + body, m) == Done(ReadableOnly(fs), |Printed(fs, y)| + |y.nl|)
    ensures (forall k :: 0 <= k < |fs| ==> Readable(fs[k])) ==> ReadableOnly(fs) == fs
  {
    hide Printed, ScanFrom, ReadableOnly, AllLegal, Readable;
    var t, tail := Printed(fs, y) + y.nl + body, y.nl + body;
    assert t[0..] == Printed(fs, y) + tail && tail[0..|y.nl|] == y.nl;
    ScanPrinted(t, m, 0, fs, tail, [], y);
    AllReadable(fs);
    assert [] + ReadableOnly(fs) == ReadableOnly(fs);
  }

  lemma {:induction false} AllReadable(fs: seq<RawField>)
    ensures (forall k :: 0 <= k < |fs| ==> Readable(fs[k])) ==> ReadableOnly(fs) == fs
  {
    if fs != [] {
      AllReadable(fs[1..]);
      assert fs == [fs[0]] + fs[1..];
    }
  }

  // ------------------------------------------------------ headers cut short

  /** The scan never goes back. */
  lemma {:induction false} ScanGoesOn(t: Bytes, m: Mode, i: nat, done: seq<RawField>)
    ensures var r := ScanFrom(t, m, i, done); r.Done? ==> r.numBytes >= i
    decreases |t| - i
  {
    hide ItemAt;
    if i < |t| {
      match ItemAt(t, m, i)
      case Crash =>
      case Stop(j) =>
      case Skip(j) => ScanGoesOn(t, m, j, done);
      case Field(f, j) => ScanGoesOn(t, m, j, done + [f]);
    }
  }

  /** Printed fields are read as far as they go, whatever follows. */
  lemma {:induction false} ScanFields(t: Bytes, m: Mode, i: nat, fs: seq<RawField>, tail: Bytes, done: seq<RawField>, y: Style)
    requires LegalStyle(y) && AllLegal(fs, y) && tail != [] && !IsBlank(tail[0]) && i <= |t| && t[i..] == Printed(fs, y) + tail
    ensures var r := ScanFrom(t, m, i, done); r.Done? ==> r.numBytes >= i + |Printed(fs, y)|
    decreases |fs|
  {
    hide ItemAt, ScanFrom, Legal, PrintedField, Readable;
    if fs == [] {
      ScanGoesOn(t, m, i, done);
    } else {
      var f, rest := fs[0], Printed(fs[1..], y) + tail;
      PrintedSplit(fs, tail, y);
      PrintedStart(fs[1..], tail, y);
      ScanStep(t, m, i, f, rest, done, y);
      ScanFields(t, m, i + |PrintedField(f, y)|, fs[1..], tail, if Readable(f) then done + [f] else done, y);
    }
  }

  /** A line of a printed field that does not start with a blank is its first. */
  lemma FieldLines(f: RawField, k: nat, y: Style)
    requires LegalStyle(y) && Legal(f, y) && 0 < k < |PrintedField(f, y)| && PrintedField(f, y)[k - 1] == LF
    ensures IsBlank(PrintedField(f, y)[k])
  {
    var u, v := PrintedField(f, y), |f.name| + 1 + |y.gap|;
    assert forall j :: 0 <= j < |y.gap| ==> u[|f.name| + 1 + j] == y.gap[j];
    assert forall j :: 0 <= j < |f.name| ==> u[j] == f.name[j];
    assert forall j :: 0 <= j < |f.value| ==> u[v + j] == f.value[j];
    assert k - 1 >= v;
    assert f.value[k - 1 - v] == LF;
  }

  /** A line of a printed header that does not start with a blank starts a field. */
  lemma {:induction false} HeaderLines(fs: seq<RawField>, k: nat, y: Style) returns (q: nat)
    requires LegalStyle(y) && AllLegal(fs, y) && 0 < k < |Printed(fs, y)| && Printed(fs, y)[k - 1] == LF && !IsBlank(Printed(fs, y)[k])
    ensures q < |fs| && |Printed(fs[..q], y)| == k
  {
    var u, w := PrintedField(fs[0], y), Printed(fs[1..], y);
    assert Printed(fs, y) == u + w;
    if k < |u| {
      assert u[k - 1] == LF && !IsBlank(u[k]);
      FieldLines(fs[0], k, y);
      assert false;
    } else if k == |u| {
      q := 1;
      assert fs[..1][1..] == [] && fs[..1][0] == fs[0];
      assert u + [] == u;
      assert |fs| > 1;
    } else {
      assert w[k - |u| - 1] == LF;
      q := HeaderLines(fs[1..], k - |u|, y);
      q := q + 1;
      assert fs[..q][1..] == fs[1..][..q - 1] && fs[..q][0] == fs[0];
    }
  }

  lemma {:induction false} PrintedTake(fs: seq<RawField>, q: nat, y: Style)
    requires q <= |fs|
    ensures Printed(fs, y) == Printed(fs[..q], y) + Printed(fs[q..], y)
  {
    hide PrintedField;
    if q == 0 {
      assert fs[..0] == [] && fs[0..] == fs && [] + Printed(fs, y) == Printed(fs, y);
    } else {
      PrintedTake(fs[1..], q - 1, y);
      assert fs[..q][1..] == fs[1..][..q - 1] && fs[1..][q - 1..] == fs[q..];
      var u, a, b := PrintedField(fs[0], y), Printed(fs[1..q], y), Printed(fs[q..], y);
      assert fs[1..][..q - 1] == fs[1..q];
      assert u + (a + b) == u + a + b;
    }
  }

  lemma {:induction false} SomeUnreadable(fs: seq<RawField>)
    requires exists k :: 0 <= k < |fs| && !Readable(fs[k])
    ensures ReadableOnly(fs) != fs
  {
    FewerReadable(fs);
  }

  lemma {:induction false} FewerReadable(fs: seq<RawField>)
    ensures |ReadableOnly(fs)| <= |fs|
    ensures (exists k :: 0 <= k < |fs| && !Readable(fs[k])) ==> |ReadableOnly(fs)| < |fs|
  {
    hide Readable;
    if fs != [] {
      FewerReadable(fs[1..]);
      assert forall k :: 0 < k < |fs| ==> fs[k] == fs[1..][k - 1];
    }
  }

  // ----------------------------------------------- texts that break off early

  /** What the scan takes as the value if the text ends with `w`: a last line end is not part of it. */
  function Core(w: Bytes): Bytes
  {
    var u := if w != [] && w[|w| - 1] == LF then w[..|w| - 1] else w;
    if u != [] && u[|u| - 1] == CR then u[..|u| - 1] else u
  }

  /** The printed field is cut in its name or before its value, or so that only white space is left of the value. */
  predicate StopsIn(f: RawField, n: nat)
    requires n < |PrintedField(f, CANONICAL)|
  {
    var v := |f.name| + 2;
    if n <= v then n > 0
    else var w := Core((f.value + CRLF)[..n - v]); w != [] && !Visible(w)
  }

  /** A cut after `n` bytes falls into such a place. */
  predicate CutStops(fs: seq<RawField>, n: nat)
  {
    fs != [] && if n < |PrintedField(fs[0], CANONICAL)| then StopsIn(fs[0], n) else CutStops(fs[1..], n - |PrintedField(fs[0], CANONICAL)|)
  }

  lemma {:induction false} ValueEndLast(t: Bytes, i: nat)
    requires i < |t| && forall k :: i <= k < |t| - 1 && t[k] == LF ==> IsBlank(t[k + 1])
    ensures ValueEnd(t, i) == if t[|t| - 1] == LF then |t| - 1 else |t|
    decreases |t| - i
  {
    if i < |t| - 1 { ValueEndLast(t, i + 1); }
  }

  /** Where a value that runs to the end of the text ends, without its line end. */
  lemma CoreIs(t: Bytes, v: nat, e: nat)
    requires v < |t| && e == if t[|t| - 1] == LF then |t| - 1 else |t|
    ensures Core(t[v..]) == t[v..if e > v && t[e - 1] == CR then e - 1 else e]
  {
    var w := t[v..];
    assert w[|w| - 1] == t[|t| - 1];
    var u := w[..e - v];
    assert u == t[v..e] && w == w[..|w|];
    if e > v {
      assert u[|u| - 1] == t[e - 1];
      assert u[..|u| - 1] == t[v..e - 1];
    }
  }

  /** A value that runs to the end of the text. */
  lemma LastValue(t: Bytes, name: Bytes, v: nat)
    requires v < |t| && forall k :: v <= k < |t| - 1 && t[k] == LF ==> IsBlank(t[k + 1])
    ensures var x, w := ValueAt(t, name, v), Core(t[v..]);
            if w != [] && !Visible(w) then x == Crash else (x.Skip? || x.Field?) && x.next >= |t|
  {
    hide Core, AllSpace, ValueEnd, IsExtension, Visible;
    ValueEndLast(t, v);
    CoreIs(t, v, ValueEnd(t, v));
    VisibleMeans(Core(t[v..]));
  }

  lemma CutName(t: Bytes, m: Mode, i: nat)
    requires i < |t| && forall k :: i <= k < |t| ==> IsNameByte(t[k])
    ensures ItemAt(t, m, i) == Crash
  {
    assert !HasBOM(t, i);
    SpanIs(t, i, IsNameByte, |t|);
  }

  /** The bytes of a field that is cut off. */
  lemma CutBytes(t: Bytes, i: nat, f: RawField, n: nat)
    requires i <= |t| && n < |PrintedField(f, CANONICAL)| && t[i..] == PrintedField(f, CANONICAL)[..n]
    ensures |t| == i + n && forall k :: i <= k < |t| ==> t[k] == PrintedField(f, CANONICAL)[k - i]
  {
    forall k | i <= k < |t| ensures t[k] == PrintedField(f, CANONICAL)[k - i] { assert t[k] == t[i..][k - i]; }
  }

  lemma CutRest(t: Bytes, i: nat, f: RawField, n: nat)
    requires i <= |t| && |f.name| + 2 <= n < |PrintedField(f, CANONICAL)| && t[i..] == PrintedField(f, CANONICAL)[..n]
    ensures var c := i + |f.name|;
            && c + 1 < |t| && t[c] == COLON && t[c + 1] == SP
            && n - |f.name| - 2 < |f.value| + 2 && t[c + 2..] == (f.value + CRLF)[..n - |f.name| - 2]
  {
    var a, y, k := f.name + [COLON, SP], f.value + CRLF, n - |f.name| - 2;
    assert PrintedField(f, CANONICAL) == a + y;
    assert (a + y)[..n] == a + y[..k];
    StandsFirst(t, i, a, y[..k]);
    HasAtByte(t, i, a, |f.name|);
    HasAtByte(t, i, a, |f.name| + 1);
  }

  /** Just the name, the colon and perhaps the blank. */
  lemma CutColon(t: Bytes, i: nat, f: RawField, n: nat)
    requires i <= |t| && |f.name| < n <= |f.name| + 2 && t[i..] == PrintedField(f, CANONICAL)[..n]
    ensures i + |f.name| < |t| && FieldAt(t, i, i + |f.name|) == Crash
  {
    var c, u := i + |f.name|, PrintedField(f, CANONICAL);
    assert u[|f.name|] == COLON && u[|f.name| + 1] == SP;
    assert t[c] == t[i..][|f.name|];
    assert |t| == i + n;
    if n == |f.name| + 2 { assert t[c + 1] == t[i..][|f.name| + 1]; }
    SpanIs(t, c + 1, IsBlank, |t|);
  }

  /** After the name and the colon. */
  lemma CutValue(t: Bytes, i: nat, f: RawField, n: nat)
    requires Legal(f, CANONICAL) && i <= |t| && |f.name| < n < |PrintedField(f, CANONICAL)| && t[i..] == PrintedField(f, CANONICAL)[..n]
    ensures i + |f.name| < |t|
    ensures var x := FieldAt(t, i, i + |f.name|);
            if StopsIn(f, n) then x == Crash else (x.Skip? || x.Field?) && x.next >= |t|
  {
    hide StopsIn, FieldAt, Legal;
    StopsMeans(f, n);
    if n <= |f.name| + 2 {
      CutColon(t, i, f, n);
    } else {
      CutInside(t, i, f, n);
    }
  }

  lemma StopsMeans(f: RawField, n: nat)
    requires |f.name| < n < |PrintedField(f, CANONICAL)|
    ensures n <= |f.name| + 2 ==> StopsIn(f, n)
    ensures n > |f.name| + 2 ==>
              (StopsIn(f, n) <==> var w := Core((f.value + CRLF)[..n - |f.name| - 2]); w != [] && !Visible(w))
  {
    hide Core, Visible;
  }

  lemma CutInside(t: Bytes, i: nat, f: RawField, n: nat)
    requires Legal(f, CANONICAL) && i <= |t| && |f.name| + 2 < n < |PrintedField(f, CANONICAL)| && t[i..] == PrintedField(f, CANONICAL)[..n]
    ensures i + |f.name| < |t|
    ensures var x, w := FieldAt(t, i, i + |f.name|), Core((f.value + CRLF)[..n - |f.name| - 2]);
            if w != [] && !Visible(w) then x == Crash else (x.Skip? || x.Field?) && x.next >= |t|
  {
    hide ValueAt, Legal, Visible, Core, PrintedField, ValueEnd, SpanEnd;
    CutRest(t, i, f, n);
    var c := i + |f.name|;
    CutFolds(t, c + 2, f, n - |f.name| - 2);
    SpanIs(t, c + 1, IsBlank, c + 2);
    LastValue(t, t[i..c], c + 2);
  }

  lemma CutFolds(t: Bytes, v: nat, f: RawField, k: nat)
    requires Legal(f, CANONICAL) && v <= |t| && 0 < k < |f.value| + 2 && t[v..] == (f.value + CRLF)[..k]
    ensures v < |t| && !IsBlank(t[v]) && forall j :: v <= j < |t| - 1 && t[j] == LF ==> IsBlank(t[j + 1])
  {
    hide LegalName, Visible;
    var y := f.value + CRLF;
    assert forall j :: v <= j < |t| ==> t[j] == t[v..][j - v] == y[j - v];
    forall j | v <= j < |t| - 1 && t[j] == LF ensures IsBlank(t[j + 1]) { FoldedCut(f.value, j - v, t[j], t[j + 1]); }
  }

  lemma FoldedCut(v: Bytes, k: nat, a: Byte, b: Byte)
    requires Folded(v) && k < |v| && (v + CRLF)[k] == a == LF && (v + CRLF)[k + 1] == b
    ensures IsBlank(b)
  {
  }

  lemma CutField(t: Bytes, m: Mode, i: nat, f: RawField, n: nat)
    requires Legal(f, CANONICAL) && i <= |t| && 0 < n < |PrintedField(f, CANONICAL)| && t[i..] == PrintedField(f, CANONICAL)[..n]
    ensures i < |t| && var x := ItemAt(t, m, i); if StopsIn(f, n) then x == Crash else (x.Skip? || x.Field?) && x.next >= |t|
  {
    hide ItemAt, FieldAt, StopsIn, LegalValue;
    CutBytes(t, i, f, n);
    var c := |f.name|;
    assert forall k :: 0 <= k < c ==> PrintedField(f, CANONICAL)[k] == f.name[k];
    if n <= c {
      assert StopsIn(f, n) by { NameStops(f, n); }
      CutName(t, m, i);
    } else {
      assert PrintedField(f, CANONICAL)[c] == COLON;
      FindsName(t, m, i, i + c);
      CutValue(t, i, f, n);
    }
  }

  lemma NameStops(f: RawField, n: nat)
    requires 0 < n <= |f.name|
    ensures n < |PrintedField(f, CANONICAL)| && StopsIn(f, n)
  {
  }

  lemma EmptyText(fs: seq<RawField>)
    ensures !CutStops(fs, 0)
  {
  }

  lemma {:induction false} ScanCut(t: Bytes, m: Mode, i: nat, fs: seq<RawField>, body: Bytes, n: nat, done: seq<RawField>)
    requires AllLegal(fs, CANONICAL) && i <= |t| && n <= |Printed(fs, CANONICAL) + (CRLF + body)| && t[i..] == (Printed(fs, CANONICAL) + (CRLF + body))[..n]
    ensures ScanFrom(t, m, i, done) == Panic <==> CutStops(fs, n)
    decreases |fs|
  {
    hide ItemAt, Legal, PrintedField, Readable, StopsIn, Printed;
    var tail := CRLF + body;
    assert |t| == i + n;
    if n == 0 {
      EmptyText(fs);
    } else if fs == [] {
      PrintedNone();
      assert t[i] == t[i..][0] == CR;
      EndsHere(t, m, i);
    } else {
      var f, rest := fs[0], Printed(fs[1..], CANONICAL) + tail;
      var u := PrintedField(f, CANONICAL);
      PrintedSplit(fs, tail, CANONICAL);
      assert Legal(f, CANONICAL);
      if n < |u| {
        assert (u + rest)[..n] == u[..n];
        CutField(t, m, i, f, n);
      } else {
        var k := n - |u|;
        assert (u + rest)[..n] == u + rest[..k];
        PrintedStart(fs[1..], tail, CANONICAL);
        assert rest[..k] != [] ==> rest[..k][0] == rest[0];
        ScanStep(t, m, i, f, rest[..k], done, CANONICAL);
        ScanCut(t, m, i + |u|, fs[1..], body, k, if Readable(f) then done + [f] else done);
      }
    }
  }

  lemma PrintedNone()
    ensures Printed([], CANONICAL) == []
  {
  }

  lemma EndsHere(t: Bytes, m: Mode, i: nat)
    requires i < |t| && t[i] == CR
    ensures ItemAt(t, m, i) == Stop(i)
  {
    SpanIs(t, i, IsNameByte, i);
  }

  /**
    A header that breaks off, wherever that is, stops the program exactly if it
    does so in a field's name, before its value, or where only white space is
    left of the value.
   */
  lemma CutHeader(fs: seq<RawField>, body: Bytes, m: Mode, n: nat)
    requires AllLegal(fs, CANONICAL) && n <= |Printed(fs, CANONICAL) + (CRLF + body)|
    ensures Scanned((Printed(fs, CANONICAL) + (CRLF + body))[..n], m) == Panic <==> CutStops(fs, n)
  {
    var t := (Printed(fs, CANONICAL) + (CRLF + body))[..n];
    assert t[0..] == t;
    ScanCut(t, m, 0, fs, body, n, []);
  }
}
