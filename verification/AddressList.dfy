/**
  How an address field is laid out: addresses are put on a line while they fit,
  and the rest goes on to continuation lines.  An address here is the text that
  is written for it.
 */
module AddressList {
  import opened Octets
  import opened Folding

  const LIMIT: nat := 78
  const COMMA: Byte := 44

  /** `mark` stands before a line break and `indent` after it. */
  datatype Style = Style(wsep: Bytes, mark: Bytes, indent: Bytes)

  const COMMAS: Style := Style([COMMA, SP], [COMMA], [SP, SP, SP, SP])
  const REFERENCES: Style := Style([SP], [], [SP])

  predicate Known(st: Style) { st == COMMAS || st == REFERENCES }

  function Lsep(st: Style): Bytes { st.mark + CRLF + st.indent }

  lemma StylesAre()
    ensures LIMIT == 78 && |COMMAS.indent| == 4 && |REFERENCES.indent| == 1
    ensures IsText(COMMAS.wsep, ", ") && IsText(Lsep(COMMAS), ",\r\n    ")
    ensures IsText(REFERENCES.wsep, " ") && IsText(Lsep(REFERENCES), "\r\n ")
  {
  }

  /** Whether address `i` goes on a new line when the current one is `c` wide. */
  predicate Breaks(st: Style, l: seq<Bytes>, i: nat, c: nat)
    requires i < |l|
  {
    || c + |st.wsep| + |l[i]| > LIMIT
    || (c + |st.wsep| + |l[i]| == LIMIT && |l| > i + 1)
  }

  /** The text from address `i` on. */
  function Rest(st: Style, l: seq<Bytes>, i: nat, c: nat): Bytes
    decreases |l| - i
  {
    if i >= |l| then []
    else if Breaks(st, l, i, c) then Lsep(st) + l[i] + Rest(st, l, i + 1, |st.indent| + |l[i]|)
    else st.wsep + l[i] + Rest(st, l, i + 1, c + |st.wsep| + |l[i]|)
  }

  /** The text of the list where the first line is `start` wide already. */
  function Written(st: Style, l: seq<Bytes>, start: nat): Bytes
  {
    if l == [] then [] else l[0] + Rest(st, l, 1, start + |l[0]|)
  }

  method WriteList(references: bool, nameLength: nat, l: seq<Bytes>) returns (s: Bytes)
    ensures s == Written(if references then REFERENCES else COMMAS, l, nameLength + 2)
  {
    hide Breaks, Rest;
    s := [];
    var first := true;
    var c: nat := nameLength + 2;
    var wsep, lsep, lpos := [COMMA, SP], [COMMA, CR, LF, SP, SP, SP, SP], 4;
    if references {
      wsep, lsep, lpos := [SP], [CR, LF, SP], 1;
    }
    ghost var st := if references then REFERENCES else COMMAS;
    assert wsep == st.wsep && lsep == Lsep(st) && lpos == |st.indent|;
    var i := 0;
    while i < |l|
      invariant 0 <= i <= |l| && first == (i == 0) && (i == 0 ==> s == [] && c == nameLength + 2)
      invariant i > 0 ==> Written(st, l, nameLength + 2) == s + Rest(st, l, i, c)
    {
      if i > 0 { RestStep(st, l, i, c, s); }
      if first {
        first := false;
      } else if c + |wsep| + |l[i]| > LIMIT || (c + |wsep| + |l[i]| == LIMIT && |l| > i + 1) {
        s := s + lsep;
        c := lpos;
      } else {
        s := s + wsep;
        c := c + |wsep|;
      }
      s := s + l[i];
      c := c + |l[i]|;
      i := i + 1;
    }
    RestNone(st, l, c);
  }

  lemma RestNone(st: Style, l: seq<Bytes>, c: nat)
    ensures Rest(st, l, |l|, c) == []
  {
  }

  lemma RestStep(st: Style, l: seq<Bytes>, i: nat, c: nat, s: Bytes)
    requires i < |l|
    ensures s + Rest(st, l, i, c) ==
            if c + |st.wsep| + |l[i]| > LIMIT || (c + |st.wsep| + |l[i]| == LIMIT && |l| > i + 1)
            then s + Lsep(st) + l[i] + Rest(st, l, i + 1, |st.indent| + |l[i]|)
            else s + st.wsep + l[i] + Rest(st, l, i + 1, c + |st.wsep| + |l[i]|)
  {
    hide Lsep;
  }

  // -------------------------------------------------------------------- rows

  /** The addresses line by line; `row` are those on the current line so far. */
  function Rows(st: Style, l: seq<Bytes>, i: nat, c: nat, row: seq<Bytes>): (rows: seq<seq<Bytes>>)
    requires row != []
    ensures rows != [] && row <= rows[0]
    ensures forall k :: 0 <= k < |rows| ==> rows[k] != []
    decreases |l| - i
  {
    if i >= |l| then [row]
    else if Breaks(st, l, i, c) then [row] + Rows(st, l, i + 1, |st.indent| + |l[i]|, [l[i]])
    else Rows(st, l, i + 1, c + |st.wsep| + |l[i]|, row + [l[i]])
  }

  function Flat(rows: seq<seq<Bytes>>): seq<Bytes>
  {
    if rows == [] then [] else rows[0] + Flat(rows[1..])
  }

  function Joined(row: seq<Bytes>, sep: Bytes): Bytes
    requires row != []
  {
    if |row| == 1 then row[0] else row[0] + sep + Joined(row[1..], sep)
  }

  predicate NoneEmpty(rows: seq<seq<Bytes>>) { rows != [] && forall k :: 0 <= k < |rows| ==> rows[k] != [] }

  function Laid(rows: seq<seq<Bytes>>, wsep: Bytes, lsep: Bytes): Bytes
    requires NoneEmpty(rows)
  {
    var t := Joined(rows[0], wsep);
    if |rows| == 1 then t else t + lsep + Laid(rows[1..], wsep, lsep)
  }

  lemma {:induction false} JoinedSnoc(row: seq<Bytes>, a: Bytes, sep: Bytes)
    requires row != []
    ensures Joined(row + [a], sep) == Joined(row, sep) + sep + a
  {
    assert (row + [a])[1..] == row[1..] + [a];
    if |row| == 1 {
      assert (row + [a])[1..] == [a];
    } else {
      JoinedSnoc(row[1..], a, sep);
      var t := Joined(row[1..], sep);
      assert row[0] + sep + (t + sep + a) == (row[0] + sep + t) + sep + a;
    }
  }

  lemma LaidMore(row: seq<Bytes>, rows: seq<seq<Bytes>>, wsep: Bytes, lsep: Bytes)
    requires row != [] && NoneEmpty(rows)
    ensures NoneEmpty([row] + rows)
    ensures Laid([row] + rows, wsep, lsep) == Joined(row, wsep) + lsep + Laid(rows, wsep, lsep)
    ensures Flat([row] + rows) == row + Flat(rows)
  {
    hide Joined;
    assert ([row] + rows)[1..] == rows;
  }

  /** The text is the rows, with the one separator within and the other between them. */
  lemma {:induction false} RowsText(st: Style, l: seq<Bytes>, i: nat, c: nat, row: seq<Bytes>)
    requires row != [] && i <= |l|
    ensures Laid(Rows(st, l, i, c, row), st.wsep, Lsep(st)) == Joined(row, st.wsep) + Rest(st, l, i, c)
    ensures Flat(Rows(st, l, i, c, row)) == row + l[i..]
    decreases |l| - i
  {
    hide Breaks, Lsep, Joined, Laid, Flat;
    var x, y := Joined(row, st.wsep), Lsep(st);
    if i == |l| {
      LaidOne(row, st.wsep, y);
      assert x + [] == x && row + [] == row;
    } else if Breaks(st, l, i, c) {
      var d := |st.indent| + |l[i]|;
      var z := Rest(st, l, i + 1, d);
      RowsText(st, l, i + 1, d, [l[i]]);
      JoinedOne(l[i], st.wsep);
      LaidMore(row, Rows(st, l, i + 1, d, [l[i]]), st.wsep, y);
      assert x + y + (l[i] + z) == x + (y + l[i] + z);
      assert [l[i]] + l[i + 1..] == l[i..];
    } else {
      var d := c + |st.wsep| + |l[i]|;
      var z := Rest(st, l, i + 1, d);
      RowsText(st, l, i + 1, d, row + [l[i]]);
      JoinedSnoc(row, l[i], st.wsep);
      assert (x + st.wsep + l[i]) + z == x + (st.wsep + l[i] + z);
      assert row + [l[i]] + l[i + 1..] == row + l[i..];
    }
  }

  lemma LaidOne(row: seq<Bytes>, wsep: Bytes, lsep: Bytes)
    requires row != []
    ensures Laid([row], wsep, lsep) == Joined(row, wsep) && Flat([row]) == row
  {
    assert [row][1..] == [];
    assert row + [] == row;
  }

  lemma JoinedOne(a: Bytes, sep: Bytes)
    ensures Joined([a], sep) == a
  {
  }

  /** A line is wide enough for its addresses and the mark, or has one address only. */
  predicate Fits(rows: seq<seq<Bytes>>, st: Style, at: nat)
    requires NoneEmpty(rows)
  {
    var mark := if |rows| > 1 then |st.mark| else 0;
    && (|rows[0]| == 1 || at + |Joined(rows[0], st.wsep)| + mark <= LIMIT)
    && (|rows| > 1 ==> Fits(rows[1..], st, |st.indent|))
  }

  /** No line had room for the next address and, if it is not the last one, one column more. */
  predicate Filled(rows: seq<seq<Bytes>>, st: Style, at: nat)
    requires NoneEmpty(rows)
  {
    |rows| > 1 ==>
      && at + |Joined(rows[0], st.wsep)| + |st.wsep| + |rows[1][0]| + (if |Flat(rows[1..])| > 1 then 1 else 0) > LIMIT
      && Filled(rows[1..], st, |st.indent|)
  }

  lemma {:induction false} RowsFit(st: Style, l: seq<Bytes>, i: nat, at: nat, row: seq<Bytes>)
    requires Known(st) && row != [] && i <= |l|
    requires var c := at + |Joined(row, st.wsep)|; |row| == 1 || c < LIMIT || (c == LIMIT && i == |l|)
    ensures var rows := Rows(st, l, i, at + |Joined(row, st.wsep)|, row); Fits(rows, st, at) && Filled(rows, st, at)
    decreases |l| - i
  {
    hide Lsep, Joined;
    var c := at + |Joined(row, st.wsep)|;
    var rows := Rows(st, l, i, c, row);
    if i < |l| {
      if Breaks(st, l, i, c) {
        JoinedOne(l[i], st.wsep);
        RowsFit(st, l, i + 1, |st.indent|, [l[i]]);
        RowsText(st, l, i + 1, |st.indent| + |l[i]|, [l[i]]);
        assert rows[1..] == Rows(st, l, i + 1, |st.indent| + |l[i]|, [l[i]]);
        assert rows[1][0] == l[i];
      } else {
        JoinedSnoc(row, l[i], st.wsep);
        RowsFit(st, l, i + 1, at, row + [l[i]]);
      }
    }
  }

  /**
    A list is written as lines of addresses: all addresses in order, each line
    within 78 columns unless a single address is too wide, and none broken
    while the next address had room.
   */
  lemma Layout(st: Style, l: seq<Bytes>, start: nat) returns (rows: seq<seq<Bytes>>)
    requires Known(st) && l != []
    ensures NoneEmpty(rows) && Flat(rows) == l
    ensures Written(st, l, start) == Laid(rows, st.wsep, Lsep(st))
    ensures Fits(rows, st, start) && Filled(rows, st, start)
  {
    hide Lsep, Rest, Fits, Filled, Breaks;
    rows := Rows(st, l, 1, start + |l[0]|, [l[0]]);
    JoinedOne(l[0], st.wsep);
    RowsText(st, l, 1, start + |l[0]|, [l[0]]);
    RowsFit(st, l, 1, start, [l[0]]);
    assert [l[0]] + l[1..] == l;
  }

  // --------------------------------------------------------------- unfolding

  predicate Unbroken(l: seq<Bytes>) { forall k :: 0 <= k < |l| ==> NoBreaks(l[k]) }

  /** Apart from the line break, an id is written with a blank before it. */
  lemma ReferenceStep(l: seq<Bytes>, i: nat, c: nat) returns (d: nat)
    requires i < |l|
    ensures var t := [SP] + l[i] + Rest(REFERENCES, l, i + 1, d);
            Rest(REFERENCES, l, i, c) == if Breaks(REFERENCES, l, i, c) then CRLF + t else t
  {
    hide Breaks;
    var st := REFERENCES;
    d := (if Breaks(st, l, i, c) then 0 else c) + 1 + |l[i]|;
    var t := Rest(st, l, i + 1, d);
    assert Lsep(st) == CRLF + [SP];
    assert CRLF + [SP] + l[i] + t == CRLF + ([SP] + l[i] + t);
  }

  lemma {:induction false} UnfoldedRest(l: seq<Bytes>, i: nat, c: nat)
    requires 0 < i <= |l| && Unbroken(l)
    ensures Unfolded(Rest(REFERENCES, l, i, c)) ==
            if i == |l| then [] else [SP] + Joined(l[i..], [SP])
    decreases |l| - i
  {
    hide Breaks, Unfolded, Rest, Joined;
    if i == |l| {
      UnfoldedNone();
      RestNone(REFERENCES, l, c);
    } else {
      var d := ReferenceStep(l, i, c);
      var t := Rest(REFERENCES, l, i + 1, d);
      UnfoldedRest(l, i + 1, d);
      UnfoldedLine([SP] + l[i], t);
      UnfoldedBreak([SP] + l[i] + t);
      JoinedStep(l, i, [SP]);
      var j := if i + 1 < |l| then Joined(l[i + 1..], [SP]) else [];
      assert [SP] + l[i] + ([SP] + j) == [SP] + (l[i] + [SP] + j);
      assert [SP] + l[i] + [] == [SP] + l[i];
    }
  }

  lemma JoinedStep(l: seq<Bytes>, i: nat, sep: Bytes)
    requires i < |l|
    ensures Joined(l[i..], sep) == if i + 1 == |l| then l[i] else l[i] + sep + Joined(l[i + 1..], sep)
  {
    assert l[i..][1..] == l[i + 1..];
  }

  lemma UnfoldedNone()
    ensures Unfolded([]) == []
  {
  }

  lemma UnfoldedBreak(t: Bytes)
    ensures Unfolded(CRLF + t) == Unfolded(t)
  {
    assert (CRLF + t)[2..] == t;
  }

  /** Unfolding a References field gives its ids with one blank between them. */
  lemma ReferencesUnfold(l: seq<Bytes>, start: nat)
    requires l != [] && Unbroken(l)
    ensures Unfolded(Written(REFERENCES, l, start)) == Joined(l, [SP])
  {
    hide Unfolded, Rest;
    UnfoldedRest(l, 1, start + |l[0]|);
    UnfoldedLine(l[0], Rest(REFERENCES, l, 1, start + |l[0]|));
    assert l[0] + [] == l[0];
    assert |l| > 1 ==> l[0] + ([SP] + Joined(l[1..], [SP])) == l[0] + [SP] + Joined(l[1..], [SP]);
  }
}
