/**
  Canonical line endings.  The reference is the list of lines of a text, where
  CR, LF, CR LF and CR CR LF each count as one break; the canonical text puts
  CR LF after every line.
 */
module LineEndings {
  import opened Octets

  /** The length of the line break `s` starts with; 0 if it starts with none. */
  function BreakWidth(s: Bytes): (w: nat)
    ensures w <= |s|
    ensures w > 0 <==> s != [] && IsBreak(s[0])
  {
    if s == [] || !IsBreak(s[0]) then 0
    else if s[0] == LF then 1
    else if |s| > 1 && s[1] == LF then 2
    else if |s| > 2 && s[1] == CR && s[2] == LF then 3
    else 1
  }

  /** The lines of `cur + s`, where `cur` is the unfinished line so far. */
  function Split(s: Bytes, cur: Bytes): seq<Bytes>
    decreases |s|
  {
    if s == [] then (if cur == [] then [] else [cur])
    else if BreakWidth(s) == 0 then Split(s[1..], cur + [s[0]])
    else [cur] + Split(s[BreakWidth(s)..], [])
  }

  /** The lines of `s`; the empty text has one, empty, line. */
  function Lines(s: Bytes): seq<Bytes>
  {
    if s == [] then [[]] else Split(s, [])
  }

  /** Every line followed by CR LF. */
  function Joined(ls: seq<Bytes>): Bytes
  {
    if ls == [] then [] else ls[0] + CRLF + Joined(ls[1..])
  }

  predicate BreakFree(ls: seq<Bytes>) { forall k :: 0 <= k < |ls| ==> NoBreaks(ls[k]) }

  /** CR and LF occur only as CR LF pairs, and the text ends in one. */
  predicate Canonical(r: Bytes)
  {
    && |r| >= 2 && r[|r| - 2..] == CRLF
    && (forall k :: 0 <= k < |r| && r[k] == CR ==> k + 1 < |r| && r[k + 1] == LF)
    && (forall k :: 0 <= k < |r| && r[k] == LF ==> k > 0 && r[k - 1] == CR)
  }

  /** The plain rewriting loop; `lf` says that a break was written last. */
  function Rewritten(s: Bytes, lf: bool): Bytes
    decreases |s|
  {
    if s == [] then (if lf then [] else CRLF)
    else if BreakWidth(s) > 0 then CRLF + Rewritten(s[BreakWidth(s)..], true)
    else [s[0]] + Rewritten(s[1..], false)
  }

  lemma RewrittenByte(s: Bytes, i: nat, out: Bytes, lf: bool)
    requires i < |s| && !IsBreak(s[i])
    ensures out + Rewritten(s[i..], lf) == (out + [s[i]]) + Rewritten(s[i + 1..], false)
  {
    assert s[i..][1..] == s[i + 1..];
    assert out + ([s[i]] + Rewritten(s[i + 1..], false)) == (out + [s[i]]) + Rewritten(s[i + 1..], false);
  }

  lemma RewrittenBreak(s: Bytes, i: nat, w: nat, out: Bytes, lf: bool)
    requires i < |s| && w == BreakWidth(s[i..]) && w > 0
    ensures out + Rewritten(s[i..], lf) == (out + CRLF) + Rewritten(s[i + w..], true)
  {
    assert s[i..][w..] == s[i + w..];
    assert out + (CRLF + Rewritten(s[i + w..], true)) == (out + CRLF) + Rewritten(s[i + w..], true);
  }

  lemma RewrittenEnds(s: Bytes, i: nat, lf: bool, lf': bool)
    requires i <= |s|
    ensures i == |s| ==> Rewritten(s[i..], lf) == if lf then [] else CRLF
    ensures i < |s| ==> Rewritten(s[i..], lf) == Rewritten(s[i..], lf')
  {
  }

  lemma PrefixPair(s: Bytes, i: nat, lf: bool)
    requires i + 1 < |s| && s[i] == CR && s[i + 1] == LF
    ensures s[..i] + Rewritten(s[i..], lf) == s[..i + 2] + Rewritten(s[i + 2..], true)
  {
    RewrittenBreak(s, i, 2, s[..i], lf);
    assert s[..i] + CRLF == s[..i + 2];
  }

  lemma PrefixByte(s: Bytes, i: nat, lf: bool)
    requires i < |s| && !IsBreak(s[i])
    ensures s[..i] + Rewritten(s[i..], lf) == s[..i + 1] + Rewritten(s[i + 1..], false)
  {
    RewrittenByte(s, i, s[..i], lf);
    Snoc(s, i);
  }

  /** How far the text is canonical already; `lf` says that it is so up to a break. */
  method CanonicalPrefix(s: Bytes) returns (i: nat, useCopy: bool, ghost lf: bool)
    ensures i <= |s| && s[..i] + Rewritten(s[i..], lf) == Rewritten(s, false)
    ensures useCopy ==> i == |s| && lf
    ensures !useCopy ==> i < |s| || (i == 0 && !lf)
  {
    hide Rewritten;
    useCopy := !(|s| < 2 || s[|s| - 1] != LF || s[|s| - 2] != CR);
    i, lf := 0, false;
    assert s[0..] == s;
    while useCopy && i < |s|
      invariant i <= |s| && s[..i] + Rewritten(s[i..], lf) == Rewritten(s, false)
      invariant !lf ==> i == 0 || !IsBreak(s[i - 1])
      invariant useCopy ==> |s| >= 2 && s[|s| - 1] == LF
      invariant !useCopy ==> i < |s| || (i == 0 && !lf)
      decreases |s| - i, useCopy
    {
      if s[i] == CR && s[i + 1] == LF {
        PrefixPair(s, i, lf);
        i, lf := i + 2, true;
      } else if s[i] == CR || s[i] == LF {
        useCopy := false;
      } else {
        PrefixByte(s, i, lf);
        i, lf := i + 1, false;
      }
    }
  }

  method BreakAt(s: Bytes, i: nat) returns (w: nat)
    requires i < |s|
    ensures w == BreakWidth(s[i..])
  {
    ghost var t := s[i..];
    assert forall k :: 0 <= k < |t| ==> t[k] == s[i + k];
    var j := i + 1;
    if s[i] == CR {
      if j < |s| && s[j] == LF {
        j := j + 1;
      } else if j < |s| - 1 && s[j] == CR && s[j + 1] == LF {
        j := j + 2;
      }
    }
    w := if IsBreak(s[i]) then j - i else 0;
  }

  /**
    A text that is canonical already is returned as it is; otherwise rewriting
    starts where the first scan stopped.  Either way the result is that of
    rewriting from the start.
   */
  method ToCRLF(s: Bytes) returns (r: Bytes)
    ensures r == Rewritten(s, false)
  {
    hide Rewritten;
    var i, useCopy, lf0 := CanonicalPrefix(s);
    var lf := false;
    RewrittenEnds(s, i, lf0, lf);
    if useCopy {
      assert s[..i] == s && s + [] == s;
      return s;
    }
    r := s[..i];
    while i < |s|
      invariant i <= |s| && r + Rewritten(s[i..], lf) == Rewritten(s, false)
    {
      var w := BreakAt(s, i);
      if w > 0 {
        RewrittenBreak(s, i, w, r, lf);
        r := r + CRLF;
        i := i + w;
      } else {
        assert !IsBreak(s[i..][0]);
        RewrittenByte(s, i, r, lf);
        r := r + [s[i]];
        i := i + 1;
      }
      lf := w > 0;
    }
    RewrittenEnds(s, i, lf, lf);
    if !lf { r := r + CRLF; }
  }

  /** Rewriting writes the rest of the line so far, and every later line, each with CR LF. */
  lemma {:induction false} RewrittenJoins(s: Bytes, cur: Bytes)
    ensures Joined(Split(s, cur)) == cur + Rewritten(s, cur == [])
    decreases |s|
  {
    if s == [] {
      if cur != [] { assert [cur][1..] == [] && cur + CRLF + [] == cur + CRLF; }
    } else if BreakWidth(s) == 0 {
      RewrittenJoins(s[1..], cur + [s[0]]);
      assert cur + [s[0]] + Rewritten(s[1..], false) == cur + ([s[0]] + Rewritten(s[1..], false));
    } else {
      var t := s[BreakWidth(s)..];
      RewrittenJoins(t, []);
      assert ([cur] + Split(t, []))[1..] == Split(t, []);
      assert [] + Rewritten(t, true) == Rewritten(t, true);
      assert cur + CRLF + Rewritten(t, true) == cur + (CRLF + Rewritten(t, true));
    }
  }

  /** The canonical text is the lines of the input, each followed by CR LF. */
  lemma RewrittenLines(s: Bytes)
    ensures Rewritten(s, false) == Joined(Lines(s))
  {
    if s == [] {
      var one: seq<Bytes> := [[]];
      assert one[1..] == [] && Joined(one) == CRLF;
    } else {
      RewrittenJoins(s, []);
      assert [] + Rewritten(s, true) == Rewritten(s, true);
    }
  }

  lemma {:induction false} SplitAppend(a: Bytes, b: Bytes, cur: Bytes)
    requires NoBreaks(a)
    ensures Split(a + b, cur) == Split(b, cur + a)
  {
    if a == [] {
      assert a + b == b && cur + a == cur;
    } else {
      assert (a + b)[0] == a[0] && (a + b)[1..] == a[1..] + b;
      SplitAppend(a[1..], b, cur + [a[0]]);
      assert cur + [a[0]] + a[1..] == cur + a;
    }
  }

  lemma SplitPair(rest: Bytes, cur: Bytes)
    ensures Split(CRLF + rest, cur) == [cur] + Split(rest, [])
  {
    assert (CRLF + rest)[2..] == rest;
  }

  /** Splitting takes canonical lines off the front. */
  lemma {:induction false} SplitJoined(ls: seq<Bytes>, rest: Bytes)
    requires BreakFree(ls)
    ensures Split(Joined(ls) + rest, []) == ls + Split(rest, [])
    decreases |ls|
  {
    hide Split;
    if ls == [] {
      assert Joined(ls) + rest == rest;
    } else {
      var l, rest' := ls[0], Joined(ls[1..]) + rest;
      SplitJoined(ls[1..], rest);
      assert Joined(ls) + rest == l + (CRLF + rest');
      SplitAppend(l, CRLF + rest', []);
      SplitPair(rest', l);
      assert [] + l == l;
      assert [l] + (ls[1..] + Split(rest, [])) == ls + Split(rest, []);
    }
  }

  lemma {:induction false} SplitBreakFree(s: Bytes, cur: Bytes)
    requires NoBreaks(cur)
    ensures BreakFree(Split(s, cur))
    decreases |s|
  {
    if s != [] {
      if BreakWidth(s) == 0 {
        SplitBreakFree(s[1..], cur + [s[0]]);
      } else {
        SplitBreakFree(s[BreakWidth(s)..], []);
      }
    }
  }

  lemma LinesBreakFree(s: Bytes)
    ensures BreakFree(Lines(s)) && Lines(s) != []
  {
    SplitBreakFree(s, []);
    if s != [] { SplitNonempty(s, []); }
  }

  lemma {:induction false} SplitNonempty(s: Bytes, cur: Bytes)
    requires s != [] || cur != []
    ensures Split(s, cur) != []
    decreases |s|
  {
    if s != [] && BreakWidth(s) == 0 { SplitNonempty(s[1..], cur + [s[0]]); }
  }

  /** The canonical text has the same lines as the text it was made from. */
  lemma SameLines(s: Bytes)
    ensures Lines(Rewritten(s, false)) == Lines(s)
  {
    RewrittenLines(s);
    LinesBreakFree(s);
    var ls := Lines(s);
    SplitJoined(ls, []);
    assert Joined(ls) + [] == Joined(ls) && ls + [] == ls;
  }

  /** Canonicalising twice is canonicalising once. */
  lemma Idempotent(s: Bytes)
    ensures Rewritten(Rewritten(s, false), false) == Rewritten(s, false)
  {
    SameLines(s);
    RewrittenLines(s);
    RewrittenLines(Rewritten(s, false));
  }

  lemma {:induction false} RewrittenCanonical(s: Bytes, lf: bool)
    requires s == [] ==> !lf
    ensures Canonical(Rewritten(s, lf))
    decreases |s|
  {
    if s == [] {
      assert Canonical(CRLF);
    } else if BreakWidth(s) > 0 {
      var t := s[BreakWidth(s)..];
      if t == [] {
        assert CRLF + [] == CRLF && Canonical(CRLF);
      } else {
        RewrittenCanonical(t, true);
        CanonicalAfter(CRLF, Rewritten(t, true));
      }
    } else {
      RewrittenCanonical(s[1..], false);
      CanonicalAfter([s[0]], Rewritten(s[1..], false));
    }
  }

  /** What is left of a canonical text after whole lines or single characters. */
  predicate Rest(s: Bytes)
  {
    && (forall k :: 0 <= k < |s| && s[k] == CR ==> k + 1 < |s| && s[k + 1] == LF)
    && (forall k :: 0 <= k < |s| && s[k] == LF ==> k > 0 && s[k - 1] == CR)
    && (s != [] ==> s[|s| - 1] == LF)
  }

  lemma {:induction false} RestFixed(s: Bytes)
    requires Rest(s)
    ensures Rewritten(s, true) == s && (s != [] ==> Rewritten(s, false) == s)
    decreases |s|
  {
    if s != [] {
      if IsBreak(s[0]) {
        assert s[0] == CR && s[1] == LF && BreakWidth(s) == 2;
        assert s == CRLF + s[2..];
        RestFixed(s[2..]);
      } else {
        assert s == [s[0]] + s[1..];
        RestFixed(s[1..]);
      }
    }
  }

  /** Exactly the canonical texts are left as they are. */
  lemma CanonicalFixed(s: Bytes)
    ensures Rewritten(s, false) == s <==> Canonical(s)
  {
    RewrittenCanonical(s, false);
    if Canonical(s) {
      assert s[|s| - 1] == s[|s| - 2..][1];
      RestFixed(s);
    }
  }

  lemma CanonicalAfter(a: Bytes, b: Bytes)
    requires Canonical(b) && (a == CRLF || (|a| == 1 && !IsBreak(a[0])))
    ensures Canonical(a + b)
  {
    var r := a + b;
    assert r[|r| - 2..] == b[|b| - 2..];
    forall k | |a| <= k < |r| ensures (r[k] == CR ==> k + 1 < |r| && r[k + 1] == LF) && (r[k] == LF ==> k > 0 && r[k - 1] == CR) {
      assert r[k] == b[k - |a|];
    }
  }

  // ------------------------------------------------------- line by line

  /** What counts as one line break before `rest`. */
  predicate OneBreak(br: Bytes, rest: Bytes)
  {
    || IsText(br, "\n") || IsText(br, "\r\n") || IsText(br, "\r\r\n")
    || (IsText(br, "\r") && !HasAt(rest, 0, [LF]) && !HasAt(rest, 0, [CR, LF]))
  }

  lemma WidthOf(br: Bytes, rest: Bytes)
    requires OneBreak(br, rest)
    ensures br != [] && BreakWidth(br + rest) == |br|
  {
    var s := br + rest;
    assert forall k :: 0 <= k < |br| ==> s[k] == br[k];
    if |rest| >= 1 { assert rest[0..1] == [rest[0]] && s[|br|] == rest[0]; }
    if |rest| >= 2 { assert rest[0..2] == [rest[0], rest[1]] && s[|br| + 1] == rest[1]; }
  }

  /** A line and its break, whichever of the four it is, become the line and CR LF. */
  lemma {:induction false} RewritesLine(line: Bytes, br: Bytes, rest: Bytes, lf: bool)
    requires NoBreaks(line) && OneBreak(br, rest)
    ensures Rewritten(line + (br + rest), lf) == line + (CRLF + Rewritten(rest, true))
    decreases |line|
  {
    hide OneBreak, BreakWidth;
    WidthOf(br, rest);
    var u := br + rest;
    if line == [] {
      assert line + u == u && u[|br|..] == rest;
      assert Rewritten(u, lf) == CRLF + Rewritten(rest, true);
    } else {
      var t := line[1..];
      NotBreakWidth(line + u);
      assert (line + u)[1..] == t + u;
      RewritesLine(t, br, rest, false);
      assert [line[0]] + (t + (CRLF + Rewritten(rest, true))) == line + (CRLF + Rewritten(rest, true));
    }
  }

  lemma {:induction false} RewritesLast(line: Bytes, lf: bool)
    requires NoBreaks(line)
    ensures Rewritten(line, lf) == if line == [] && lf then [] else line + CRLF
    decreases |line|
  {
    if line == [] {
      assert line + CRLF == CRLF;
    } else {
      RewritesLast(line[1..], false);
      assert [line[0]] + (line[1..] + CRLF) == line + CRLF;
    }
  }

  lemma NotBreakWidth(s: Bytes)
    requires s != [] && !IsBreak(s[0])
    ensures BreakWidth(s) == 0
  {
  }
}
