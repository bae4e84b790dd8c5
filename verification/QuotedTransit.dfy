/**
  Quoted-printable text on its way through a reader that makes its line breaks
  canonical before it decodes: what arrives for every byte string that was
  encoded.
 */
module QuotedTransit {
  import opened Octets
  import opened QuotedPrintable
  import LineEndings

  // ------------------------------------------------------------ what arrives

  /** The first `i` bytes with CR put before every LF that has none. */
  function WithReturns(s: Bytes, i: nat): Bytes
    requires i <= |s|
  {
    if i == 0 then []
    else WithReturns(s, i - 1) + (if s[i - 1] == LF && !(i >= 2 && s[i - 2] == CR) then CRLF else [s[i - 1]])
  }

  /** And a line break at the end, if there is none. */
  function Completed(s: Bytes): Bytes
  {
    WithReturns(s, |s|) + (if s != [] && s[|s| - 1] == LF then [] else CRLF)
  }

  /** Every line feed follows a carriage return, and the last byte is one. */
  predicate WholeLines(s: Bytes)
  {
    s != [] && s[|s| - 1] == LF && forall k :: 0 <= k < |s| && s[k] == LF ==> k > 0 && s[k - 1] == CR
  }

  lemma {:induction false} WithReturnsLength(s: Bytes, i: nat)
    requires i <= |s|
    ensures |WithReturns(s, i)| >= i
    ensures |WithReturns(s, i)| == i <==> forall k :: 0 <= k < i && s[k] == LF ==> k > 0 && s[k - 1] == CR
    ensures |WithReturns(s, i)| == i ==> WithReturns(s, i) == s[..i]
  {
    if i > 0 {
      WithReturnsLength(s, i - 1);
      Snoc(s, i - 1);
    }
  }

  /** Exactly texts of whole lines arrive as they were. */
  lemma CompletedFixed(s: Bytes)
    ensures Completed(s) == s <==> WholeLines(s)
  {
    WithReturnsLength(s, |s|);
    assert s[..|s|] == s;
    if WholeLines(s) { assert WithReturns(s, |s|) + [] == s; }
  }

  // ------------------------------------------------------------------ tokens

  const BREAK: seq<Token> := [Plain(CR), Plain(LF)]

  /** A carriage return stands before a line feed only. */
  predicate Closed(ts: seq<Token>)
  {
    forall k :: 0 <= k < |ts| && ts[k] == Plain(CR) ==> k + 1 < |ts| && ts[k + 1] == Plain(LF)
  }

  /** The tokens with canonical line breaks. */
  function Up(ts: seq<Token>): seq<Token>
  {
    if ts == [] then []
    else if ts[0] == Plain(CR) && |ts| > 1 && ts[1] == Plain(LF) then BREAK + Up(ts[2..])
    else if ts[0] == Plain(LF) then BREAK + Up(ts[1..])
    else [ts[0]] + Up(ts[1..])
  }

  lemma ClosedRest(ts: seq<Token>, k: nat)
    requires Closed(ts) && k <= |ts|
    ensures Closed(ts[k..])
  {
    forall j | 0 <= j < |ts[k..]| && ts[k..][j] == Plain(CR) ensures j + 1 < |ts[k..]| && ts[k..][j + 1] == Plain(LF) {
      assert ts[k + j] == Plain(CR);
    }
  }

  lemma ClosedStart(ts: seq<Token>, k: nat)
    requires Closed(ts) && k <= |ts| && (k > 0 ==> ts[k - 1] != Plain(CR))
    ensures Closed(ts[..k])
  {
  }

  lemma ClosedConcat(a: seq<Token>, b: seq<Token>)
    requires Closed(a) && Closed(b)
    ensures Closed(a + b)
  {
    var r := a + b;
    forall k | 0 <= k < |r| && r[k] == Plain(CR) ensures k + 1 < |r| && r[k + 1] == Plain(LF) {
      if k < |a| { assert a[k] == Plain(CR); } else { assert b[k - |a|] == Plain(CR); }
    }
  }

  /** How many tokens at the front become what. */
  function HeadWidth(ts: seq<Token>): nat { if |ts| >= 2 && ts[0] == Plain(CR) then 2 else 1 }

  function HeadUp(ts: seq<Token>): seq<Token>
    requires ts != []
  {
    if ts[0] == Plain(CR) || ts[0] == Plain(LF) then BREAK else [ts[0]]
  }

  lemma UpHead(ts: seq<Token>)
    requires ts != [] && (ts[0] == Plain(CR) ==> |ts| >= 2 && ts[1] == Plain(LF))
    ensures HeadWidth(ts) <= |ts| && Up(ts) == HeadUp(ts) + Up(ts[HeadWidth(ts)..])
  {
  }

  lemma {:induction false} UpConcat(a: seq<Token>, b: seq<Token>)
    requires Closed(a)
    ensures Up(a + b) == Up(a) + Up(b)
    decreases |a|
  {
    var r := a + b;
    if a == [] {
      assert r == b;
    } else {
      hide Up, HeadUp;
      var k, x := HeadWidth(a), HeadUp(a);
      PairAt(a);
      UpHead(a);
      assert r[0] == a[0] && (k == 2 ==> r[1] == a[1]);
      UpHead(r);
      assert HeadWidth(r) == k && r[k..] == a[k..] + b;
      assert HeadUp(r) == x by { SameHead(r, a); }
      ClosedRest(a, k);
      UpConcat(a[k..], b);
      assert x + (Up(a[k..]) + Up(b)) == x + Up(a[k..]) + Up(b);
    }
  }

  lemma SameHead(r: seq<Token>, a: seq<Token>)
    requires a != [] && r != [] && r[0] == a[0]
    ensures HeadUp(r) == HeadUp(a)
  {
  }

  lemma UpOne(t: Token)
    requires t != Plain(LF) && t != Plain(CR)
    ensures Up([t]) == [t] && Closed([t])
  {
    assert [t][1..] == [];
  }

  lemma UpBreak()
    ensures Up(BREAK) == BREAK && Up([Plain(LF)]) == BREAK && Closed(BREAK) && Closed([Plain(LF)])
    ensures Value(BREAK, false) == CRLF && Text(BREAK) == CRLF && AllOk(BREAK)
  {
    var feed := [Plain(LF)];
    assert BREAK[2..] == [] && BREAK[1..] == feed && feed[1..] == [];
    assert Up(feed[1..]) == [] && Value(feed[1..], false) == [] && Text(feed[1..]) == [];
    assert Value(feed, false) == [LF] && Text(feed) == [LF];
  }

  lemma {:induction false} UpOk(ts: seq<Token>)
    requires AllOk(ts)
    ensures AllOk(Up(ts))
    decreases |ts|
  {
    if ts != [] {
      UpOk(ts[1..]);
      if |ts| > 1 { UpOk(ts[2..]); }
    }
  }

  /** What the tokens mean with canonical line breaks. */
  function Meaning(ts: seq<Token>): Bytes { Value(Up(ts), false) }

  lemma MeaningConcat(a: seq<Token>, b: seq<Token>)
    requires Closed(a)
    ensures Meaning(a + b) == Meaning(a) + Meaning(b)
  {
    UpConcat(a, b);
    ValueConcat(Up(a), Up(b), false);
  }

  lemma MeaningOne(t: Token)
    requires t != Plain(LF) && t != Plain(CR)
    ensures Meaning([t]) == t.Value(false)
  {
    UpOne(t);
    assert [t][1..] == [] && Value([t][1..], false) == [];
    assert t.Value(false) + [] == t.Value(false);
  }

  lemma MeaningNone()
    ensures Meaning([]) == []
  {
  }

  // ------------------------------------------------------- canonical breaks

  /** The token ends a line. */
  predicate Ends(t: Token) { t == Plain(LF) || t == Soft }

  function Closing(ts: seq<Token>, lf: bool): Bytes
  {
    if (if ts == [] then lf else Ends(ts[|ts| - 1])) then [] else CRLF
  }

  lemma {:induction false} RewrittenRun(x: Bytes, t: Bytes, lf: bool)
    requires x != [] && NoBreaks(x)
    ensures LineEndings.Rewritten(x + t, lf) == x + LineEndings.Rewritten(t, false)
    decreases |x|
  {
    assert (x + t)[0] == x[0] && (x + t)[1..] == x[1..] + t;
    var r := LineEndings.Rewritten(t, false);
    if |x| == 1 {
      assert x[1..] + t == t && x == [x[0]];
    } else {
      RewrittenRun(x[1..], t, false);
      assert [x[0]] + (x[1..] + r) == x + r;
    }
  }

  lemma RewrittenFeed(t: Bytes, lf: bool)
    ensures LineEndings.Rewritten([LF] + t, lf) == CRLF + LineEndings.Rewritten(t, true)
    ensures LineEndings.Rewritten(CRLF + t, lf) == CRLF + LineEndings.Rewritten(t, true)
  {
    assert ([LF] + t)[1..] == t && (CRLF + t)[2..] == t;
    assert LineEndings.BreakWidth(CRLF + t) == 2 && LineEndings.BreakWidth([LF] + t) == 1;
  }

  lemma ClosingRest(ts: seq<Token>, k: nat, lf: bool)
    requires 0 < k <= |ts|
    ensures Closing(ts, lf) == Closing(ts[k..], Ends(ts[k - 1]))
  {
  }

  lemma {:induction false} RewrittenText(ts: seq<Token>, lf: bool)
    requires Closed(ts) && AllOk(ts)
    ensures LineEndings.Rewritten(Text(ts), lf) == Text(Up(ts)) + Closing(ts, lf)
    decreases |ts|
  {
    hide LineEndings.Rewritten, Closing, Closed;
    if ts == [] {
      RewrittenNone(lf);
    } else {
      var k := if ts[0] == Plain(CR) then 2 else 1;
      PairAt(ts);
      ClosedRest(ts, k);
      RewrittenText(ts[k..], Ends(ts[k - 1]));
      ClosingRest(ts, k, lf);
      RewrittenHead(ts, k, lf);
    }
  }

  lemma PairAt(ts: seq<Token>)
    requires Closed(ts) && ts != []
    ensures ts[0] == Plain(CR) ==> |ts| > 1 && ts[1] == Plain(LF)
  {
  }

  lemma RewrittenNone(lf: bool)
    ensures LineEndings.Rewritten([], lf) == [] + Closing([], lf)
  {
  }

  /** One token, or the two of a line break. */
  lemma RewrittenHead(ts: seq<Token>, k: nat, lf: bool)
    requires ts != [] && AllOk(ts) && k == (if ts[0] == Plain(CR) then 2 else 1) && k <= |ts| && (k == 2 ==> ts[1] == Plain(LF))
    requires var r, c := LineEndings.Rewritten(Text(ts[k..]), Ends(ts[k - 1])), Closing(ts, lf); r == Text(Up(ts[k..])) + c
    ensures LineEndings.Rewritten(Text(ts), lf) == Text(Up(ts)) + Closing(ts, lf)
  {
    hide LineEndings.Rewritten, Closing;
    var t, u, c := Text(ts[k..]), Text(Up(ts[k..])), Closing(ts, lf);
    if ts[0] == Plain(CR) {
      RewrittenPair(ts, lf, c);
    } else if ts[0] == Plain(LF) {
      UpBreak();
      RewrittenFeed(t, lf);
      TextConcat(BREAK, Up(ts[1..]));
      assert CRLF + (u + c) == CRLF + u + c;
    } else {
      HeadText(ts[0], t, lf);
      assert ([ts[0]] + Up(ts[1..]))[1..] == Up(ts[1..]);
      var x := ts[0].Text();
      assert x + (u + c) == x + u + c;
    }
  }

  lemma RewrittenPair(ts: seq<Token>, lf: bool, c: Bytes)
    requires |ts| >= 2 && ts[0] == Plain(CR) && ts[1] == Plain(LF)
    requires LineEndings.Rewritten(Text(ts[2..]), Ends(ts[1])) == Text(Up(ts[2..])) + c
    ensures LineEndings.Rewritten(Text(ts), lf) == Text(Up(ts)) + c
  {
    hide LineEndings.Rewritten, Up, Text;
    var t, u := Text(ts[2..]), Text(Up(ts[2..]));
    assert ts == BREAK + ts[2..];
    UpBreak();
    TextConcat(BREAK, ts[2..]);
    UpHead(ts);
    TextConcat(BREAK, Up(ts[2..]));
    RewrittenFeed(t, lf);
    assert CRLF + (u + c) == CRLF + u + c;
  }

  lemma HeadText(h: Token, t: Bytes, lf: bool)
    requires h.Ok() && h != Plain(CR) && h != Plain(LF)
    ensures LineEndings.Rewritten(h.Text() + t, lf) == h.Text() + LineEndings.Rewritten(t, Ends(h))
  {
    hide LineEndings.Rewritten;
    if h.Soft? {
      assert SOFT + t == [EQUALS] + (CRLF + t);
      RewrittenRun([EQUALS], CRLF + t, lf);
      RewrittenFeed(t, false);
      var r := LineEndings.Rewritten(t, true);
      assert [EQUALS] + (CRLF + r) == SOFT + r;
    } else {
      RewrittenRun(h.Text(), t, lf);
    }
  }

  // --------------------------------------------------------------- invariant

  /** The tokens written for the first `i` bytes, read with canonical line breaks, mean those bytes with returns. */
  ghost predicate Inv(s: Bytes, i: nat, out: Bytes, ts: seq<Token>)
  {
    && Boundary(s, i) && Spells(ts, out, s[..i], false) && Closed(ts) && Meaning(ts) == WithReturns(s, i)
    && (ts == [] <==> i == 0)
    && (ts != [] ==> ts[|ts| - 1] != Soft && (ts[|ts| - 1] == Plain(LF) <==> s[i - 1] == LF))
  }

  lemma NotOpen(ts: seq<Token>)
    requires Closed(ts) && ts != []
    ensures ts[|ts| - 1] != Plain(CR)
  {
  }

  /** A soft break that does not stand inside a line break means nothing. */
  lemma SoftMeans(ts: seq<Token>, k: nat)
    requires Closed(ts) && k <= |ts| && (k == |ts| || (k > 0 && ts[k - 1] == Plain(SP)))
    ensures var r := ts[..k] + [Soft] + ts[k..]; Closed(r) && Meaning(r) == Meaning(ts)
  {
    hide Meaning, Closed;
    var a, b := ts[..k], ts[k..];
    if ts != [] { NotOpen(ts); }
    ClosedStart(ts, k);
    ClosedRest(ts, k);
    UpOne(Soft);
    MeaningOne(Soft);
    ClosedConcat(a, [Soft]);
    ClosedConcat(a + [Soft], b);
    MeaningConcat(a, [Soft]);
    MeaningConcat(a + [Soft], b);
    MeaningConcat(a, b);
    assert a + b == ts;
    assert Meaning(a) + [] == Meaning(a);
  }

  lemma UnitMeans(s: Bytes, i: nat, ts: seq<Token>, t: Token)
    requires i < |s| && Closed(ts) && Meaning(ts) == WithReturns(s, i) && !AtLineBreak(s, i)
    requires t == Hex(s[i]) || (t == Plain(s[i]) && !IsBreak(s[i]))
    ensures Closed(ts + [t]) && Meaning(ts + [t]) == WithReturns(s, i + 1)
  {
    hide Meaning, Closed;
    UpOne(t);
    MeaningOne(t);
    MeaningConcat(ts, [t]);
    ClosedConcat(ts, [t]);
  }

  /** Escaping a space at the end means the same. */
  lemma EscapeMeans(ts: seq<Token>)
    requires Closed(ts) && ts != [] && ts[|ts| - 1] == Plain(SP)
    ensures var r := ts[..|ts| - 1] + [Hex(SP)]; Closed(r) && Meaning(r) == Meaning(ts)
  {
    hide Meaning, Closed;
    var a := ts[..|ts| - 1];
    assert ts == a + [Plain(SP)];
    LastClosed(ts);
    UpOne(Hex(SP));
    MeaningOne(Hex(SP));
    MeaningOne(Plain(SP));
    ClosedConcat(a, [Hex(SP)]);
    MeaningConcat(a, [Hex(SP)]);
    MeaningConcat(a, [Plain(SP)]);
  }

  lemma LastClosed(ts: seq<Token>)
    requires Closed(ts) && ts != [] && ts[|ts| - 1] == Plain(SP)
    ensures Closed(ts[..|ts| - 1])
  {
    assert |ts| > 1 ==> ts[|ts| - 2] != Plain(CR);
  }

  lemma BreakArrives(s: Bytes, i: nat)
    requires i < |s| && AtLineBreak(s, i) && Boundary(s, i)
    ensures WithReturns(s, Next(s, i)) == WithReturns(s, i) + CRLF
  {
    if s[i] == CR {
      assert WithReturns(s, i + 1) == WithReturns(s, i) + [CR];
      assert WithReturns(s, i + 2) == WithReturns(s, i + 1) + [LF];
      assert WithReturns(s, i) + [CR] + [LF] == WithReturns(s, i) + CRLF;
    }
  }

  lemma BreakOnly(b: seq<Token>)
    requires b == BREAK || b == [Plain(LF)]
    ensures Closed(b) && Meaning(b) == CRLF
  {
    UpBreak();
  }

  lemma BreakMeans(s: Bytes, i: nat, ts: seq<Token>)
    requires i < |s| && Closed(ts) && Meaning(ts) == WithReturns(s, i) && AtLineBreak(s, i) && Boundary(s, i)
    ensures var r := ts + if s[i] == CR then BREAK else [Plain(LF)];
            Closed(r) && Meaning(r) == WithReturns(s, Next(s, i))
  {
    hide Closed, Meaning, WithReturns;
    var b := if s[i] == CR then BREAK else [Plain(LF)];
    BreakOnly(b);
    ClosedConcat(ts, b);
    MeaningConcat(ts, b);
    BreakArrives(s, i);
  }

  lemma StepKeeps(s: Bytes, from: bool, i: nat, st: State, ts: seq<Token>) returns (ts': seq<Token>)
    requires i < |s| && Sized(st) && Inv(s, i, st.out, ts)
    ensures Inv(s, Next(s, i), Step(s, false, from, i, st).out, ts')
  {
    hide Spells, Meaning, WithReturns, Closed, Unit, SoftBroken, Protected;
    if AtLineBreak(s, i) {
      ts' := SpellsBreak(s, false, i, ts, st.out);
      var b := if s[i] == CR then BREAK else [Plain(LF)];
      if ts' == ts + b {
        BreakMeans(s, i, ts);
      } else {
        EscapeMeans(ts);
        BreakMeans(s, i, ts[..|ts| - 1] + [Hex(SP)]);
      }
    } else {
      ts' := ts;
      if st.col > 72 {
        var k;
        ts', k := SpellsSoft(ts, st, s[..i], false);
        SoftMeans(ts, k);
      }
      var t := SpellsUnit(s, false, from, i, ts', Room(st));
      UnitMeans(s, i, ts', t);
      ts' := ts' + [t];
    }
  }

  lemma {:induction false} EncodeFromArrives(s: Bytes, from: bool, i: nat, st: State, ts: seq<Token>)
    requires i <= |s| && Sized(st) && Inv(s, i, st.out, ts)
    ensures Decoded(LineEndings.Rewritten(EncodeFrom(s, false, from, i, st), false), false) == Completed(s)
    decreases |s| - i
  {
    hide Decoded, LineEndings.Rewritten, Step;
    if i < |s| {
      var ts' := StepKeeps(s, from, i, st, ts);
      EncodeFromArrives(s, from, Next(s, i), Step(s, false, from, i, st), ts');
    } else {
      Arrives(s, st.out, ts);
    }
  }

  lemma Arrives(s: Bytes, out: Bytes, ts: seq<Token>)
    requires Inv(s, |s|, out, ts)
    ensures Decoded(LineEndings.Rewritten(out, false), false) == Completed(s)
  {
    hide Decoded, LineEndings.Rewritten, Up, Closed, Text, Value;
    var us := Up(ts);
    RewrittenText(ts, false);
    UpOk(ts);
    UpBreak();
    Concat(us, BREAK, false);
    DecodeTokens(us, false);
    DecodeTokens(us + BREAK, false);
    assert Text(us) + [] == Text(us);
    assert WithReturns(s, |s|) + [] == WithReturns(s, |s|);
  }

  /**
    What was encoded arrives, after its line breaks were made canonical and it
    was decoded, with CR before every LF that had none and a line break at the end.
   */
  lemma QuotedArrives(s: Bytes, from: bool)
    ensures Decoded(LineEndings.Rewritten(Encoded(s, false, from), false), false) == Completed(s)
  {
    hide Decoded, LineEndings.Rewritten, EncodeFrom;
    MeaningNone();
    EncodeFromArrives(s, from, 0, State([], 0), []);
  }
}
