/**
  Exactly which parameter values are read as they were printed.  Values are
  quoted with `'` as the escape character, but read with a backslash.
 */
module PrintedValues {
  import opened Octets
  import opened Tokens
  import opened MimeParameters
  import Quoting

  /** What the reader makes of the quoted form of `v`, from index `i` of the value on. */
  function ReadBack(v: Bytes, i: nat, buf: Bytes): (r: Bytes)
    requires i <= |v|
    ensures buf <= r
    decreases |v| - i
  {
    if i == |v| then buf
    else if v[i] == SQUOTE then ReadBack(v, i + 1, buf + [SQUOTE, SQUOTE])
    else if v[i] == BACKSLASH then
      if i + 1 == |v| then buf + [DQUOTE]
      else ReadBack(v, i + 2, buf + if v[i + 1] == SQUOTE then [SQUOTE, SQUOTE] else [v[i + 1]])
    else if IsSpace(v[i]) then
      var e := SpanEnd(v, i + 1, IsWhitespace);
      ReadBack(v, e, buf + Unfold(v[i..e]))
    else ReadBack(v, i + 1, buf + [v[i]])
  }

  // ----------------------------------------------------- the reader on the text

  function Raw(v: Bytes, i: nat): Bytes
    requires i <= |v|
  {
    Quoting.Escaped(v[i..], DQUOTE, SQUOTE) + [DQUOTE]
  }

  lemma RawStep(v: Bytes, i: nat)
    requires i < |v|
    ensures Raw(v, i) == (if v[i] == DQUOTE || v[i] == SQUOTE then [SQUOTE, v[i]] else [v[i]]) + Raw(v, i + 1)
  {
    assert v[i..][1..] == v[i + 1..] && v[i..][0] == v[i];
    var h, t := if v[i] == DQUOTE || v[i] == SQUOTE then [SQUOTE, v[i]] else [v[i]], Quoting.Escaped(v[i + 1..], DQUOTE, SQUOTE);
    assert h + t + [DQUOTE] == h + (t + [DQUOTE]);
  }

  lemma RawEnd(v: Bytes)
    ensures Raw(v, |v|) == [DQUOTE]
  {
  }

  lemma SuffixStep(s: Bytes, at: nat, h: Bytes, t: Bytes)
    requires at <= |s| && s[at..] == h + t
    ensures at + |h| <= |s| && s[at + |h|..] == t && forall k :: 0 <= k < |h| ==> s[at + k] == h[k]
  {
    assert s[at + |h|..] == s[at..][|h|..];
    forall k | 0 <= k < |h| ensures s[at + k] == h[k] { assert s[at + k] == s[at..][k]; }
  }

  /** White space is printed as it is. */
  lemma {:induction false} RawRun(v: Bytes, i: nat, e: nat)
    requires i <= e <= |v| && forall k :: i <= k < e ==> IsWhitespace(v[k])
    ensures Raw(v, i) == v[i..e] + Raw(v, e)
    decreases e - i
  {
    hide Raw;
    if i < e {
      RawStep(v, i);
      RawRun(v, i + 1, e);
      assert [v[i]] + (v[i + 1..e] + Raw(v, e)) == v[i..e] + Raw(v, e);
    } else {
      assert v[i..e] + Raw(v, e) == Raw(v, e);
    }
  }

  lemma RawFirst(v: Bytes, i: nat)
    requires i <= |v|
    ensures Raw(v, i) != [] && (i < |v| && v[i] != DQUOTE ==> Raw(v, i)[0] == v[i]) && (i == |v| ==> Raw(v, i)[0] == DQUOTE)
  {
    if i < |v| { RawStep(v, i); } else { RawEnd(v); }
  }

  /** The run of white space at the cursor is the one in the value. */
  lemma SpaceRun(s: Bytes, at: nat, v: Bytes, i: nat)
    requires i < |v| && DQUOTE !in v && at <= |s| && s[at..] == Raw(v, i) && IsSpace(v[i])
    ensures var e := SpanEnd(v, i + 1, IsWhitespace);
            && at < |s| && s[at] == v[i] && Whitespace(s, at + 1).at == at + (e - i)
            && s[at..at + (e - i)] == v[i..e] && at + (e - i) <= |s| && s[at + (e - i)..] == Raw(v, e)
  {
    hide Raw;
    var e := SpanEnd(v, i + 1, IsWhitespace);
    var w, n := v[i..e], e - i;
    forall k | i <= k < e ensures IsWhitespace(v[k]) { }
    RawRun(v, i, e);
    SuffixStep(s, at, w, Raw(v, e));
    RawFirst(v, e);
    assert s[at + n] == s[at + n..][0];
    assert !IsWhitespace(s[at + n]);
    forall k | at + 1 <= k < at + n ensures IsWhitespace(s[k]) { assert s[at + (k - at)] == w[k - at]; }
    SpanIs(s, at + 1, IsWhitespace, at + n);
    assert s[at + 0] == w[0];
    assert s[at..at + n] == w;
  }

  lemma {:induction false} ReadsRaw(s: Bytes, at: nat, v: Bytes, i: nat, buf: Bytes)
    requires i <= |v| && DQUOTE !in v && at <= |s| && s[at..] == Raw(v, i)
    ensures QuotedRest(s, at, buf).text == ReadBack(v, i, buf)
    decreases |v| - i
  {
    hide Raw, Whitespace, Unfold, QuotedRest, SpanEnd;
    if i == |v| {
      ReadsEnd(s, at, v, buf);
    } else if v[i] == SQUOTE {
      ReadsQuote(s, at, v, i, buf);
      ReadsRaw(s, at + 2, v, i + 1, buf + [SQUOTE, SQUOTE]);
    } else if v[i] == BACKSLASH {
      ReadsPair(s, at, v, i, buf);
      if i + 2 <= |v| {
        var q := v[i + 1] == SQUOTE;
        ReadsRaw(s, at + if q then 3 else 2, v, i + 2, buf + if q then [SQUOTE, SQUOTE] else [v[i + 1]]);
      }
    } else if IsSpace(v[i]) {
      var e := SpanEnd(v, i + 1, IsWhitespace);
      ReadsRun(s, at, v, i, buf);
      ReadsRaw(s, at + (e - i), v, e, buf + Unfold(v[i..e]));
    } else {
      ReadsByte(s, at, v, i, buf);
      ReadsRaw(s, at + 1, v, i + 1, buf + [v[i]]);
    }
  }

  lemma ReadsByte(s: Bytes, at: nat, v: Bytes, i: nat, buf: Bytes)
    requires i < |v| && DQUOTE !in v && at <= |s| && s[at..] == Raw(v, i)
    requires v[i] != SQUOTE && v[i] != BACKSLASH && !IsSpace(v[i])
    ensures at < |s| && s[at + 1..] == Raw(v, i + 1) && QuotedRest(s, at, buf) == QuotedRest(s, at + 1, buf + [v[i]])
  {
    hide Raw, Whitespace, Unfold;
    RawStep(v, i);
    SuffixStep(s, at, [v[i]], Raw(v, i + 1));
    assert s[at + 0] == v[i];
  }

  lemma ReadsRun(s: Bytes, at: nat, v: Bytes, i: nat, buf: Bytes)
    requires i < |v| && DQUOTE !in v && at <= |s| && s[at..] == Raw(v, i) && IsSpace(v[i])
    ensures var e := SpanEnd(v, i + 1, IsWhitespace);
            && at + (e - i) <= |s| && s[at + (e - i)..] == Raw(v, e)
            && QuotedRest(s, at, buf) == QuotedRest(s, at + (e - i), buf + Unfold(v[i..e]))
  {
    hide Raw, Whitespace, Unfold, SpanEnd;
    SpaceRun(s, at, v, i);
  }

  lemma ReadsEnd(s: Bytes, at: nat, v: Bytes, buf: Bytes)
    requires at <= |s| && s[at..] == Raw(v, |v|)
    ensures QuotedRest(s, at, buf).text == buf
  {
    hide Raw;
    RawEnd(v);
    assert s[at] == s[at..][0];
  }

  lemma ReadsQuote(s: Bytes, at: nat, v: Bytes, i: nat, buf: Bytes)
    requires i < |v| && v[i] == SQUOTE && at <= |s| && s[at..] == Raw(v, i)
    ensures at + 2 <= |s| && s[at + 2..] == Raw(v, i + 1) && QuotedRest(s, at, buf) == QuotedRest(s, at + 2, buf + [SQUOTE, SQUOTE])
  {
    hide Raw, QuotedRest;
    RawStep(v, i);
    SuffixStep(s, at, [SQUOTE, SQUOTE], Raw(v, i + 1));
    TwoQuotes(s, at, buf);
  }

  lemma TwoQuotes(s: Bytes, at: nat, buf: Bytes)
    requires at + 2 <= |s| && s[at + 0] == SQUOTE && s[at + 1] == SQUOTE
    ensures QuotedRest(s, at, buf) == QuotedRest(s, at + 2, buf + [SQUOTE, SQUOTE])
  {
    assert buf + [SQUOTE] + [SQUOTE] == buf + [SQUOTE, SQUOTE];
  }

  lemma ReadsPair(s: Bytes, at: nat, v: Bytes, i: nat, buf: Bytes)
    requires i < |v| && v[i] == BACKSLASH && DQUOTE !in v && at <= |s| && s[at..] == Raw(v, i)
    ensures i + 1 == |v| ==> QuotedRest(s, at, buf).text == buf + [DQUOTE]
    ensures i + 2 <= |v| && v[i + 1] != SQUOTE ==>
              at + 2 <= |s| && s[at + 2..] == Raw(v, i + 2) && QuotedRest(s, at, buf) == QuotedRest(s, at + 2, buf + [v[i + 1]])
    ensures i + 2 <= |v| && v[i + 1] == SQUOTE ==>
              at + 3 <= |s| && s[at + 3..] == Raw(v, i + 2) && QuotedRest(s, at, buf) == QuotedRest(s, at + 3, buf + [SQUOTE, SQUOTE])
  {
    hide Raw, Whitespace, Unfold;
    RawStep(v, i);
    SuffixStep(s, at, [BACKSLASH], Raw(v, i + 1));
    assert s[at + 0] == BACKSLASH;
    if i + 1 == |v| {
      RawEnd(v);
      assert s[at + 1] == s[at + 1..][0] && |s| == at + 2;
    } else {
      RawStep(v, i + 1);
      var h := if v[i + 1] == SQUOTE then [SQUOTE, SQUOTE] else [v[i + 1]];
      SuffixStep(s, at + 1, h, Raw(v, i + 2));
      assert s[at + 1 + 0] == h[0];
      if v[i + 1] == SQUOTE {
        assert s[at + 1 + 1] == SQUOTE;
        assert QuotedRest(s, at, buf) == QuotedRest(s, at + 2, buf + [SQUOTE]);
        assert buf + [SQUOTE] + [SQUOTE] == buf + [SQUOTE, SQUOTE];
      }
    }
  }

  // ------------------------------------------------------- what does not match

  predicate Plain(v: Bytes, a: nat, b: nat)
    requires a <= b <= |v|
  {
    forall k :: a <= k < b ==> v[k] == SQUOTE
  }

  /** More is written than read: only quotes can follow, and they never run out. */
  lemma {:induction false} AheadFails(v: Bytes, i: nat, buf: Bytes)
    requires i < |buf| && buf <= v && Plain(v, i, |buf|)
    ensures ReadBack(v, i, buf) != v
    decreases |v| - i
  {
    var next := buf + [SQUOTE, SQUOTE];
    if next <= v && i + 1 < |v| {
      forall k | i + 1 <= k < |next| ensures v[k] == SQUOTE {
        if k >= |buf| { assert next[k] == SQUOTE; }
      }
      AheadFails(v, i + 1, next);
    }
  }

  lemma NotPlain(v: Bytes, a: nat, b: nat, k: nat)
    requires a <= k < b <= |v| && v[k] != SQUOTE
    ensures !Plain(v, a, b)
  {
  }

  lemma UnfoldLength(w: Bytes)
    requires w != []
    ensures 1 <= |Unfold(w)| <= |w|
  {
  }

  /** Less is written than read, and what is between is not all quotes: that stays so. */
  lemma {:induction false} BehindFails(v: Bytes, i: nat, buf: Bytes)
    requires |buf| < i <= |v| && buf <= v && !Plain(v, |buf|, i) && DQUOTE !in v
    ensures ReadBack(v, i, buf) != v
    decreases |v| - i, 0
  {
    hide Plain, Unfold, SpanEnd;
    if i < |v| {
      if v[i] == SQUOTE {
        BehindQuotes(v, i, buf, i + 1);
      } else if v[i] == BACKSLASH {
        if i + 1 == |v| {
          assert (buf + [DQUOTE])[|buf|] == DQUOTE;
        } else if v[i + 1] == SQUOTE {
          BehindQuotes(v, i, buf, i + 2);
        } else {
          BehindOne(v, i, buf, i + 2, [v[i + 1]], i);
        }
      } else if IsSpace(v[i]) {
        var e := SpanEnd(v, i + 1, IsWhitespace);
        UnfoldLength(v[i..e]);
        assert e > i + 1 ==> IsWhitespace(v[e - 1]);
        BehindOne(v, i, buf, e, Unfold(v[i..e]), e - 1);
      } else {
        BehindOne(v, i, buf, i + 1, [v[i]], i);
      }
    }
  }

  /** No more written than read, and something else than a quote read last. */
  lemma BehindOne(v: Bytes, i: nat, buf: Bytes, e: nat, x: Bytes, k: nat)
    requires |buf| < i < e <= |v| && DQUOTE !in v && |x| <= e - i && i <= k < e && |buf| + |x| <= k && v[k] != SQUOTE
    ensures ReadBack(v, e, buf + x) != v
    decreases |v| - e, 1
  {
    hide Plain;
    if buf + x <= v {
      NotPlain(v, |buf + x|, e, k);
      BehindFails(v, e, buf + x);
    }
  }

  /** Two quotes written for one read. */
  lemma BehindQuotes(v: Bytes, i: nat, buf: Bytes, e: nat)
    requires |buf| < i < e <= |v| && buf <= v && !Plain(v, |buf|, i) && DQUOTE !in v
    ensures ReadBack(v, e, buf + [SQUOTE, SQUOTE]) != v
    decreases |v| - e, 1
  {
    var o, next := |buf|, buf + [SQUOTE, SQUOTE];
    var j :| o <= j < i && v[j] != SQUOTE;
    if next <= v {
      assert next[o] == SQUOTE && next[o + 1] == SQUOTE;
      BehindFails(v, e, next);
    }
  }

  /** From where reading agrees so far, it goes on to agree only if the rest is legal. */
  lemma {:induction false} LegalIfRead(v: Bytes, i: nat)
    requires i <= |v| && DQUOTE !in v && ReadBack(v, i, v[..i]) == v
    ensures forall k :: i <= k < |v| ==> IsQuotable(v[k])
    decreases |v| - i
  {
    if i < |v| {
      if v[i] == SQUOTE {
        var next := v[..i] + [SQUOTE, SQUOTE];
        assert next[i] == SQUOTE && next[i + 1] == SQUOTE;
        AheadFails(v, i + 1, next);
      } else if v[i] == BACKSLASH {
        BackslashFails(v, i);
      } else if IsSpace(v[i]) {
        var e := SpanEnd(v, i + 1, IsWhitespace);
        RunLegal(v, i, e);
        assert v[..i] + v[i..e] == v[..e];
        LegalIfRead(v, e);
      } else {
        Snoc(v, i);
        LegalIfRead(v, i + 1);
      }
    }
  }

  lemma BackslashFails(v: Bytes, i: nat)
    requires i < |v| && v[i] == BACKSLASH && DQUOTE !in v
    ensures ReadBack(v, i, v[..i]) != v
  {
    var buf := v[..i];
    if i + 1 == |v| {
      assert (buf + [DQUOTE])[i] == DQUOTE;
    } else {
      var next := buf + if v[i + 1] == SQUOTE then [SQUOTE, SQUOTE] else [v[i + 1]];
      if next <= v {
        assert next[i] == v[i];
        assert v[i + 1] == BACKSLASH;
        BehindFails(v, i + 2, next);
      }
    }
  }

  /** A run of white space that is read as it is has no line break in it. */
  lemma RunLegal(v: Bytes, i: nat, e: nat)
    requires i < e <= |v| && e == SpanEnd(v, i + 1, IsWhitespace) && IsSpace(v[i]) && DQUOTE !in v
    requires ReadBack(v, e, v[..i] + Unfold(v[i..e])) == v
    ensures !HasBreak(v[i..e]) && forall k :: i <= k < e ==> IsQuotable(v[k])
  {
    hide SpanEnd;
    var w, next := v[i..e], v[..i] + Unfold(v[i..e]);
    if HasBreak(w) {
      hide ReadBack;
      var k :| 0 <= k < |w| && IsBreak(w[k]);
      assert next[i] == SP == v[i];
      assert w[0] == v[i] && k > 0 && v[i + k] == w[k];
      NotPlain(v, |next|, e, i + k);
      BehindFails(v, e, next);
    } else {
      forall k | i <= k < e ensures IsQuotable(v[k]) { assert v[k] == w[k - i] && IsWhitespace(v[k]); }
    }
  }

  // --------------------------------------------------- values with a quote in

  /** The first quote of the value ends the string, after the `'` that is to escape it. */
  lemma {:induction false} FirstQuote(s: Bytes, at: nat, v: Bytes, i: nat) returns (e: nat)
    requires i <= |v| && at <= |s| && s[at..] == Raw(v, i) && exists k :: i <= k < |v| && v[k] == DQUOTE
    ensures at < e < |s| && s[e] == DQUOTE && s[e - 1] == SQUOTE && forall k :: at <= k < e ==> s[k] != DQUOTE
    decreases |v| - i
  {
    hide Raw;
    RawStep(v, i);
    var h := if v[i] == DQUOTE || v[i] == SQUOTE then [SQUOTE, v[i]] else [v[i]];
    SuffixStep(s, at, h, Raw(v, i + 1));
    assert s[at + 0] == h[0] && (|h| == 2 ==> s[at + 1] == h[1]);
    if v[i] == DQUOTE { e := at + 1; } else { e := FirstQuote(s, at + |h|, v, i + 1); }
  }

  lemma {:induction false} NoQuoteRead(s: Bytes, at: nat, e: nat, buf: Bytes)
    requires at <= e < |s| && s[e] == DQUOTE && (at < e ==> s[e - 1] != BACKSLASH)
    requires DQUOTE !in buf && forall k :: at <= k < e ==> s[k] != DQUOTE
    ensures DQUOTE !in QuotedRest(s, at, buf).text
    decreases e - at
  {
    hide Whitespace;
    if at < e {
      if s[at] == BACKSLASH {
        NoQuoteRead(s, at + 2, e, buf + [s[at + 1]]);
      } else if IsSpace(s[at]) {
        var w := Whitespace(s, at + 1).at;
        SpaceStops(s, at, e);
        NoQuoteRead(s, w, e, buf + Unfold(s[at..w]));
      } else {
        NoQuoteRead(s, at + 1, e, buf + [s[at]]);
      }
    }
  }

  lemma SpaceStops(s: Bytes, at: nat, e: nat)
    requires at < e < |s| && s[e] == DQUOTE && forall k :: at <= k < e ==> s[k] != DQUOTE
    ensures var w := Whitespace(s, at + 1).at; at < w <= e && DQUOTE !in Unfold(s[at..w])
  {
    SpanStops(s, at + 1, IsWhitespace, e);
    var w := Whitespace(s, at + 1).at;
    forall k | 0 <= k < |s[at..w]| ensures s[at..w][k] != DQUOTE { assert s[at..w][k] == s[at + k]; }
  }

  // ----------------------------------------------------------------- theorem

  lemma QuotedOpens(s: Bytes, at: nat, v: Bytes)
    requires at <= |s| && s[at..] == Quoting.Quoted(v, DQUOTE, SQUOTE)
    ensures at < |s| && s[at + 1..] == Raw(v, 0) && ValueAt(s, at) == Some(QuotedRest(s, at + 1, []))
  {
    hide QuotedRest, Comment, Quoting.Escaped;
    assert v[0..] == v;
    assert Quoting.Quoted(v, DQUOTE, SQUOTE) == [DQUOTE] + Raw(v, 0);
    SuffixStep(s, at, [DQUOTE], Raw(v, 0));
    assert s[at + 0] == DQUOTE;
    NoSpaceNoComment(s, at);
  }

  lemma OnlyLegal(s: Bytes, at: nat, v: Bytes)
    requires at <= |s| && s[at..] == Raw(v, 0) && QuotedRest(s, at, []).text == v
    ensures LegalValue(v)
  {
    hide Raw, QuotedRest, ReadBack;
    if DQUOTE in v {
      var e := FirstQuote(s, at, v, 0);
      NoQuoteRead(s, at, e, []);
    } else {
      ReadsRaw(s, at, v, 0, []);
      assert v[..0] == [];
      LegalIfRead(v, 0);
    }
  }

  /** A value at the end of the text is read as it was printed exactly if it has no quotes, backslashes or line breaks. */
  lemma ReadAsPrinted(s: Bytes, at: nat, v: Bytes)
    requires at <= |s| && s[at..] == ValueText(v)
    ensures ValueAt(s, at).Some? && (ValueAt(s, at).value.text == v <==> LegalValue(v))
  {
    hide ValueAt, Quoting.IsMIMEBoring, Quoting.Quoted, QuotedRest, LegalValue, Raw;
    assert HasAt(s, at, ValueText(v)) && ValueEnds(s, at + |ValueText(v)|) by { assert s[at..at + |ValueText(v)|] == s[at..]; }
    if Quoting.IsMIMEBoring(v) {
      BoringLegal(v);
      ReadsValue(s, at, v);
    } else {
      QuotedOpens(s, at, v);
      if LegalValue(v) { ReadsValue(s, at, v); }
      if QuotedRest(s, at + 1, []).text == v { OnlyLegal(s, at + 1, v); }
    }
  }

  lemma BoringLegal(v: Bytes)
    requires Quoting.IsMIMEBoring(v)
    ensures LegalValue(v)
  {
  }
}
