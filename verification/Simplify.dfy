/**
  Collapsing white space.  A text of white space only makes the program slice
  out of range, which is the outcome `None`.
 */
module Simplify {
  import opened Octets

  predicate AllSpace(s: Bytes) { forall k :: 0 <= k < |s| ==> IsSpace(s[k]) }

  /** Whether the text may be returned as it is, and its last character that is not white space. */
  datatype Scan = Scan(identity: bool, last: nat)

  function ScanFrom(s: Bytes, i: nat, last: nat, spaces: nat): (r: Scan)
    requires last < i <= |s|
    ensures last <= r.last < |s|
    decreases |s| - i
  {
    if i == |s| then Scan(true, last)
    else if IsSpace(s[i]) then ScanFrom(s, i + 1, last, spaces + 1)
    else if spaces > 1 then Scan(false, i)
    else ScanFrom(s, i + 1, i, 0)
  }

  /** A byte taken for a character number, in UTF-8. */
  function Encoded(c: Byte): Bytes { if c < 128 then [c] else [192 + c / 64, 128 + c % 64] }

  /** One space for each run of white space between two words. */
  function Rebuilt(s: Bytes, i: nat, spaces: nat, out: Bytes): Bytes
    requires i <= |s|
    decreases |s| - i
  {
    if i == |s| then out
    else if IsSpace(s[i]) then Rebuilt(s, i + 1, spaces + 1, out)
    else Rebuilt(s, i + 1, 0, out + (if spaces > 0 && out != [] then [SP] else []) + Encoded(s[i]))
  }

  function Simplified(s: Bytes): Option<Bytes>
  {
    var first := SpanEnd(s, 0, IsSpace);
    if s == [] then Some([])
    else if first == |s| then None
    else
      var scan := ScanFrom(s, first + 1, first, 0);
      if scan.identity then Some(s[first..scan.last + 1]) else Some(Rebuilt(s, 0, 0, []))
  }

  /** The method's result is `None` where the program stops. */
  method Simplify(s: Bytes) returns (r: Option<Bytes>)
    ensures r == Simplified(s)
  {
    if s == [] { return Some([]); }
    var first := SkipClass(s, 0, IsSpace);
    if first == |s| { return None; }
    var i, last, spaces, identity := first + 1, first, 0, true;
    ghost var scan := ScanFrom(s, i, last, spaces);
    while identity && i < |s|
      invariant first < i <= |s| && first <= last < i
      invariant scan == if identity then ScanFrom(s, i, last, spaces) else Scan(false, last)
    {
      if IsSpace(s[i]) {
        spaces := spaces + 1;
      } else {
        if spaces > 1 { identity := false; }
        spaces := 0;
        last := i;
      }
      i := i + 1;
    }
    if identity { return Some(s[first..last + 1]); }
    var out := Rebuild(s);
    return Some(out);
  }

  method Rebuild(s: Bytes) returns (out: Bytes)
    ensures out == Rebuilt(s, 0, 0, [])
  {
    out := [];
    var i, spaces := 0, 0;
    while i < |s|
      invariant 0 <= i <= |s| && Rebuilt(s, 0, 0, []) == Rebuilt(s, i, spaces, out)
    {
      if IsSpace(s[i]) {
        spaces := spaces + 1;
      } else {
        var gap: Bytes := if spaces > 0 && out != [] then [SP] else [];
        spaces := 0;
        out := out + gap + Encoded(s[i]);
      }
      i := i + 1;
    }
  }

  /** The program stops exactly on a text that is white space and not empty. */
  lemma StopsOnBlank(s: Bytes)
    ensures Simplified(s) == None <==> s != [] && AllSpace(s)
  {
    if s != [] && AllSpace(s) { SpanIs(s, 0, IsSpace, |s|); }
  }

  // ---------------------------------------------------------- the two results

  predicate Ascii(s: Bytes) { forall k :: 0 <= k < |s| ==> s[k] < 128 }

  /** Leading white space leaves nothing. */
  lemma {:induction false} RebuiltBlank(s: Bytes, i: nat, first: nat, spaces: nat) returns (n: nat)
    requires i <= first < |s| && forall k :: i <= k < first ==> IsSpace(s[k])
    ensures Rebuilt(s, i, spaces, []) == Rebuilt(s, first, n, [])
    decreases first - i
  {
    n := spaces;
    if i < first { n := RebuiltBlank(s, i + 1, first, spaces + 1); }
  }

  /** While at most one space stands between words, rebuilding copies, if all white space is spaces. */
  lemma {:induction false} RebuiltCopies(s: Bytes, first: nat, i: nat, last: nat)
    requires first <= last < i <= |s| && Ascii(s) && i - last - 1 <= 1
    requires forall k :: first <= k < |s| && IsSpace(s[k]) ==> s[k] == SP
    requires forall k :: last < k < i ==> IsSpace(s[k])
    requires ScanFrom(s, i, last, i - last - 1).identity
    ensures Rebuilt(s, i, i - last - 1, s[first..last + 1]) == s[first..ScanFrom(s, i, last, i - last - 1).last + 1]
    decreases |s| - i
  {
    if i < |s| {
      if IsSpace(s[i]) {
        if i - last > 1 { TrailingBlank(s, i, last, i - last - 1, s[first..last + 1]); }
        else { RebuiltCopies(s, first, i + 1, last); }
      } else {
        assert s[first..i + 1] == s[first..last + 1] + (if i - last - 1 > 0 then [SP] else []) + [s[i]];
        RebuiltCopies(s, first, i + 1, i);
      }
    }
  }

  /** After two blanks only white space may follow if the text is to be left alone. */
  lemma {:induction false} TrailingBlank(s: Bytes, i: nat, last: nat, spaces: nat, out: Bytes)
    requires last < i <= |s| && ScanFrom(s, i, last, spaces).identity
    requires spaces > 1 || (spaces == 1 && i < |s| && IsSpace(s[i]))
    ensures ScanFrom(s, i, last, spaces).last == last && Rebuilt(s, i, spaces, out) == out
    decreases |s| - i
  {
    if i < |s| { TrailingBlank(s, i + 1, last, spaces + 1, out); }
  }

  /**
    On ASCII text whose white space between words is spaces, leaving the text
    alone is rebuilding it.  (A single tab or line break between two words is kept.)
   */
  lemma SameEitherWay(s: Bytes)
    requires Ascii(s) && !AllSpace(s)
    requires var first := SpanEnd(s, 0, IsSpace); forall k :: first <= k < |s| && IsSpace(s[k]) ==> s[k] == SP
    ensures Simplified(s) == Some(Rebuilt(s, 0, 0, []))
  {
    hide Rebuilt, SpanEnd, ScanFrom, Encoded;
    var first := SpanEnd(s, 0, IsSpace);
    assert first < |s|;
    var n := RebuiltBlank(s, 0, first, 0);
    RebuiltFirst(s, first, n);
    if ScanFrom(s, first + 1, first, 0).identity { RebuiltCopies(s, first, first + 1, first); }
  }

  lemma RebuiltFirst(s: Bytes, first: nat, n: nat)
    requires first < |s| && s[first] < 128 && !IsSpace(s[first])
    ensures Rebuilt(s, first, n, []) == Rebuilt(s, first + 1, 0, s[first..first + 1])
  {
    assert [] + [] + Encoded(s[first]) == s[first..first + 1];
  }

  // ------------------------------------------------------- words and blanks

  /** A word and the white space before it. */
  datatype Spaced = Spaced(gap: Bytes, word: Bytes)

  predicate IsWord(w: Bytes) { w != [] && forall k :: 0 <= k < |w| ==> !IsSpace(w[k]) }

  predicate Legal(ws: seq<Spaced>)
  {
    forall k :: 0 <= k < |ws| ==> ws[k].gap != [] && AllSpace(ws[k].gap) && IsWord(ws[k].word)
  }

  function Laid(ws: seq<Spaced>): Bytes
  {
    if ws == [] then [] else ws[0].gap + (ws[0].word + Laid(ws[1..]))
  }

  /** Every byte of a word taken for a character. */
  function EncodedWord(w: Bytes): Bytes { if w == [] then [] else Encoded(w[0]) + EncodedWord(w[1..]) }

  /** Bytes below 128 stay; the others become the two bytes of UTF-8 for the character with that number. */
  lemma EncodedMeans(c: Byte)
    ensures var e := Encoded(c);
            if c < 128 then e == [c]
            else |e| == 2 && 192 <= e[0] < 224 && 128 <= e[1] < 192 && (e[0] - 192) * 64 + (e[1] - 128) == c
  {
  }

  /** One space before each word. */
  function Closed(ws: seq<Spaced>): Bytes
  {
    if ws == [] then [] else [SP] + EncodedWord(ws[0].word) + Closed(ws[1..])
  }

  predicate Single(ws: seq<Spaced>) { forall k :: 0 <= k < |ws| ==> |ws[k].gap| == 1 }

  lemma {:induction false} RebuiltGap(s: Bytes, i: nat, g: Bytes, spaces: nat, out: Bytes)
    requires HasAt(s, i, g) && AllSpace(g)
    ensures i + |g| <= |s| && Rebuilt(s, i, spaces, out) == Rebuilt(s, i + |g|, spaces + |g|, out)
    decreases |g|
  {
    if g != [] {
      HasAtByte(s, i, g, 0);
      assert g == [g[0]] + g[1..];
      HasAtSplit(s, i, [g[0]], g[1..]);
      RebuiltGap(s, i + 1, g[1..], spaces + 1, out);
    }
  }

  lemma {:induction false} RebuiltWord(s: Bytes, i: nat, w: Bytes, spaces: nat, out: Bytes)
    requires HasAt(s, i, w) && IsWord(w)
    ensures i + |w| <= |s|
    ensures Rebuilt(s, i, spaces, out) == Rebuilt(s, i + |w|, 0, out + (if spaces > 0 && out != [] then [SP] else []) + EncodedWord(w))
    decreases |w|
  {
    hide HasAt, Encoded;
    HasAtBound(s, i, w);
    HasAtByte(s, i, w, 0);
    var t, gap := w[1..], if spaces > 0 && out != [] then [SP] else [];
    assert w == [w[0]] + t;
    HasAtSplit(s, i, [w[0]], t);
    var next := out + gap + Encoded(w[0]);
    if t == [] {
      assert EncodedWord(t) == [] && EncodedWord(w) == Encoded(w[0]) + [];
      assert next == out + gap + EncodedWord(w);
    } else {
      RebuiltWord(s, i + 1, t, 0, next);
      assert next + [] + EncodedWord(t) == out + gap + (Encoded(w[0]) + EncodedWord(t));
    }
  }

  lemma {:induction false} RebuiltWords(s: Bytes, i: nat, ws: seq<Spaced>, trail: Bytes, out: Bytes)
    requires HasAt(s, i, Laid(ws) + trail) && i + |Laid(ws) + trail| == |s| && Legal(ws) && AllSpace(trail) && out != []
    ensures Rebuilt(s, i, 0, out) == out + Closed(ws)
    decreases |ws|
  {
    hide HasAt, Rebuilt, EncodedWord, Legal, AllSpace, IsWord, Laid;
    LaidStep(ws, trail);
    if ws == [] {
      RebuiltGap(s, i, trail, 0, out);
      RebuiltEnd(s, |trail|, out);
      assert out + [] == out;
    } else {
      var x, rest := ws[0], Laid(ws[1..]) + trail;
      LegalFirst(ws);
      HasAtSplit(s, i, x.gap, x.word + rest);
      HasAtSplit(s, i + |x.gap|, x.word, rest);
      RebuiltGap(s, i, x.gap, 0, out);
      RebuiltWord(s, i + |x.gap|, x.word, |x.gap|, out);
      var more := out + [SP] + EncodedWord(x.word);
      RebuiltWords(s, i + |x.gap| + |x.word|, ws[1..], trail, more);
      assert more + Closed(ws[1..]) == out + ([SP] + EncodedWord(x.word) + Closed(ws[1..]));
    }
  }

  lemma RebuiltEnd(s: Bytes, spaces: nat, out: Bytes)
    ensures Rebuilt(s, |s|, spaces, out) == out
  {
  }

  lemma {:induction false} ScanGap(s: Bytes, i: nat, g: Bytes, last: nat, spaces: nat)
    requires HasAt(s, i, g) && AllSpace(g) && last < i
    ensures i + |g| <= |s| && ScanFrom(s, i, last, spaces) == ScanFrom(s, i + |g|, last, spaces + |g|)
    decreases |g|
  {
    if g != [] {
      HasAtByte(s, i, g, 0);
      assert g == [g[0]] + g[1..];
      HasAtSplit(s, i, [g[0]], g[1..]);
      ScanGap(s, i + 1, g[1..], last, spaces + 1);
    }
  }

  lemma {:induction false} ScanWord(s: Bytes, i: nat, w: Bytes, last: nat, spaces: nat)
    requires HasAt(s, i, w) && IsWord(w) && last < i
    ensures i + |w| <= |s|
    ensures ScanFrom(s, i, last, spaces) == if spaces > 1 then Scan(false, i) else ScanFrom(s, i + |w|, i + |w| - 1, 0)
    decreases |w|
  {
    HasAtByte(s, i, w, 0);
    var t := w[1..];
    assert w == [w[0]] + t;
    HasAtSplit(s, i, [w[0]], t);
    if t != [] && spaces <= 1 { ScanWord(s, i + 1, t, i, 0); }
  }

  lemma {:induction false} ScanWords(s: Bytes, i: nat, ws: seq<Spaced>, trail: Bytes)
    requires 0 < i && HasAt(s, i, Laid(ws) + trail) && i + |Laid(ws) + trail| == |s| && Legal(ws) && AllSpace(trail)
    ensures var x := ScanFrom(s, i, i - 1, 0); if Single(ws) then x == Scan(true, i + |Laid(ws)| - 1) else !x.identity
    decreases |ws|
  {
    hide HasAt, ScanFrom, Legal, Single, AllSpace, IsWord, Laid;
    LaidStep(ws, trail);
    if ws == [] {
      SingleMore(ws);
      ScanGap(s, i, trail, i - 1, 0);
      ScanEnd(s, i - 1, |trail|);
    } else {
      var x, rest := ws[0], Laid(ws[1..]) + trail;
      SingleMore(ws);
      LegalFirst(ws);
      HasAtSplit(s, i, x.gap, x.word + rest);
      HasAtSplit(s, i + |x.gap|, x.word, rest);
      ScanGap(s, i, x.gap, i - 1, 0);
      ScanWord(s, i + |x.gap|, x.word, i - 1, |x.gap|);
      if |x.gap| == 1 { ScanWords(s, i + 1 + |x.word|, ws[1..], trail); }
    }
  }

  lemma LaidStep(ws: seq<Spaced>, trail: Bytes)
    ensures ws == [] ==> Laid(ws) == [] && Laid(ws) + trail == trail
    ensures ws != [] ==> |Laid(ws)| == |ws[0].gap| + |ws[0].word| + |Laid(ws[1..])|
    ensures ws != [] ==> Laid(ws) + trail == ws[0].gap + (ws[0].word + (Laid(ws[1..]) + trail))
  {
    if ws == [] {
      assert Laid(ws) + trail == trail;
    } else {
      var g, w, r := ws[0].gap, ws[0].word, Laid(ws[1..]);
      assert Laid(ws) == g + (w + r);
      assert g + (w + r) + trail == g + (w + (r + trail));
    }
  }

  lemma LegalFirst(ws: seq<Spaced>)
    requires Legal(ws) && ws != []
    ensures ws[0].gap != [] && AllSpace(ws[0].gap) && IsWord(ws[0].word) && Legal(ws[1..])
  {
  }

  lemma SingleMore(ws: seq<Spaced>)
    ensures ws == [] ==> Single(ws)
    ensures ws != [] ==> (Single(ws) <==> |ws[0].gap| == 1 && Single(ws[1..]))
  {
    assert forall k :: 0 < k < |ws| ==> ws[k] == ws[1..][k - 1];
  }

  lemma ScanEnd(s: Bytes, last: nat, spaces: nat)
    requires last < |s|
    ensures ScanFrom(s, |s|, last, spaces) == Scan(true, last)
  {
  }

  /**
    White space around the words goes.  If single white space characters stand
    between the words the text is left as it is, or else one space stands
    between any two of them, and every byte is taken for a character.
   */
  lemma Collapses(lead: Bytes, first: Bytes, ws: seq<Spaced>, trail: Bytes)
    requires AllSpace(lead) && IsWord(first) && Legal(ws) && AllSpace(trail)
    ensures Simplified(lead + (first + (Laid(ws) + trail))) ==
            Some(if Single(ws) then first + Laid(ws) else EncodedWord(first) + Closed(ws))
  {
    hide HasAt, ScanFrom, Rebuilt, EncodedWord, Laid, Closed, Simplified, Legal, Single, IsWord, SpanEnd;
    var rest := Laid(ws) + trail;
    var s, i := lead + (first + rest), |lead|;
    Stands(s);
    HasAtSplit(s, 0, lead, first + rest);
    HasAtSplit(s, i, first, rest);
    WordStarts(s, lead, first);
    ScanFirst(s, i, first);
    ScanWords(s, i + |first|, ws, trail);
    SimplifiedIs(s, i);
    RebuiltAll(s, lead, first, ws, trail);
    assert s[i..i + |first| + |Laid(ws)|] == first + Laid(ws);
  }

  lemma WordStarts(s: Bytes, lead: Bytes, first: Bytes)
    requires HasAt(s, 0, lead) && HasAt(s, |lead|, first) && AllSpace(lead) && IsWord(first)
    ensures |lead| < |s| && SpanEnd(s, 0, IsSpace) == |lead| && first != []
  {
    HasAtByte(s, |lead|, first, 0);
    forall k | 0 <= k < |lead| ensures IsSpace(s[k]) { HasAtByte(s, 0, lead, k); }
    SpanIs(s, 0, IsSpace, |lead|);
  }

  lemma SimplifiedIs(s: Bytes, first: nat)
    requires first < |s| && SpanEnd(s, 0, IsSpace) == first
    ensures var scan := ScanFrom(s, first + 1, first, 0);
            Simplified(s) == Some(if scan.identity then s[first..scan.last + 1] else Rebuilt(s, 0, 0, []))
  {
    hide ScanFrom, Rebuilt;
  }

  lemma RebuiltAll(s: Bytes, lead: Bytes, first: Bytes, ws: seq<Spaced>, trail: Bytes)
    requires HasAt(s, 0, lead) && HasAt(s, |lead|, first) && HasAt(s, |lead| + |first|, Laid(ws) + trail)
    requires |s| == |lead| + |first| + |Laid(ws) + trail| && AllSpace(lead) && IsWord(first) && Legal(ws) && AllSpace(trail)
    ensures Rebuilt(s, 0, 0, []) == EncodedWord(first) + Closed(ws)
  {
    hide HasAt, Rebuilt, EncodedWord, Laid, Closed, Legal, AllSpace;
    RebuiltGap(s, 0, lead, 0, []);
    RebuiltWord(s, |lead|, first, |lead|, []);
    var out := [] + [] + EncodedWord(first);
    EncodedSome(first);
    assert out == EncodedWord(first);
    RebuiltWords(s, |lead| + |first|, ws, trail, out);
  }

  lemma Stands(s: Bytes)
    ensures HasAt(s, 0, s)
  {
    assert s[0..|s|] == s;
  }

  lemma ScanFirst(s: Bytes, i: nat, w: Bytes)
    requires HasAt(s, i, w) && IsWord(w)
    ensures i + |w| <= |s| && ScanFrom(s, i + 1, i, 0) == ScanFrom(s, i + |w|, i + |w| - 1, 0)
  {
    var t := w[1..];
    assert w == [w[0]] + t;
    HasAtSplit(s, i, [w[0]], t);
    if t != [] { ScanWord(s, i + 1, t, i, 0); }
  }

  lemma EncodedSome(w: Bytes)
    requires w != []
    ensures EncodedWord(w) != []
  {
  }
}
