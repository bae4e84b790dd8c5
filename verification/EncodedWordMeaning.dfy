/**
  What encoded words read to: a whole word at the cursor gives what its charset
  makes of the decoded octets, and a run of words gives their texts one after
  the other.
 */
module EncodedWordMeaning {
  import opened Octets
  import opened Tokens
  import opened EncodedWords
  import Base64
  import QuotedPrintable

  /** The characters of a charset's name and of encoded text, in text, comments and phrases: section 5 of RFC 2047. */
  lemma WordChars(c: Byte)
    ensures IsCharsetChar(c) <==> 32 < c < 128 && !Among(c, "()<>@,;:[]?=\\\"/.")
    ensures IsBase64Char(c) <==> IsAlnum(c) || Among(c, "+/=")
    ensures IsQChar(c, InText) <==> 32 < c < 128 && c != '?' as int
    ensures IsQChar(c, InComment) <==> 32 < c < 128 && !Among(c, "?()\\")
    ensures IsQChar(c, InPhrase) <==> IsAlnum(c) || Among(c, "!*-/=_'.")
  {
    var v, w := "()<>@,;:[]?=\\\"/.", "!*-/=_'.";
    assert v[0] == '(' && v[1] == ')' && v[2] == '<' && v[3] == '>' && v[4] == '@' && v[5] == ',' && v[6] == ';' && v[7] == ':';
    assert v[8] == '[' && v[9] == ']' && v[10] == '?' && v[11] == '=' && v[12] == '\\' && v[13] == '\"' && v[14] == '/' && v[15] == '.';
    assert w[0] == '!' && w[1] == '*' && w[2] == '-' && w[3] == '/' && w[4] == '=' && w[5] == '_' && w[6] == '\'' && w[7] == '.';
    assert |v| == 16 && |w| == 8;
    var x, y := "+/=", "?()\\";
    assert x[0] == '+' && x[1] == '/' && x[2] == '=' && |x| == 3;
    assert y[0] == '?' && y[1] == '(' && y[2] == ')' && y[3] == '\\' && |y| == 4;
  }

  /** A word in print: a charset, perhaps a language, a letter for the encoding, and the encoded text. */
  datatype Printed = Printed(charset: Bytes, language: Bytes, letter: Byte, text: Bytes)

  predicate AllIn(s: Bytes, p: Byte -> bool) { forall k :: 0 <= k < |s| ==> p(s[k]) }

  predicate IsQ(letter: Byte) { letter == 'q' as int || letter == 'Q' as int }

  predicate IsB(letter: Byte) { letter == 'b' as int || letter == 'B' as int }

  predicate Legal(w: Printed, kind: Kind)
  {
    && AllIn(w.charset + w.language, IsCharsetChar) && STAR !in w.charset && (w.language == [] || w.language[0] == STAR)
    && (IsQ(w.letter) || IsB(w.letter))
    && forall k :: 0 <= k < |w.text| ==> if IsB(w.letter) then IsBase64Char(w.text[k]) else IsQChar(w.text[k], kind)
  }

  /** `=?charset*language?letter?text?=` */
  function Text(w: Printed): Bytes
  {
    OPEN + (w.charset + w.language) + MARK + [w.letter] + MARK + w.text + CLOSE
  }

  /** The octets the word stands for. */
  function OctetsOf(w: Printed): Bytes
  {
    if IsQ(w.letter) then QuotedPrintable.Decoded(w.text, false) else Base64.Decoded(w.text)
  }

  lemma RunOf(s: Bytes, at: nat, x: Bytes, p: Byte -> bool)
    requires HasAt(s, at, x) && AllIn(x, p) && at + |x| < |s| && !p(s[at + |x|])
    ensures Run(s, at, p) == Token(x, at + |x|)
  {
    forall k | at <= k < at + |x| ensures p(s[k]) { HasAtByte(s, at, x, k - at); }
    SpanIs(s, at, p, at + |x|);
  }

  lemma LetterMatches(s: Bytes, at: nat, letter: Byte)
    requires HasAt(s, at, [letter])
    ensures IsQ(letter) <==> Matches(s, at, Q)
    ensures IsB(letter) <==> Matches(s, at, B)
  {
    HasAtByte(s, at, [letter], 0);
    var w := s[at..at + 1];
    assert w == [letter] && Lower(w)[0] == LowerByte(letter);
    assert Lower(Q)[0] == 113 && Lower(B)[0] == 98;
    assert |Lower(Q)| == 1 && |Lower(B)| == 1 && |Lower(w)| == 1;
  }

  lemma MarkMatches(s: Bytes, at: nat)
    requires at < |s| && s[at] == QUESTION
    ensures Matches(s, at, MARK)
  {
    assert s[at..at + 1] == MARK;
  }

  /** Where the pieces of a printed word stand. */
  lemma PiecesStand(s: Bytes, at: nat, w: Printed)
    requires HasAt(s, at, Text(w))
    ensures var a := at + 2; var b := a + |w.charset + w.language|; var e := b + 3 + |w.text|;
            && e + 2 <= |s| && HasAt(s, at, OPEN) && HasAt(s, a, w.charset + w.language) && HasAt(s, b, MARK)
            && HasAt(s, b + 1, [w.letter]) && HasAt(s, b + 2, MARK) && HasAt(s, b + 3, w.text) && HasAt(s, e, CLOSE)
  {
    hide HasAt;
    var n := w.charset + w.language;
    HasAtBound(s, at, Text(w));
    HasAtSplit(s, at, OPEN + n + MARK + [w.letter] + MARK + w.text, CLOSE);
    HasAtSplit(s, at, OPEN + n + MARK + [w.letter] + MARK, w.text);
    HasAtSplit(s, at, OPEN + n + MARK + [w.letter], MARK);
    HasAtSplit(s, at, OPEN + n + MARK, [w.letter]);
    HasAtSplit(s, at, OPEN + n, MARK);
    HasAtSplit(s, at, OPEN, n);
  }

  lemma ReadsPieces(s: Bytes, at: nat, w: Printed, kind: Kind)
    requires HasAt(s, at, Text(w)) && Legal(w, kind)
    ensures Matches(s, at, OPEN)
    ensures var n := w.charset + w.language; var b := at + 2 + |n|;
            PiecesAt(s, at + 2, kind) == Pieces(n, b, IsB(w.letter), b + 2, w.text, b + 3 + |w.text|, true)
  {
    hide HasAt, Run, Matches, TextClass;
    var n := w.charset + w.language;
    var b := at + 2 + |n|;
    var e := b + 3 + |w.text|;
    PiecesStand(s, at, w);
    MatchesAt(s, at, OPEN);
    HasAtByte(s, b, MARK, 0);
    RunOf(s, at + 2, n, IsCharsetChar);
    MarkMatches(s, b);
    LetterMatches(s, b + 1, w.letter);
    HasAtByte(s, b + 2, MARK, 0);
    MarkMatches(s, b + 2);
    HasAtByte(s, e, CLOSE, 0);
    NotText(kind, IsB(w.letter));
    TextIs(w, kind);
    RunOf(s, b + 3, w.text, TextClass(kind, IsB(w.letter)));
    MatchesAt(s, e, CLOSE);
  }

  lemma TextIs(w: Printed, kind: Kind)
    requires Legal(w, kind)
    ensures AllIn(w.text, TextClass(kind, IsB(w.letter)))
  {
  }

  lemma NotText(kind: Kind, base64: bool)
    ensures !TextClass(kind, base64)(QUESTION)
  {
  }

  lemma {:induction false} LanguageDropped(charset: Bytes, language: Bytes)
    requires STAR !in charset && (language == [] || language[0] == STAR)
    ensures WithoutLanguage(charset + language) == charset
  {
    if charset == [] {
      assert charset + language == language;
    } else {
      assert (charset + language)[1..] == charset[1..] + language;
      LanguageDropped(charset[1..], language);
    }
  }

  /**
    A whole word at the cursor reads to what its charset makes of the octets,
    whatever the case of its letter, and the cursor ends right after it.
   */
  lemma WordReads(s: Bytes, at: nat, w: Printed, kind: Kind, charsets: Charsets)
    requires HasAt(s, at, Text(w)) && Legal(w, kind)
    ensures Word(s, at, kind, charsets) ==
            match charsets(w.charset, OctetsOf(w))
            case None => Nothing
            case Some(t) =>
              (match Finished(t) case None => Stops case Some(u) => Found(Token(u, at + |Text(w)|)))
  {
    hide HasAt, Matches, PiecesAt, BlankAhead, Finished, QuotedPrintable.Decoded, Base64.Decoded;
    ReadsPieces(s, at, w, kind);
    PiecesStand(s, at, w);
    var b := at + 2 + |w.charset + w.language|;
    MatchesAt(s, b, MARK);
    MatchesAt(s, b + 2, MARK);
    MatchesAt(s, b + 3 + |w.text|, CLOSE);
    LanguageDropped(w.charset, w.language);
  }

  /** Text without line breaks and backspaces is left as it is. */
  lemma FinishedPlain(t: Bytes)
    requires !HasBreak(t) && BACKSPACE !in t
    ensures Finished(t) == Some(t)
  {
  }

  // -------------------------------------------------------------------- runs

  /** A word with white space before it, and what it reads to. */
  datatype Spaced = Spaced(blank: Bytes, word: Printed, meaning: Bytes)

  function RunText(ws: seq<Spaced>): Bytes
  {
    if ws == [] then [] else ws[0].blank + Text(ws[0].word) + RunText(ws[1..])
  }

  function Meanings(ws: seq<Spaced>): Bytes
  {
    if ws == [] then [] else ws[0].meaning + Meanings(ws[1..])
  }

  predicate Reads(x: Spaced, kind: Kind, charsets: Charsets)
  {
    && AllIn(x.blank, IsWhitespace) && Legal(x.word, kind)
    && charsets(x.word.charset, OctetsOf(x.word)) == Some(x.meaning)
    && !HasBreak(x.meaning) && BACKSPACE !in x.meaning
  }

  lemma BlankPassed(s: Bytes, at: nat, blank: Bytes, w: Printed)
    requires HasAt(s, at, blank + Text(w)) && AllIn(blank, IsWhitespace)
    ensures Whitespace(s, at).at == at + |blank| && HasAt(s, at + |blank|, Text(w))
  {
    hide HasAt;
    HasAtSplit(s, at, blank, Text(w));
    HasAtBound(s, at + |blank|, Text(w));
    HasAtByte(s, at + |blank|, Text(w), 0);
    RunOf(s, at, blank, IsWhitespace);
  }

  /** A run of words reads to their meanings together, if no word follows. */
  lemma {:induction false} WordsRead(s: Bytes, at: nat, ws: seq<Spaced>, kind: Kind, charsets: Charsets, out: Bytes)
    requires HasAt(s, at, RunText(ws)) && forall k :: 0 <= k < |ws| ==> Reads(ws[k], kind, charsets)
    requires Word(s, Whitespace(s, at + |RunText(ws)|).at, kind, charsets) == Nothing
    ensures Words(s, at, kind, charsets, out) == Some(Token(out + Meanings(ws), at + |RunText(ws)|))
    decreases |ws|
  {
    hide HasAt, Word, Whitespace, Text, Legal, Finished, QuotedPrintable.Decoded, Base64.Decoded;
    if ws == [] {
      assert out + [] == out;
    } else {
      var x, rest := ws[0], RunText(ws[1..]);
      assert Reads(x, kind, charsets);
      HasAtSplit(s, at, x.blank + Text(x.word), rest);
      BlankPassed(s, at, x.blank, x.word);
      WordReads(s, at + |x.blank|, x.word, kind, charsets);
      FinishedPlain(x.meaning);
      var e := at + |x.blank| + |Text(x.word)|;
      WordsRead(s, e, ws[1..], kind, charsets, out + x.meaning);
      assert out + x.meaning + Meanings(ws[1..]) == out + (x.meaning + Meanings(ws[1..]));
    }
  }

  // ---------------------------------------------------------------- trimming

  predicate Sharp(t: Bytes) { t == [] || (!IsSpace(t[0]) && !IsSpace(t[|t| - 1])) }

  lemma {:induction false} TrimsEnd(t: Bytes, b: Bytes)
    requires Sharp(t) && t != [] && AllIn(b, IsSpace)
    ensures Trimmed(t + b) == t
    decreases |b|
  {
    var s := t + b;
    assert s[0] == t[0];
    if b == [] {
      assert s == t;
    } else {
      assert s[|s| - 1] == b[|b| - 1] && s[..|s| - 1] == t + b[..|b| - 1];
      TrimsEnd(t, b[..|b| - 1]);
    }
  }

  /** White space on both sides goes and nothing else. */
  lemma {:induction false} Trims(a: Bytes, t: Bytes, b: Bytes)
    requires Sharp(t) && AllIn(a, IsSpace) && AllIn(b, IsSpace)
    ensures Trimmed(a + t + b) == t
    decreases |a|, |b|
  {
    var s := a + t + b;
    if a != [] {
      assert s[0] == a[0] && s[1..] == a[1..] + t + b;
      Trims(a[1..], t, b);
    } else if t != [] {
      assert s == t + b;
      TrimsEnd(t, b);
    } else if b != [] {
      assert s == b && s[0] == b[0] && s[1..] == [] + t + b[1..];
      Trims([], t, b[1..]);
    }
  }
}
