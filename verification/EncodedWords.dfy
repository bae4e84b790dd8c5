/**
  Encoded words (section 2 of RFC 2047): `=?charset?encoding?text?=`.  Turning
  the decoded octets into text is left to a partial function of the charset's
  name and the octets.  Reading a word can stop the program: a failing `require`
  quotes the text that follows, and `simplify` slices out of range if that is
  white space.
 */
module EncodedWords {
  import opened Octets
  import opened Tokens
  import opened Simplify
  import Base64
  import QuotedPrintable

  datatype Kind = InText | InComment | InPhrase

  type Charsets = (Bytes, Bytes) -> Option<Bytes>

  /** The text at the cursor matches `w`, ignoring the case of letters. */
  predicate Matches(s: Bytes, at: nat, w: Bytes)
  {
    w == [] || (at + |w| <= |s| && Lower(s[at..at + |w|]) == Lower(w))
  }

  lemma MatchesByte(s: Bytes, at: nat, c: Byte)
    requires c != NUL && !IsUpper(c) && !IsLower(c)
    ensures Matches(s, at, [c]) <==> NextChar(s, at) == c
  {
    if at < |s| {
      assert s[at..at + 1] == [s[at]];
      assert Lower([s[at]])[0] == LowerByte(s[at]) && Lower([c])[0] == c;
      assert |Lower([s[at]])| == 1 && |Lower([c])| == 1;
    }
  }

  const OPEN: Bytes := [EQUALS, QUESTION]
  const MARK: Bytes := [QUESTION]
  const CLOSE: Bytes := [QUESTION, EQUALS]
  const Q: Bytes := [113]
  const B: Bytes := [98]

  lemma NotBoth(s: Bytes, at: nat)
    ensures !(Matches(s, at, Q) && Matches(s, at, B))
  {
    assert Lower(Q)[0] == 113 && Lower(B)[0] == 98;
  }

  predicate IsCharsetChar(c: Byte) { IsTokenChar(c) && c != DOT }

  predicate IsBase64Char(c: Byte) { IsAlnum(c) || c == 43 || c == 47 || c == EQUALS }

  predicate IsQChar(c: Byte, kind: Kind)
  {
    && 32 < c < 128 && c != QUESTION
    && (kind == InComment ==> c != LPAREN && c != RPAREN && c != BACKSLASH)
    && (kind == InPhrase ==>
          || IsAlnum(c) || c == 33 || c == STAR || c == DASH || c == 47
          || c == EQUALS || c == UNDERSCORE || c == SQUOTE || c == DOT)
  }

  predicate IsQInText(c: Byte) { IsQChar(c, InText) }

  predicate IsQInComment(c: Byte) { IsQChar(c, InComment) }

  predicate IsQInPhrase(c: Byte) { IsQChar(c, InPhrase) }

  /** The characters allowed as encoded text. */
  function TextClass(kind: Kind, base64: bool): (p: Byte -> bool)
    ensures !p(NUL)
  {
    if base64 then IsBase64Char
    else match kind
      case InText => IsQInText
      case InComment => IsQInComment
      case InPhrase => IsQInPhrase
  }

  /** The charset's name, without the language after a `*`. */
  function WithoutLanguage(cs: Bytes): Bytes
  {
    if cs == [] || cs[0] == STAR then [] else [cs[0]] + WithoutLanguage(cs[1..])
  }

  function DecodedText(text: Bytes, base64: bool): Bytes
  {
    if base64 then Base64.Decoded(text) else QuotedPrintable.Decoded(text, false)
  }

  // ----------------------------------------------------------------- require

  const QUOTE_LENGTH: nat := 15

  /** The text quoted in an error message. */
  function Following(s: Bytes, at: nat): Bytes
  {
    if at >= |s| then []
    else if |s| - at > QUOTE_LENGTH then s[at..at + QUOTE_LENGTH]
    else s[at..]
  }

  /** White space at the cursor, up to the end or for as much as is quoted. */
  predicate BlankAhead(s: Bytes, at: nat)
  {
    at < |s| && forall k :: at <= k < |s| && k < at + 15 ==> IsSpace(s[k])
  }

  /** Quoting the text that follows stops the program exactly before such white space. */
  lemma QuotingStops(s: Bytes, at: nat)
    ensures Simplified(Following(s, at)) == None <==> BlankAhead(s, at)
  {
    hide Simplified;
    var f := Following(s, at);
    StopsOnBlank(f);
    if at < |s| {
      assert forall k :: 0 <= k < |f| ==> f[k] == s[at + k];
      assert forall k :: at <= k < |s| && k < at + 15 ==> s[k] == f[k - at];
    }
  }

  /** `require` does not find `w`, and stops. */
  predicate Stopping(s: Bytes, at: nat, w: Bytes) { !Matches(s, at, w) && BlankAhead(s, at) }

  /** A dot is required after a comment, where no white space is left. */
  lemma DotNeverStops(s: Bytes, at: nat)
    ensures !Stopping(s, Comment(s, at).at, [DOT])
  {
    hide Comment;
    PastComment(s, at);
  }

  // ------------------------------------------------------------ decoded text

  const BACKSPACE: Byte := 8

  function IndexOf(r: Bytes, c: Byte): (i: nat)
    ensures i <= |r| && (i < |r| ==> r[i] == c) && forall k :: 0 <= k < i ==> r[k] != c
  {
    if r == [] || r[0] == c then 0 else 1 + IndexOf(r[1..], c)
  }

  /**
    Backspaces and what they erase removed.  An index found in the rest of the
    text from `i` on is then used as one into the whole text, so the next search
    may start out of range.
   */
  function Erased(r: Bytes, i: nat): Option<Bytes>
    decreases |r|
  {
    if i > |r| then None
    else
      var k := IndexOf(r[i..], BACKSPACE);
      if k == |r| - i then Some(r)
      else Erased((if k > 1 then r[..k - 1] else []) + r[k + 1..], k)
  }

  function Tidied(text: Bytes): Option<Bytes> { if HasBreak(text) then Simplified(text) else Some(text) }

  function Finished(text: Bytes): Option<Bytes>
  {
    match Tidied(text)
    case None => None
    case Some(t) => if BACKSPACE in t then Erased(t, 0) else Some(t)
  }

  /** Erasing what a backspace follows runs out of the tidied text. */
  predicate Overerased(text: Bytes) { Tidied(text).Some? && Erased(Tidied(text).value, 0) == None }

  /** A text cannot be finished exactly if it is white space with a line break, or erasing runs out of it. */
  lemma FinishingStops(text: Bytes)
    ensures Finished(text) == None <==> (HasBreak(text) && AllSpace(text)) || Overerased(text)
  {
    hide Simplified;
    StopsOnBlank(text);
    match Tidied(text)
    case None =>
    case Some(t) =>
      assert t[0..] == t;
      if BACKSPACE !in t { assert IndexOf(t, BACKSPACE) == |t|; }
  }

  /**
    With one backspace that happens exactly if it is the last character and not
    the only one; otherwise it goes with the character before it.
   */
  lemma TrailingBackspace(r: Bytes, k: nat)
    requires k < |r| && r[k] == BACKSPACE && forall i :: 0 <= i < |r| && i != k ==> r[i] != BACKSPACE
    ensures Erased(r, 0) == if 0 < k == |r| - 1 then None else Some(r[..if k > 0 then k - 1 else 0] + r[k + 1..])
  {
    hide IndexOf;
    assert r[0..] == r;
    IndexIs(r, BACKSPACE, k);
    var s := (if k > 1 then r[..k - 1] else []) + r[k + 1..];
    assert s == r[..if k > 0 then k - 1 else 0] + r[k + 1..];
    assert forall i :: 0 <= i < |s| ==> s[i] != BACKSPACE;
    if k <= |s| { IndexIs(s[k..], BACKSPACE, |s| - k); }
  }

  lemma IndexIs(r: Bytes, c: Byte, k: nat)
    requires k <= |r| && (k < |r| ==> r[k] == c) && forall i :: 0 <= i < k ==> r[i] != c
    ensures IndexOf(r, c) == k
  {
  }

  // ------------------------------------------------------------------- words

  /**
    The pieces of a word after its `=?`, as far as they are there: a failing
    `require` does not move the cursor, and reading goes on.
   */
  datatype Pieces = Pieces(charset: Bytes, first: nat, base64: bool, second: nat, text: Bytes, end: nat, complete: bool)

  function PiecesAt(s: Bytes, at: nat, kind: Kind): (p: Pieces)
    ensures p.complete ==> at + 3 <= p.end && p.end + 2 <= |s|
  {
    var cs := Run(s, at, IsCharsetChar);
    var mark := Matches(s, cs.at, MARK);
    var a := cs.at + if mark then 1 else 0;
    var base64 := Matches(s, a, B);
    var letter := Matches(s, a, Q) || base64;
    var b := a + if letter then 1 else 0;
    var mark' := Matches(s, b, MARK);
    var w := Run(s, b + if mark' then 1 else 0, TextClass(kind, base64));
    Pieces(cs.text, cs.at, base64, b, w.text, w.at, mark && letter && mark' && Matches(s, w.at, CLOSE))
  }

  /** No word, the program stops, or a word. */
  datatype Reading = Nothing | Stops | Found(word: Token)

  /** What a complete word means, if its charset is known. */
  function Meaning(p: Pieces, charsets: Charsets): Option<Bytes>
  {
    charsets(WithoutLanguage(p.charset), DecodedText(p.text, p.base64))
  }

  /** The word at the cursor, if there is one and its charset is known. */
  function Word(s: Bytes, at: nat, kind: Kind, charsets: Charsets): (r: Reading)
    ensures r.Found? ==> at + 5 < r.word.at <= |s|
  {
    if !Matches(s, at, OPEN) then if BlankAhead(s, at) then Stops else Nothing
    else
      var p := PiecesAt(s, at + 2, kind);
      if Stopping(s, p.first, MARK) || Stopping(s, p.second, MARK) || Stopping(s, p.end, CLOSE) then Stops
      else if !p.complete then Nothing
      else
        match Meaning(p, charsets)
        case None => Nothing
        case Some(text) =>
          match Finished(text)
          case None => Stops
          case Some(t) => Found(Token(t, p.end + 2))
  }

  /** A run of words with white space between them; the cursor ends right after the last word. */
  function Words(s: Bytes, at: nat, kind: Kind, charsets: Charsets, out: Bytes): (r: Option<Token>)
    ensures r.Some? ==> r.value.at >= at
    decreases |s| - at
  {
    match Word(s, Whitespace(s, at).at, kind, charsets)
    case Nothing => Some(Token(out, at))
    case Stops => None
    case Found(w) => Words(s, w.at, kind, charsets, out + w.text)
  }

  lemma WordEnds(s: Bytes, at: nat, kind: Kind, charsets: Charsets)
    ensures var r := Word(s, at, kind, charsets);
            r.Found? ==> s[r.word.at - 2] == QUESTION && s[r.word.at - 1] == EQUALS
  {
    hide BlankAhead, Finished, Meaning, Run;
    var r := Word(s, at, kind, charsets);
    if r.Found? { ClosedBy(s, r.word.at - 2); }
  }

  lemma ClosedBy(s: Bytes, e: nat)
    requires Matches(s, e, CLOSE)
    ensures s[e] == QUESTION && s[e + 1] == EQUALS
  {
    var w := s[e..e + 2];
    assert Lower(w)[0] == LowerByte(w[0]) == Lower(CLOSE)[0];
    assert Lower(w)[1] == LowerByte(w[1]) == Lower(CLOSE)[1];
  }

  /**
    A run of encoded words that does not stop ends where it began, or right
    after the last word's closing `?=`, without the white space after it; no
    further word follows.
   */
  lemma {:induction false} WordsEnd(s: Bytes, at: nat, kind: Kind, charsets: Charsets, out: Bytes)
    ensures var r := Words(s, at, kind, charsets, out);
            r.Some? ==>
              var e := r.value.at;
              && (e == at || (2 <= e <= |s| && s[e - 2] == QUESTION && s[e - 1] == EQUALS))
              && Word(s, Whitespace(s, e).at, kind, charsets) == Nothing
    decreases |s| - at
  {
    hide Word, Whitespace;
    var r := Word(s, Whitespace(s, at).at, kind, charsets);
    if r.Found? {
      WordEnds(s, Whitespace(s, at).at, kind, charsets);
      WordsEnd(s, r.word.at, kind, charsets, out + r.word.text);
    }
  }

  // ------------------------------------------------- when the program stops

  /** Where white space stands, reading a word does not move on. */
  lemma BlankHolds(s: Bytes, at: nat)
    requires at < |s| && IsSpace(s[at])
    ensures !Matches(s, at, MARK) && !Matches(s, at, CLOSE) && !Matches(s, at, OPEN)
    ensures !Matches(s, at, Q) && !Matches(s, at, B)
    ensures Run(s, at, IsCharsetChar).at == at && forall kind: Kind, b :: Run(s, at, TextClass(kind, b)).at == at
  {
    forall w: Bytes | w == MARK || w == CLOSE || w == OPEN || w == Q || w == B ensures !Matches(s, at, w) {
      if at + |w| <= |s| {
        assert Lower(s[at..at + |w|])[0] == LowerByte(s[at]) == s[at];
        assert Lower(w)[0] == LowerByte(w[0]) == w[0];
      }
    }
    forall kind: Kind, b ensures Run(s, at, TextClass(kind, b)).at == at { RunStep(s, at, TextClass(kind, b), []); }
    RunStep(s, at, IsCharsetChar, []);
  }

  /** So if any `require` stops, the place where the word breaks off is the one. */
  lemma BlankAtEnd(s: Bytes, at: nat, kind: Kind)
    ensures var p := PiecesAt(s, at, kind);
            && (BlankAhead(s, p.first) ==> p.end == p.first)
            && (BlankAhead(s, p.second) ==> p.end == p.second)
            && (BlankAhead(s, p.end) ==> !p.complete && !Matches(s, p.end, CLOSE))
  {
    hide Matches, Run, TextClass;
    var p := PiecesAt(s, at, kind);
    if BlankAhead(s, p.first) { BlankHolds(s, p.first); }
    if BlankAhead(s, p.second) { BlankHolds(s, p.second); }
    if BlankAhead(s, p.end) { BlankHolds(s, p.end); }
  }

  /**
    Reading a word stops the program exactly if white space, to the end or for
    fifteen bytes, stands where the word breaks off, or if a complete word means
    white space with a line break, or a text that erasing runs out of.
   */
  lemma WordStops(s: Bytes, at: nat, kind: Kind, charsets: Charsets)
    ensures Word(s, at, kind, charsets) == Stops <==>
            if !Matches(s, at, OPEN) then BlankAhead(s, at)
            else
              var p := PiecesAt(s, at + 2, kind);
              || BlankAhead(s, p.end)
              || (p.complete && Meaning(p, charsets).Some? &&
                  var t := Meaning(p, charsets).value; (HasBreak(t) && AllSpace(t)) || Overerased(t))
  {
    hide Matches, PiecesAt, Finished, Meaning, BlankAhead, Overerased;
    BlankAtEnd(s, at + 2, kind);
    var p := PiecesAt(s, at + 2, kind);
    if Meaning(p, charsets).Some? { FinishingStops(Meaning(p, charsets).value); }
  }

  lemma MatchesAt(s: Bytes, at: nat, w: Bytes)
    requires HasAt(s, at, w)
    ensures Matches(s, at, w)
  {
  }

  /** `=?u?q?a=08?=` */
  const BACKSPACED: Bytes := [61, 63, 117, 63, 113, 63, 97, 61, 48, 56, 63, 61]

  lemma BackspacedPieces(kind: Kind)
    ensures PiecesAt(BACKSPACED, 2, kind) == Pieces([117], 3, false, 5, [97, 61, 48, 56], 10, true)
  {
    hide Matches, Run, TextClass;
    var s := BACKSPACED;
    CharsetRead(s);
    MatchesAt(s, 3, MARK);
    MatchesAt(s, 4, Q);
    NotBoth(s, 4);
    MatchesAt(s, 5, MARK);
    TextRead(s, kind);
    MatchesAt(s, 10, CLOSE);
  }

  lemma CharsetRead(s: Bytes)
    requires s == BACKSPACED
    ensures Run(s, 2, IsCharsetChar) == Token([117], 3)
  {
    SpanIs(s, 2, IsCharsetChar, 3);
  }

  lemma TextRead(s: Bytes, kind: Kind)
    requires s == BACKSPACED
    ensures Run(s, 6, TextClass(kind, false)) == Token([97, 61, 48, 56], 10)
  {
    var p := TextClass(kind, false);
    assert p(s[6]) && p(s[7]) && p(s[8]) && p(s[9]) && !p(s[10]);
    SpanIs(s, 6, p, 10);
    assert s[6..10] == [97, 61, 48, 56];
  }

  lemma BackspacedText()
    ensures QuotedPrintable.Decoded([97, 61, 48, 56], false) == [97, 8]
  {
    var t: Bytes := [97, 61, 48, 56];
    assert QuotedPrintable.First(t, false) == QuotedPrintable.Piece([97], 1);
    var u := t[1..];
    assert u == [61, 48, 56];
    assert QuotedPrintable.Blanks(u[1..]) == 0;
    assert QuotedPrintable.First(u, false) == QuotedPrintable.Piece([8], 3);
    assert u[3..] == [];
    assert QuotedPrintable.Decoded(u, false) == [8];
  }

  /** For example `=?u?q?a=08?=`, where `u` is a charset that leaves ASCII alone. */
  lemma BackspacedStops(kind: Kind, charsets: Charsets)
    requires charsets([117], [97, 8]) == Some([97, 8])
    ensures Word(BACKSPACED, 0, kind, charsets) == Stops
  {
    hide Matches, PiecesAt, BlankAhead, Finished, Erased, QuotedPrintable.Decoded;
    MatchesAt(BACKSPACED, 0, OPEN);
    BackspacedPieces(kind);
    BackspacedText();
    assert WithoutLanguage([117]) == [117];
    TrailingBackspace([97, 8], 1);
    assert !HasBreak([97, 8]);
    WordStops(BACKSPACED, 0, kind, charsets);
  }

  /** For example `=?u `, whatever the charsets are. */
  lemma CharsetOnlyStops(kind: Kind, charsets: Charsets)
    ensures Word([EQUALS, QUESTION, 117, SP], 0, kind, charsets) == Stops
  {
    hide TextClass;
    var s := [EQUALS, QUESTION, 117, SP];
    assert s[0..2] == OPEN;
    RunStep(s, 2, IsCharsetChar, []);
    RunStep(s, 3, IsCharsetChar, []);
    assert Run(s, 2, IsCharsetChar).at == 3;
    BlankHolds(s, 3);
    assert BlankAhead(s, 3);
  }

  /** After the white space before it, a word stops only past its `=?`. */
  lemma NotBeforeWord(s: Bytes, at: nat)
    ensures !BlankAhead(s, Whitespace(s, at).at)
  {
    var e := Whitespace(s, at).at;
    if at < |s| && e < |s| { assert !IsWhitespace(s[e]); }
  }

  /** A run of words stops at the first one that stops, and past its `=?`. */
  lemma {:induction false} WordsStop(s: Bytes, at: nat, kind: Kind, charsets: Charsets, out: Bytes) returns (e: nat)
    requires Words(s, at, kind, charsets, out) == None
    ensures Word(s, e, kind, charsets) == Stops && Matches(s, e, OPEN) && e >= at
    decreases |s| - at
  {
    hide Matches, Whitespace, PiecesAt, BlankAhead, Finished, Meaning;
    e := Whitespace(s, at).at;
    match Word(s, e, kind, charsets)
    case Stops => NotBeforeWord(s, at);
    case Found(w) => e := WordsStop(s, w.at, kind, charsets, out + w.text);
  }

  /** Leading and trailing white space removed. */
  function Trimmed(s: Bytes): Bytes
    decreases |s|
  {
    if s == [] then []
    else if IsSpace(s[0]) then Trimmed(s[1..])
    else if IsSpace(s[|s| - 1]) then Trimmed(s[..|s| - 1])
    else s
  }
}
