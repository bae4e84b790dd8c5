/**
  The parser object: a text, and a linked stack of states of which the first
  is the current one.  `Mark` and `Restore` work on the stack as the machine in
  `Cursor` says; every token method changes at most the current state, and
  moves its cursor as `Tokens` says.
 */
module Parser {
  import opened Octets
  import opened Tokens
  import opened Cursor
  import opened EncodedWords
  import Simplify

  class State {
    var at: nat
    var err: Option<Error>
    const next: State?
    const mark: nat

    constructor (other: State?)
      ensures err == None && next == other
      ensures other == null ==> at == 0 && mark == 1
      ensures other != null ==> at == other.at && mark == other.mark + 1
    {
      at := if other == null then 0 else other.at;
      err := None;
      next := other;
      mark := if other == null then 1 else other.mark + 1;
    }
  }

  class Parser {
    const str: Bytes
    var top: State
    var lc: Bytes
    /** All states, oldest first. */
    ghost var chain: seq<State>

    /** The states are linked, and their marks are consecutive. */
    ghost predicate Valid()
      reads this`top, this`chain
    {
      && |chain| > 0 && top == chain[|chain| - 1]
      && chain[0].next == null
      && (forall k :: 0 <= k < |chain| ==> chain[k].mark == k + 1)
      && (forall k :: 0 < k < |chain| ==> chain[k].next != null && chain[k].next == chain[k - 1])
    }

    /** The stack as a value. */
    ghost function Saved(): (st: Stack)
      requires Valid()
      reads this, chain
      ensures |st| == |chain|
      ensures forall k :: 0 <= k < |st| ==> st[k] == Frame(chain[k].at, chain[k].err)
    {
      seq(|chain|, k requires 0 <= k < |chain| reads this, chain => Frame(chain[k].at, chain[k].err))
    }

    constructor (s: Bytes)
      ensures Valid() && str == s && Saved() == [Frame(0, None)] && fresh(top)
    {
      str := s;
      lc := [];
      var st := new State(null);
      top := st;
      chain := [st];
    }

    // ------------------------------------------------------------ the stack

    method Mark() returns (m: nat)
      requires Valid()
      modifies this
      ensures Valid() && Saved() == Marked(old(Saved())) && m == old(|chain|)
      ensures chain == old(chain) + [top] && fresh(top) && lc == old(lc)
      ensures top.at == old(top.at) && top.err == None
    {
      var st := new State(top);
      top := st;
      chain := chain + [st];
      assert forall k :: 0 <= k < |chain| - 1 ==> chain[k] == old(chain)[k];
      m := top.next.mark;
    }

    method Restore(m: int)
      requires Valid()
      modifies this
      ensures Valid() && Saved() == Restored(old(Saved()), m)
      ensures chain == (if 1 <= m <= old(|chain|) then old(chain)[..m] else old(chain)) && lc == old(lc)
    {
      var c := top;
      ghost var k := |chain| - 1;
      while c.mark != m && c.next != null
        invariant 0 <= k < |chain| && c == chain[k]
        invariant c.mark == k + 1 && (c.next == null <==> k == 0)
        invariant !(k + 1 < m <= |chain|)
        decreases k
      {
        c := c.next;
        k := k - 1;
      }
      if c.mark == m {
        top := c;
        chain := chain[..k + 1];
        assert Saved() == old(Saved())[..m];
      }
    }

    /** Moving the current state's cursor is a move of the machine. */
    method Step(n: nat)
      requires Valid()
      modifies top
      ensures Saved() == Moved(old(Saved()), old(top.at) + n)
      ensures top.at == old(top.at) + n && top.err == old(top.err)
    {
      top.at := top.at + n;
      assert forall k :: 0 <= k < |chain| - 1 ==> chain[k].mark != top.mark;
    }

    method SetError(e: Error)
      requires Valid()
      modifies top
      ensures Saved() == Failed(old(Saved()), e)
      ensures top.at == old(top.at) && top.err == Some(e)
    {
      top.err := Some(e);
      assert forall k :: 0 <= k < |chain| - 1 ==> chain[k].mark != top.mark;
    }

    // ----------------------------------------------------------- the tokens

    /** Reads characters while they are in the class. */
    method TakeRun(p: Byte -> bool) returns (out: Bytes)
      requires Valid() && !p(NUL)
      modifies top
      ensures Token(out, top.at) == Tokens.Run(str, old(top.at), p) && top.err == old(top.err)
    {
      hide Tokens.Run, Parser.Saved, Parser.Valid, Moved;
      out := [];
      ghost var t := Tokens.Run(str, top.at, p);
      var c := NextChar(str, top.at);
      while p(c)
        invariant c == NextChar(str, top.at) && top.err == old(top.err)
        invariant Tokens.Run(str, top.at, p).at == t.at && out + Tokens.Run(str, top.at, p).text == t.text
        decreases |str| - top.at
      {
        RunStep(str, top.at, p, out);
        out := out + [c];
        Step(1);
        c := NextChar(str, top.at);
      }
      RunStep(str, top.at, p, out);
    }

    method Whitespace() returns (out: Bytes)
      requires Valid()
      modifies top
      ensures Token(out, top.at) == Tokens.Whitespace(str, old(top.at)) && top.err == old(top.err)
    {
      out := TakeRun(IsWhitespace);
    }

    /** Whether `w` is next, ignoring case; if so the cursor passes it. */
    method Present(w: Bytes) returns (r: bool)
      requires Valid()
      modifies top
      ensures r == Matches(str, old(top.at), w)
      ensures top.at == old(top.at) + (if r then |w| else 0) && top.err == old(top.err)
    {
      r := Matches(str, top.at, w);
      if r { Step(|w|); }
    }

    /** The next characters must be `w`; not `ok` if the program stops while it says that they are not. */
    method Require(w: Bytes) returns (ok: bool)
      requires Valid()
      modifies top
      ensures ok <==> !Stopping(str, old(top.at), w)
      ensures var r := Matches(str, old(top.at), w);
              ok ==> top.at == old(top.at) + (if r then |w| else 0)
                     && top.err == if r then old(top.err) else Some(Expected(w))
    {
      hide Following, BlankAhead, Simplify.Simplified;
      var r := Present(w);
      if !r {
        var quoted := Simplify.Simplify(Following(str, top.at));
        QuotingStops(str, top.at);
        if quoted == None { return false; }
        SetError(Expected(w));
      }
      return true;
    }

    /** One character, or quoted pair, of a comment. */
    method CommentChar(level: nat) returns (text: Bytes, level': nat)
      requires Valid() && level > 0 && top.at < |str|
      modifies top
      ensures top.at > old(top.at) && top.err == old(top.err)
      ensures Bite(text, top.at - old(top.at), level') == CommentBite(str, old(top.at), level)
    {
      hide Parser.Saved, Parser.Valid;
      var c := NextChar(str, top.at);
      text, level' := [], level;
      if c == LPAREN {
        text := [c];
        level' := level + 1;
      } else if c == RPAREN {
        level' := level - 1;
        if level' > 0 { text := [c]; }
      } else if c == BACKSLASH {
        Step(1);
        text := [NextChar(str, top.at)];
      } else {
        text := [c];
      }
      Step(1);
    }

    /** The rest of a comment, after its opening parenthesis. */
    method CommentBody() returns (buf: Bytes)
      requires Valid()
      modifies top
      ensures Token(buf, top.at) == CommentRest(str, old(top.at), 1, []) && top.err == old(top.err)
    {
      hide CommentBite, Parser.Saved, Parser.Valid;
      buf := [];
      var level: nat := 1;
      ghost var t := CommentRest(str, top.at, 1, []);
      while level > 0 && top.at < |str|
        invariant CommentRest(str, top.at, level, buf) == t && top.err == old(top.err)
        decreases |str| - top.at
      {
        var text: Bytes;
        text, level := CommentChar(level);
        buf := buf + text;
      }
    }

    /** One comment and the white space after it. */
    method OneComment() returns (buf: Bytes)
      requires Valid() && NextChar(str, top.at) == LPAREN
      modifies top
      ensures var c := CommentRest(str, old(top.at) + 1, 1, []); buf == c.text && top.at == Tokens.Whitespace(str, c.at).at
      ensures top.at > old(top.at) && top.err == old(top.err)
    {
      hide CommentRest, Tokens.Whitespace, Parser.Saved, Parser.Valid;
      Step(1);
      buf := CommentBody();
      var _ := Whitespace();
    }

    method Comment() returns (buf: Bytes)
      requires Valid()
      modifies top, this`lc
      ensures Token(buf, top.at) == Tokens.Comment(str, old(top.at)) && top.err == old(top.err)
    {
      hide CommentRest, Tokens.Whitespace, Parser.Saved, Parser.Valid;
      buf := [];
      var _ := Whitespace();
      ghost var t := Comments(str, top.at, []);
      while NextChar(str, top.at) == LPAREN
        invariant Comments(str, top.at, buf) == t && top.err == old(top.err)
        decreases |str| - top.at
      {
        buf := OneComment();
        lc := buf;
      }
    }

    method Atom() returns (out: Bytes)
      requires Valid()
      modifies top, this`lc
      ensures Token(out, top.at) == Tokens.Atom(str, old(top.at)) && top.err == old(top.err)
    {
      var _ := Comment();
      out := TakeRun(IsAtext);
    }

    method MIMEToken() returns (out: Bytes)
      requires Valid()
      modifies top, this`lc
      ensures Token(out, top.at) == Tokens.MIMEToken(str, old(top.at)) && top.err == old(top.err)
    {
      var _ := Comment();
      out := TakeRun(IsTokenChar);
    }

    /** One character of a quoted string, quoted pair or run of white space; `done` at the closing quote. */
    method QuotedChar() returns (text: Bytes, done: bool)
      requires Valid() && top.at < |str|
      modifies top
      ensures top.at > old(top.at) && top.err == old(top.err)
      ensures done <==> str[old(top.at)] == DQUOTE
      ensures forall buf :: QuotedRest(str, old(top.at), buf) == if done then Token(buf, top.at) else QuotedRest(str, top.at, buf + text)
    {
      hide Parser.Saved, Parser.Valid;
      var c := NextChar(str, top.at);
      Step(1);
      text, done := [], false;
      if c == DQUOTE {
        done := true;
      } else if c == BACKSLASH {
        text := [NextChar(str, top.at)];
        Step(1);
      } else if IsSpace(c) {
        var wsp := top.at - 1;
        var _ := Whitespace();
        text := Unfold(str[wsp..top.at]);
      } else {
        text := [c];
      }
    }

    /** The inside of a quoted string. */
    method QuotedBody() returns (buf: Bytes)
      requires Valid()
      modifies top
      ensures Token(buf, top.at) == QuotedRest(str, old(top.at), []) && top.err == old(top.err)
    {
      hide Parser.Saved, Parser.Valid;
      buf := [];
      var done := false;
      ghost var t := QuotedRest(str, top.at, []);
      while !done && top.at < |str|
        invariant t == if done then Token(buf, top.at) else QuotedRest(str, top.at, buf)
        invariant top.err == old(top.err)
        decreases !done, |str| - top.at
      {
        var text: Bytes;
        text, done := QuotedChar();
        if !done { buf := buf + text; }
      }
    }

    method String() returns (out: Bytes)
      requires Valid()
      modifies top, this`lc
      ensures Token(out, top.at) == Tokens.String(str, old(top.at)) && top.err == old(top.err)
    {
      hide Parser.Saved, Parser.Valid, Tokens.Comment, Tokens.Atom, QuotedRest;
      var _ := Comment();
      if NextChar(str, top.at) != DQUOTE {
        out := Atom();
      } else {
        Step(1);
        out := QuotedBody();
      }
    }

    method MIMEValue() returns (out: Bytes)
      requires Valid()
      modifies top, this`lc
      ensures Token(out, top.at) == Tokens.MIMEValue(str, old(top.at)) && top.err == old(top.err)
    {
      hide Parser.Saved, Parser.Valid, Tokens.Comment, Tokens.String, Tokens.MIMEToken;
      var _ := Comment();
      if NextChar(str, top.at) == DQUOTE {
        out := String();
      } else {
        out := MIMEToken();
      }
    }

    // ------------------------------------------------- tokens that backtrack

    /** A dot and one more atom, or an error. */
    method DottedAtom() returns (a: Bytes)
      requires Valid()
      modifies top, this`lc
      ensures var dot := Tokens.Comment(str, old(top.at)).at; var t := Tokens.Atom(str, Tokens.Comment(str, dot + 1).at);
              var ok := NextChar(str, dot) == DOT && t.text != [];
              && (ok ==> top.at == t.at && top.err == old(top.err) && a == t.text)
              && (!ok ==> top.err.Some?)
    {
      hide Parser.Saved, Parser.Valid, Tokens.Comment, Tokens.Atom, Matches;
      DotNeverStops(str, top.at);
      var _ := Comment();
      MatchesByte(str, top.at, DOT);
      var ok := Require([DOT]);
      assert ok;
      var _ := Comment();
      a := Atom();
      if a == [] { SetError(TrailingDot); }
    }

    /** A dot and one more atom, or nothing at all. */
    method MoreDotAtom() returns (a: Bytes, ok: bool)
      requires Valid()
      modifies this
      ensures Valid()
      ensures var dot := Tokens.Comment(str, old(top.at)).at; var t := Tokens.Atom(str, Tokens.Comment(str, dot + 1).at);
              && (ok <==> NextChar(str, dot) == DOT && t.text != [])
              && (ok ==> chain == old(chain) + [top] && fresh(top) && top.at == t.at && top.err == None && a == t.text)
      ensures !ok ==> chain == old(chain) && Saved() == old(Saved())
    {
      hide Tokens.Comment, Tokens.Atom;
      var m := Mark();
      a := DottedAtom();
      ok := top.err == None;
      if !ok {
        Restore(m);
        assert chain == old(chain);
      }
    }

    /**
      Ends just after the last atom: a dot without an atom after it is not
      consumed.  States below the current one stay as they are, and so does the
      error of the current one.
     */
    method DotAtom() returns (result: Bytes)
      requires Valid()
      modifies this, top
      ensures Valid() && old(chain) <= chain
      ensures Token(result, top.at) == Tokens.DotAtom(str, old(top.at))
      ensures old(top).at == Tokens.Atom(str, old(top.at)).at && old(top).err == old(top.err)
      ensures top == old(top) || fresh(top)
      ensures forall k :: |old(chain)| <= k < |chain| ==> fresh(chain[k]) && chain[k].err == None
    {
      hide Parser.Saved, Tokens.Comment, Tokens.Atom;
      result := Atom();
      if result == [] { return; }
      var done := false;
      ghost var first := top.at;
      while !done
        invariant Valid() && old(chain) <= chain
        invariant old(top).at == first && old(top).err == old(top.err)
        invariant forall k :: |old(chain)| <= k < |chain| ==> fresh(chain[k]) && chain[k].err == None
        invariant if done then Token(result, top.at) == Tokens.DotAtom(str, old(top.at))
                  else DotAtomRest(str, top.at, result) == Tokens.DotAtom(str, old(top.at))
        decreases !done, |str| - top.at
      {
        var a, ok := MoreDotAtom();
        if ok { result := result + [DOT] + a; } else { done := true; }
      }
    }

    /**
      The pieces of a word after its opening `=?`, with an error if they are not
      all there; not `ok` if the program stops.
     */
    method WordPieces(kind: Kind) returns (p: Pieces, ok: bool)
      requires Valid() && top.err == None
      modifies top
      ensures var q := PiecesAt(str, old(top.at), kind);
              && (ok <==> !(Stopping(str, q.first, MARK) || Stopping(str, q.second, MARK) || Stopping(str, q.end, CLOSE)))
              && (ok ==> p == q && (top.err == None <==> q.complete))
              && (ok && q.complete ==> top.at == q.end + 2)
    {
      hide Parser.Saved, Parser.Valid, Tokens.Run, Matches, TextClass, BlankAhead;
      p := Pieces([], 0, false, 0, [], 0, false);
      var cs := TakeRun(IsCharsetChar);
      var first := top.at;
      ok := Require(MARK);
      if !ok { return; }
      var base64 := EncodingLetter();
      var second := top.at;
      ok := Require(MARK);
      if !ok { return; }
      var text := TakeRun(TextClass(kind, base64));
      var end := top.at;
      ok := Require(CLOSE);
      if !ok { return; }
      p := Pieces(cs, first, base64, second, text, end, top.err == None);
    }

    /** `q` or `b`, or an error. */
    method EncodingLetter() returns (base64: bool)
      requires Valid()
      modifies top
      ensures var q := Matches(str, old(top.at), Q);
              && base64 == Matches(str, old(top.at), B)
              && top.at == old(top.at) + (if q || base64 then 1 else 0)
              && (if q || base64 then top.err == old(top.err) else top.err.Some?)
    {
      hide Parser.Saved, Parser.Valid, Matches;
      NotBoth(str, top.at);
      base64 := false;
      var q := Present(Q);
      if !q {
        base64 := Present(B);
        if !base64 { SetError(UnknownEncoding(NextChar(str, top.at))); }
      }
    }

    /** Erases backspaces; not `ok` if a search starts out of range. */
    static method Erase(text: Bytes) returns (r: Option<Bytes>)
      ensures r == Erased(text, 0)
    {
      var s := text;
      var i: nat := 0;
      while true
        invariant Erased(text, 0) == Erased(s, i)
        decreases |s|
      {
        if i > |s| { return None; }
        var k := IndexOf(s[i..], BACKSPACE);
        if k == |s| - i { return Some(s); }
        s := (if k > 1 then s[..k - 1] else []) + s[k + 1..];
        i := k;
      }
    }

    static method Finish(text: Bytes) returns (r: Option<Bytes>)
      ensures r == Finished(text)
    {
      hide Simplify.Simplified, Erased;
      r := Some(text);
      if HasBreak(text) {
        r := Simplify.Simplify(text);
        if r == None { return; }
      }
      if BACKSPACE in r.value { r := Erase(r.value); }
    }

    /** The whole word on the current state; an error if there is none; not `ok` if the program stops. */
    method WordHere(kind: Kind, charsets: Charsets) returns (text: Bytes, ok: bool)
      requires Valid() && top.err == None
      modifies top
      ensures match Word(str, old(top.at), kind, charsets)
              case Nothing => ok && top.err.Some?
              case Stops => !ok
              case Found(w) => ok && top.err == None && Token(text, top.at) == w
    {
      hide Parser.Saved, Parser.Valid, Tokens.Run, Matches, PiecesAt, BlankAhead, Finished, WithoutLanguage, DecodedText;
      text := [];
      ok := Require(OPEN);
      if !ok || top.err.Some? { return; }
      var p: Pieces;
      p, ok := WordPieces(kind);
      if !ok || top.err.Some? { return; }
      match charsets(WithoutLanguage(p.charset), DecodedText(p.text, p.base64))
      case None => SetError(UnknownCharset);
      case Some(t) =>
        var r := Finish(t);
        if r == None { return [], false; }
        text := r.value;
    }

    /**
      All or nothing unless the program stops: without a word, the stack is
      exactly as it was; with one, a single new state stands after it.
     */
    method EncodedWord(kind: Kind, charsets: Charsets) returns (r: Option<Bytes>, ok: bool)
      requires Valid()
      modifies this
      ensures Valid()
      ensures match Word(str, old(top.at), kind, charsets)
              case Nothing => ok && r == None && chain == old(chain) && Saved() == old(Saved())
              case Stops => !ok
              case Found(w) => ok && r == Some(w.text) && chain == old(chain) + [top] && fresh(top) && top.at == w.at && top.err == None
    {
      hide Word;
      var m := Mark();
      var text: Bytes;
      text, ok := WordHere(kind, charsets);
      if !ok { return None, false; }
      if top.err.Some? {
        Restore(m);
        assert chain == old(chain);
        return None, true;
      }
      return Some(text), true;
    }

    /** White space and one more word, or nothing at all. */
    method MoreWords(kind: Kind, charsets: Charsets) returns (r: Option<Bytes>, ok: bool)
      requires Valid()
      modifies this
      ensures Valid()
      ensures match Word(str, Tokens.Whitespace(str, old(top.at)).at, kind, charsets)
              case Nothing => ok && r == None && chain == old(chain) && top == old(top) && top.at == old(top.at)
              case Stops => !ok
              case Found(w) => ok && r == Some(w.text) && top.at == w.at && top.at > old(top.at)
      ensures ok ==> old(chain) <= chain && forall k :: |old(chain)| <= k < |chain| ==> fresh(chain[k]) && chain[k].err == None
    {
      hide Word, Tokens.Whitespace, Parser.Saved, Restored;
      var m := Mark();
      var _ := Whitespace();
      var n := top.at;
      r, ok := EncodedWord(kind, charsets);
      if ok && n == top.at {
        Restore(m);
        assert chain == old(chain);
      }
    }

    /** Ends as it began, or just after the last word; white space after it is not eaten. */
    method EncodedWords(kind: Kind, charsets: Charsets) returns (r: Bytes, ok: bool)
      requires Valid()
      modifies this
      ensures Valid()
      ensures match Words(str, old(top.at), kind, charsets, [])
              case None => !ok
              case Some(t) => ok && top.at == t.at && r == Trimmed(t.text)
      ensures ok && top.at == old(top.at) ==> chain == old(chain)
      ensures ok ==> old(chain) <= chain && forall k :: |old(chain)| <= k < |chain| ==> fresh(chain[k]) && chain[k].err == None
    {
      hide Word, Tokens.Whitespace, Parser.Saved, Parser.Valid;
      r, ok := [], true;
      var out, end := [], false;
      ghost var goal := Words(str, top.at, kind, charsets, []);
      while !end
        invariant Valid() && old(chain) <= chain && top.at >= old(top.at) && ok
        invariant top.at == old(top.at) ==> chain == old(chain)
        invariant forall k :: |old(chain)| <= k < |chain| ==> fresh(chain[k]) && chain[k].err == None
        invariant goal == if end then Some(Token(out, top.at)) else Words(str, top.at, kind, charsets, out)
        decreases !end, |str| - top.at
      {
        var s: Option<Bytes>;
        s, ok := MoreWords(kind, charsets);
        if !ok { return; }
        if s == None { end := true; } else { out := out + s.value; }
      }
      r := Trimmed(out);
    }
  }
}
