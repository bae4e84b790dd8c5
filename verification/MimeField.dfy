/** A MIME field object: a base value and a list of parameters, parsed and edited in place. */
module MimeField {
  import opened Octets
  import opened Tokens
  import opened MimeParameters
  import Names
  import Quoting
  import P = Parser

  /** The value with the given name replaced, wherever it occurs. */
  function Replaced(ps: seq<Parameter>, n: Bytes, v: Bytes): (qs: seq<Parameter>)
    ensures |qs| == |ps|
    ensures forall k :: 0 <= k < |ps| ==> qs[k] == if ps[k].name == n then Parameter(n, v) else ps[k]
  {
    seq(|ps|, k requires 0 <= k < |ps| => if ps[k].name == n then Parameter(n, v) else ps[k])
  }

  /** Existing names are matched in lower case, but a new name is stored as it was given. */
  function Added(ps: seq<Parameter>, n: Bytes, v: Bytes): seq<Parameter>
  {
    if Find(ps, Lower(n)) < |ps| then Replaced(ps, Lower(n), v) else ps + [Parameter(n, v)]
  }

  /**
    What was added under a name is found under that name exactly if the name
    was there before, is in lower case, or the value is empty.
   */
  lemma AddThenGet(ps: seq<Parameter>, n: Bytes, v: Bytes)
    ensures Lookup(Added(ps, n, v), n) == v <==> Find(ps, Lower(n)) < |ps| || Lower(n) == n || v == []
  {
    var l := Lower(n);
    var i, qs := Find(ps, l), Added(ps, n, v);
    FindIs(qs, l, if i < |ps| || l == n then i else |qs|);
  }

  lemma {:induction false} FindIs(ps: seq<Parameter>, n: Bytes, i: nat)
    requires i <= |ps| && (i < |ps| ==> ps[i].name == n) && forall k :: 0 <= k < i ==> ps[k].name != n
    ensures Find(ps, n) == i
  {
    if i > 0 { FindIs(ps[1..], n, i - 1); }
  }

  /** Adding changes no other parameter. */
  lemma AddKeepsOthers(ps: seq<Parameter>, n: Bytes, v: Bytes, m: Bytes)
    requires Lower(m) != Lower(n)
    ensures Lookup(Added(ps, n, v), m) == Lookup(ps, m)
  {
    var qs, l := Added(ps, n, v), Lower(m);
    var i := Find(ps, l);
    LowerFixed(n, m);
    FindIs(qs, l, if i < |ps| then i else |qs|);
  }

  lemma LowerFixed(n: Bytes, m: Bytes)
    ensures Lower(m) == n ==> Lower(m) == Lower(n)
  {
    if Lower(m) == n {
      forall k | 0 <= k < |n| ensures Lower(n)[k] == n[k] { }
    }
  }

  class MIMEField {
    const name: Bytes
    var baseValue: Bytes
    var parameters: seq<Parameter>

    constructor (name: Bytes)
      ensures this.name == name && baseValue == [] && parameters == []
    {
      this.name := name;
      baseValue := [];
      parameters := [];
    }

    method GetParameter(n: Bytes) returns (v: Bytes)
      ensures v == Lookup(parameters, n)
    {
      var s := Lower(n);
      var i := FindIndex(s);
      if i < |parameters| { return parameters[i].value; }
      return [];
    }

    method FindIndex(s: Bytes) returns (i: nat)
      ensures i == Find(parameters, s)
    {
      i := 0;
      while i < |parameters| && parameters[i].name != s
        invariant i <= |parameters| && forall k :: 0 <= k < i ==> parameters[k].name != s
      {
        i := i + 1;
      }
      FindIs(parameters, s, i);
    }

    method AddParameter(n: Bytes, v: Bytes)
      modifies this`parameters
      ensures parameters == Added(old(parameters), n, v)
    {
      var s := Lower(n);
      var found := false;
      ghost var ps := parameters;
      for i := 0 to |parameters|
        invariant |parameters| == |ps|
        invariant forall k :: i <= k < |ps| ==> parameters[k] == ps[k]
        invariant forall k :: 0 <= k < i ==> parameters[k] == Replaced(ps, s, v)[k]
        invariant found <==> exists k :: 0 <= k < i && ps[k].name == s
      {
        if parameters[i].name == s {
          parameters := parameters[i := parameters[i].(value := v)];
          found := true;
        }
      }
      if !found {
        FindIs(ps, s, |ps|);
        assert parameters == ps;
        parameters := parameters + [Parameter(n, v)];
      }
    }

    /** The field's text: base value and parameters, packed into lines. */
    method RFC822() returns (s: Bytes)
      ensures s == Printed(name, baseValue, parameters)
    {
      hide FirstFit, WordTexts, Packed, Without;
      s := baseValue;
      var lineLength: nat := |name| + 2 + |s|;
      var words := QuotedWords();
      s := PackWords(s, lineLength, words);
    }

    static method PackWords(base: Bytes, length: nat, list: seq<Bytes>) returns (s: Bytes)
      ensures s == Packed(base, length, list)
    {
      hide FirstFit, Packed;
      s := base;
      var lineLength: nat, words := length, list;
      while |words| > 0
        invariant Packed(s, lineLength, words) == Packed(base, length, list)
        decreases |words|
      {
        PackedUnfold(s, lineLength, words);
        var i := FindFit(words, lineLength);
        if i < |words| {
          s := s + INLINE;
          lineLength := lineLength + 2;
        } else {
          i := 0;
          s := s + FOLD;
          lineLength := 1;
        }
        s := s + words[i];
        lineLength := lineLength + |words[i]|;
        words := Without(words, i);
      }
      PackedNone(s, lineLength);
    }

    method QuotedWords() returns (words: seq<Bytes>)
      ensures words == WordTexts(parameters)
    {
      words := [];
      for k := 0 to |parameters|
        invariant |words| == k && forall j :: 0 <= j < k ==> words[j] == WordText(parameters[j])
      {
        var s := parameters[k].value;
        var boring := Quoting.CheckMIMEBoring(s);
        if !boring { s := Quoting.Quote(s, DQUOTE, SQUOTE); }
        words := words + [parameters[k].name + EQ + s];
      }
    }

    static method FindFit(words: seq<Bytes>, lineLength: nat) returns (i: nat)
      ensures i == FirstFit(words, lineLength)
    {
      i := 0;
      while i < |words| && lineLength + 2 + |words[i]| > 78
        invariant i <= |words|
        invariant FirstFit(words, lineLength) == i + FirstFit(words[i..], lineLength)
      {
        assert words[i..][1..] == words[i + 1..];
        i := i + 1;
      }
    }

    // ------------------------------------------------------------ the parser

    static method ReadTail(p: P.Parser) returns (ok: bool)
      requires p.Valid()
      modifies p, p.top
      ensures p.Valid() && (p.top == old(p.top) || fresh(p.top))
      ensures Tail(ok, p.top.at) == ValueTail(p.str, old(p.top.at))
    {
      hide P.Parser.Valid, P.Parser.Saved, Tokens.DotAtom, Tokens.MIMEValue;
      ok := true;
      ghost var t := ValueTail(p.str, p.top.at);
      while ok && p.top.at < |p.str| && NextChar(p.str, p.top.at) != SEMICOLON && NextChar(p.str, p.top.at) != DQUOTE
        invariant p.Valid() && (p.top == old(p.top) || fresh(p.top))
        invariant t == if ok then ValueTail(p.str, p.top.at) else Tail(false, p.top.at)
        decreases ok, |p.str| - p.top.at
      {
        var d := p.DotAtom();
        if d == [] {
          var v := p.MIMEValue();
          if v == [] { ok := false; }
        }
      }
    }

    static method ReadValue(p: P.Parser) returns (r: Option<Bytes>)
      requires p.Valid()
      modifies p, p.top
      ensures p.Valid() && (p.top == old(p.top) || fresh(p.top))
      ensures match ValueAt(p.str, old(p.top.at))
              case None => r == None
              case Some(v) => r == Some(v.text) && p.top.at == v.at
    {
      hide P.Parser.Valid, P.Parser.Saved, Tokens.MIMEValue, ValueTail;
      if NextChar(p.str, p.top.at) == DQUOTE {
        var v := p.MIMEValue();
        return Some(v);
      }
      var start := p.top.at;
      var v := p.MIMEValue();
      var ok := ReadTail(p);
      if ok {
        if p.top.at > |p.str| { return None; }
        v := p.str[start..p.top.at];
      }
      return Some(v);
    }

    /** Sets the parameter to the value, or only makes sure it exists if the name is that of a part. */
    method StoreParameter(n: Name, v: Bytes)
      modifies this`parameters
      ensures parameters == Stored(old(parameters), n, v)
    {
      if n.text != [] {
        var i := FindIndex(n.text);
        if i >= |parameters| { parameters := parameters + [Parameter(n.text, [])]; }
        if !n.part { parameters := parameters[i := Parameter(n.text, v)]; }
      }
    }

    /** One parameter: what happens is said by `ParameterAt`. */
    method ReadParameter(p: P.Parser, known: Bytes -> bool) returns (more: bool, ok: bool)
      requires p.Valid()
      modifies this`parameters, p, p.top
      ensures p.Valid() && (p.top == old(p.top) || fresh(p.top))
      ensures match ParameterAt(p.str, old(p.top.at), old(parameters), name == Names.CONTENT_TYPE, known)
              case Stop(ps) => ok && !more && parameters == ps
              case Crash => !ok
              case Next(ps, a) => ok && more && parameters == ps && p.top.at == a
    {
      hide P.Parser.Valid, P.Parser.Saved, Tokens.MIMEToken, Tokens.Comment, Tokens.Whitespace, ValueAt, Stored, NameOf;
      var token := p.MIMEToken();
      var n := NameOf(Lower(token));
      var _ := p.Comment();
      if token == [] { return false, true; }
      if name == Names.CONTENT_TYPE && p.top.at >= |p.str| && known(n.text) {
        var i := FindIndex(CHARSET);
        if i == |parameters| {
          parameters := parameters + [Parameter(CHARSET, n.text)];
          return false, true;
        }
      }
      if NextChar(p.str, p.top.at) != EQUALS { return false, true; }
      ok := ReadAssigned(p, n);
      more := ok;
    }

    /** The value after the equals sign at the cursor, and the comments after it. */
    method ReadAssigned(p: P.Parser, n: Name) returns (ok: bool)
      requires p.Valid()
      modifies this`parameters, p, p.top
      ensures p.Valid() && (p.top == old(p.top) || fresh(p.top))
      ensures match ValueAt(p.str, Tokens.Whitespace(p.str, old(p.top.at) + 1).at)
              case None => !ok
              case Some(v) => ok && parameters == Stored(old(parameters), n, v.text) && p.top.at == Tokens.Comment(p.str, v.at).at
    {
      hide P.Parser.Valid, P.Parser.Saved, Tokens.Comment, Tokens.Whitespace, ValueAt, Stored;
      p.Step(1);
      var _ := p.Whitespace();
      var v := ReadValue(p);
      if v == None { return false; }
      var _ := p.Comment();
      StoreParameter(n, v.value);
      return true;
    }

    /** Parses `*(";" parameter)` from the cursor on; not `ok` if a slice is out of range. */
    method ParseParameters(p: P.Parser, known: Bytes -> bool) returns (ok: bool)
      requires p.Valid()
      modifies this`parameters, p, p.top
      ensures p.Valid()
      ensures match ParseFrom(p.str, old(p.top.at), old(parameters), name == Names.CONTENT_TYPE, known, true)
              case OutOfRange => !ok
              case Params(ps) => ok && parameters == ps
    {
      hide P.Parser.Valid, P.Parser.Saved, ParameterAt, Tokens.Run;
      ok := true;
      var done, first := false, true;
      ghost var goal := ParseFrom(p.str, p.top.at, parameters, name == Names.CONTENT_TYPE, known, true);
      while !done
        invariant p.Valid() && (p.top == old(p.top) || fresh(p.top)) && ok
        invariant goal == if done then Params(parameters)
                          else ParseFrom(p.str, p.top.at, parameters, name == Names.CONTENT_TYPE, known, first)
        decreases !done, |p.str| - p.top.at
      {
        var i := p.top.at;
        var _ := p.TakeRun(IsSeparator);
        done := !(i < p.top.at || first) || p.top.at >= |p.str|;
        first := false;
        if !done {
          var more: bool;
          more, ok := ReadParameter(p, known);
          if !ok { return; }
          done := !more;
        }
      }
    }
  }
}
