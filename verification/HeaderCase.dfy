/** The spelling of field names: what `headerCase` makes of a name depends on its letters only. */
module HeaderCase {
  import opened Octets

  /** A letter after a letter or digit is lower case, any other letter is upper case. */
  function Cased(c: Byte, first: bool): (r: Byte)
    ensures LowerByte(r) == LowerByte(c)
  {
    if first && IsLower(c) then c - 32
    else if !first && IsUpper(c) then c + 32
    else c
  }

  predicate StartsWord(s: Bytes, k: nat)
    requires k < |s|
  {
    k == 0 || !IsAlnum(s[k - 1])
  }

  function WordCased(s: Bytes): (r: Bytes)
    ensures |r| == |s|
    ensures forall k :: 0 <= k < |s| ==> r[k] == Cased(s[k], StartsWord(s, k))
  {
    seq(|s|, k requires 0 <= k < |s| => Cased(s[k], StartsWord(s, k)))
  }

  const MIME_: Bytes := [77, 105, 109, 101, DASH]
  const MIME_UPPER: Bytes := [77, 73, 77, 69, DASH]
  const ID_: Bytes := [DASH, 73, 100]
  const ID_UPPER: Bytes := [DASH, 73, 68]

  function MIMEFixed(s: Bytes): (r: Bytes)
    ensures |r| == |s|
  {
    if |s| > 5 && s[..5] == MIME_ then MIME_UPPER + s[5..] else s
  }

  function IDFixed(s: Bytes): (r: Bytes)
    ensures |r| == |s|
  {
    if |s| > 3 && s[|s| - 3..] == ID_ then s[..|s| - 3] + ID_UPPER else s
  }

  function HeaderCased(s: Bytes): Bytes { IDFixed(MIMEFixed(WordCased(s))) }

  lemma Starts(s: Bytes, k: nat)
    requires k < |s|
    ensures StartsWord(s, k) == if k == 0 then true else !IsAlnum(s[k - 1])
  {
  }

  method CaseByte(c: Byte, first: bool) returns (d: Byte)
    ensures d == Cased(c, first)
  {
    d := c;
    if first && 97 <= c <= 122 {
      d := c - 32;
    } else if !first && 65 <= c <= 90 {
      d := c + 32;
    }
  }

  method WordCase(s: Bytes) returns (r: Bytes)
    ensures r == WordCased(s)
  {
    hide Cased, IsAlnum, WordCased, StartsWord;
    r := [];
    var i, u := 0, true;
    if s != [] { Starts(s, 0); }
    ghost var w := WordCased(s);
    while i < |s|
      invariant 0 <= i <= |s| && r == w[..i] && (i < |s| ==> u == StartsWord(s, i))
    {
      var d := CaseByte(s[i], u);
      assert w[..i + 1] == w[..i] + [w[i]];
      r := r + [d];
      u := !IsAlnum(s[i]);
      if i + 1 < |s| { Starts(s, i + 1); }
      i := i + 1;
    }
  }

  method HeaderCase(s: Bytes) returns (r: Bytes)
    ensures r == HeaderCased(s)
  {
    r := WordCase(s);
    var l := |r|;
    if l > 5 && r[..5] == MIME_ { r := MIME_UPPER + r[5..]; }
    if l > 3 && r[l - 3..] == ID_ { r := r[..l - 3] + ID_UPPER; }
  }

  lemma MIMEFixedLower(s: Bytes)
    ensures Lower(MIMEFixed(s)) == Lower(s)
  {
    if |s| > 5 && s[..5] == MIME_ {
      var r := MIMEFixed(s);
      forall k | 0 <= k < |s| ensures LowerByte(r[k]) == LowerByte(s[k]) {
        if k < 5 { assert s[k] == s[..5][k] == MIME_[k] && r[k] == MIME_UPPER[k]; } else { assert r[k] == s[k]; }
      }
    }
  }

  lemma IDFixedLower(s: Bytes)
    ensures Lower(IDFixed(s)) == Lower(s)
  {
    if |s| > 3 && s[|s| - 3..] == ID_ {
      var r, n := IDFixed(s), |s| - 3;
      forall k | 0 <= k < |s| ensures LowerByte(r[k]) == LowerByte(s[k]) {
        if k >= n { assert s[k] == s[n..][k - n] == ID_[k - n] && r[k] == ID_UPPER[k - n]; } else { assert r[k] == s[k]; }
      }
    }
  }

  /** Only the case of letters changes. */
  lemma CaseOnly(s: Bytes)
    ensures Lower(HeaderCased(s)) == Lower(s)
  {
    var w := WordCased(s);
    assert Lower(w) == Lower(s);
    MIMEFixedLower(w);
    IDFixedLower(MIMEFixed(w));
  }

  /** Two names are spelled alike exactly when they agree up to the case of ASCII letters. */
  lemma SameSpelling(a: Bytes, b: Bytes)
    ensures HeaderCased(a) == HeaderCased(b) <==> Lower(a) == Lower(b)
  {
    CaseOnly(a);
    CaseOnly(b);
    if Lower(a) == Lower(b) {
      assert |a| == |Lower(a)| == |b|;
      forall k | 0 <= k < |a| ensures WordCased(a)[k] == WordCased(b)[k] {
        assert Lower(a)[k] == Lower(b)[k];
        if k > 0 { assert Lower(a)[k - 1] == Lower(b)[k - 1]; }
      }
      assert WordCased(a) == WordCased(b);
    }
  }

  lemma Idempotent(s: Bytes)
    ensures HeaderCased(HeaderCased(s)) == HeaderCased(s)
  {
    CaseOnly(s);
    SameSpelling(HeaderCased(s), s);
  }
}
