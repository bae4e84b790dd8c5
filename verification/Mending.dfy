/**
  Exactly which headers `Repair` makes legal, name by name, in terms of the
  fields before it.
 */
module Mending {
  import opened Octets
  import opened Headers
  import opened HeaderRepair
  import NameSpelling
  import Names

  // ----------------------------------------------------- the fields of a name

  lemma {:induction false} NamedAt(fs: seq<Field>, n: Name, k: nat)
    requires k < Count(fs, n)
    ensures |Named(fs, n)| == Count(fs, n) && Named(fs, n)[k] == fs[FieldAt(fs, n, k)]
  {
    NamedCount(fs, n);
    if !(fs[0].name == n && k == 0) {
      var j := if fs[0].name == n then k - 1 else k;
      NamedAt(fs[1..], n, j);
      assert fs[1..][FieldAt(fs[1..], n, j)] == fs[FieldAt(fs, n, k)];
    }
  }

  lemma {:induction false} NamedIn(fs: seq<Field>, f: Field)
    ensures f in fs <==> f in Named(fs, f.name)
  {
    if fs != [] {
      NamedIn(fs[1..], f);
      assert f in fs <==> f == fs[0] || f in fs[1..];
    }
  }

  /** Removing fields and picking those of a name commute. */
  lemma {:induction false} NamedLeft(fs: seq<Field>, c: Cut, written: Field -> Bytes, n: Name)
    ensures Named(Left(fs, c, written), n) == Left(Named(fs, n), c, written)
  {
    hide Takes;
    if fs != [] {
      var f, t := fs[0], Left(fs[1..], c, written);
      NamedLeft(fs[1..], c, written, n);
      assert ([f] + t)[1..] == t;
      assert ([f] + Named(fs[1..], n))[1..] == Named(fs[1..], n);
    }
  }

  lemma {:induction false} LeftAlone(l: seq<Field>, c: Cut, written: Field -> Bytes)
    requires forall k :: 0 <= k < |l| ==> !Takes(c, l[k], written)
    ensures Left(l, c, written) == l
  {
    hide Takes;
    if l != [] { LeftAlone(l[1..], c, written); }
  }

  lemma {:induction false} LeftOver(l: seq<Field>, c: Cut, written: Field -> Bytes)
    ensures forall k :: 0 <= k < |Left(l, c, written)| ==> !Takes(c, Left(l, c, written)[k], written)
  {
    hide Takes;
    if l != [] { LeftOver(l[1..], c, written); }
  }

  /** A pass over the fields of another name. */
  lemma NamedOther(fs: seq<Field>, c: Cut, written: Field -> Bytes, n: Name)
    requires n != if c.All? then c.name else c.of.name
    ensures Named(Left(fs, c, written), n) == Named(fs, n)
  {
    NamedLeft(fs, c, written, n);
    LeftAlone(Named(fs, n), c, written);
  }

  predicate AllNamed(l: seq<Field>, n: Name) { forall k :: 0 <= k < |l| ==> l[k].name == n }

  lemma {:induction false} DistinctNamed(fs: seq<Field>, n: Name)
    requires Distinct(fs)
    ensures Distinct(Named(fs, n))
  {
    if fs != [] {
      var t := Named(fs[1..], n);
      assert forall i, j :: 0 <= i < j < |fs[1..]| ==> fs[1..][i] == fs[i + 1] && fs[1..][j] == fs[j + 1];
      DistinctNamed(fs[1..], n);
      if fs[0].name == n {
        forall j | 0 <= j < |t| ensures t[j].id != fs[0].id {
          NamedIn(fs[1..], t[j]);
          var i :| 0 <= i < |fs[1..]| && fs[1..][i] == t[j];
          assert fs[0].id != fs[i + 1].id;
        }
      }
    }
  }

  /** Of fields of one name, all but one. */
  lemma {:induction false} OnlyOne(l: seq<Field>, of: Field, written: Field -> Bytes)
    requires AllNamed(l, of.name) && Distinct(l) && of in l
    ensures Left(l, Others(of), written) == [of]
  {
    var t := l[1..];
    assert forall i :: 0 <= i < |t| ==> t[i] == l[i + 1];
    if l[0] == of {
      OthersNone(t, of, written);
      NoneOfName(t, of, written);
    } else {
      assert of in t;
      assert l[0].id != of.id by { var j :| 0 <= j < |t| && t[j] == of; }
      OnlyOne(t, of, written);
    }
  }

  lemma {:induction false} NoneOfName(l: seq<Field>, of: Field, written: Field -> Bytes)
    requires AllNamed(l, of.name) && forall i :: 0 <= i < |l| ==> l[i].id != of.id
    ensures Left(l, Others(of), written) == []
  {
    if l != [] { NoneOfName(l[1..], of, written); }
  }

  // ----------------------------------------------------- what the rules keep

  /** In that mode copies of a field of that name are removed. */
  predicate CopiesGo(n: Name, mode: Mode)
  {
    Single(n) && (mode == Mode.RFC5322 || n == MIMEVersion || n == ContentType || n == ContentTransferEncoding)
  }

  /** The fields that are not written like `f`. */
  function Unlike(l: seq<Field>, f: Field, written: Field -> Bytes): seq<Field>
  {
    if l == [] then [] else (if written(l[0]) != written(f) then [l[0]] else []) + Unlike(l[1..], f, written)
  }

  /** The first field, and the later ones that are not written like it. */
  function Kept(fs: seq<Field>, mode: Mode, written: Field -> Bytes, n: Name): seq<Field>
  {
    var l := Named(fs, n);
    if CopiesGo(n, mode) && l != [] then [l[0]] + Unlike(l[1..], l[0], written) else l
  }

  function Thinned(l: seq<Field>, go: bool, written: Field -> Bytes): seq<Field>
  {
    if go && l != [] then Left(l, Copies(l[0]), written) else l
  }

  lemma {:induction false} UnlikeLeft(l: seq<Field>, f: Field, written: Field -> Bytes)
    requires AllNamed(l, f.name) && forall k :: 0 <= k < |l| ==> l[k].id != f.id
    ensures Left(l, Copies(f), written) == Unlike(l, f, written)
  {
    if l != [] { UnlikeLeft(l[1..], f, written); }
  }

  predicate RuleBefore(k: nat, n: Name, mode: Mode)
    requires k <= |RULES|
  {
    exists j :: 0 <= j < k && RULES[j].name == n && RULES[j].mode == mode
  }

  lemma RuleMeans(n: Name, mode: Mode)
    ensures RuleBefore(|RULES|, n, mode) <==> CopiesGo(n, mode)
  {
    if CopiesGo(n, mode) {
      var j := RuleOf(n);
      if RULES[j].mode != mode {
        assert RULES[j + 1].name == n && RULES[j + 1].mode == mode;
      }
    }
    forall j | 0 <= j < |RULES| ensures CopiesGo(RULES[j].name, RULES[j].mode) { RuleShape(j); }
  }

  lemma ThinnedTwice(l: seq<Field>, a: bool, b: bool, written: Field -> Bytes)
    ensures Thinned(Thinned(l, a, written), b, written) == Thinned(l, a || b, written)
    ensures |l| <= 1 ==> Thinned(l, a, written) == l
  {
    if l != [] {
      var c := Copies(l[0]);
      LeftOver(l, c, written);
      LeftAlone(Left(l, c, written), c, written);
      assert Left(l, c, written) == [l[0]] + Left(l[1..], c, written);
      if |l| == 1 { assert l[1..] == [] && Left(l[1..], c, written) == []; }
    }
  }

  lemma DedupedByNamed(r: Rule, was: seq<Field>, fs: seq<Field>, mode: Mode, written: Field -> Bytes, n: Name)
    ensures Named(DedupedBy(r, was, fs, mode, written), n) ==
            Thinned(Named(fs, n), r.name == n && r.mode == mode && Count(was, n) > r.max, written)
  {
    hide Count, Takes, Left, Named;
    NamedCount(fs, r.name);
    if Count(fs, r.name) > 0 {
      NamedAt(fs, r.name, 0);
      var f := fs[FieldAt(fs, r.name, 0)];
      if r.name == n { NamedLeft(fs, Copies(f), written, n); } else { NamedOther(fs, Copies(f), written, n); }
    }
  }

  lemma RuleStep(k: nat, n: Name, mode: Mode)
    requires 0 < k <= |RULES|
    ensures RuleBefore(k, n, mode) <==> RuleBefore(k - 1, n, mode) || (RULES[k - 1].name == n && RULES[k - 1].mode == mode)
  {
  }

  lemma {:induction false} DedupedNamed(was: seq<Field>, k: nat, mode: Mode, written: Field -> Bytes, n: Name)
    requires k <= |RULES|
    ensures Named(Deduped(was, k, mode, written), n) == Thinned(Named(was, n), RuleBefore(k, n, mode), written)
  {
    hide Count, Named, DedupedBy, Thinned, RuleBefore;
    var l := Named(was, n);
    NamedCount(was, n);
    if k == 0 {
      ThinnedNot(l, n, mode, written);
    } else {
      var r, before := RULES[k - 1], RuleBefore(k - 1, n, mode);
      var now := r.name == n && r.mode == mode;
      DedupedNamed(was, k - 1, mode, written, n);
      DedupedByNamed(r, was, Deduped(was, k - 1, mode, written), mode, written, n);
      RuleShape(k - 1);
      RuleStep(k, n, mode);
      ThinnedTwice(l, before, now && |l| > 1, written);
      ThinnedTwice(l, before || now, false, written);
      ThinnedTwice(l, before || (now && |l| > 1), false, written);
    }
  }

  lemma ThinnedNot(l: seq<Field>, n: Name, mode: Mode, written: Field -> Bytes)
    ensures Thinned(l, RuleBefore(0, n, mode), written) == l
  {
  }

  lemma KeptNamed(was: seq<Field>, mode: Mode, written: Field -> Bytes, n: Name)
    requires Distinct(was)
    ensures Named(Deduped(was, |RULES|, mode, written), n) == Kept(was, mode, written, n)
  {
    hide Named, Deduped, RuleBefore, CopiesGo;
    DedupedNamed(was, |RULES|, mode, written, n);
    RuleMeans(n, mode);
    DistinctNamed(was, n);
    var l := Named(was, n);
    if l != [] { UnlikeLeft(l[1..], l[0], written); }
  }

  // ----------------------------------------------------------- content types

  lemma NamedAgain(l: seq<Field>, n: Name)
    requires AllNamed(l, n)
    ensures Named(l, n) == l
  {
    if l != [] { NamedAgain(l[1..], n); }
  }

  /** Which Content-Type is singled out depends on the Content-Types only. */
  lemma {:induction false} DetailedNamed(fs: seq<Field>, l: seq<Field>, k: nat, good: Option<Field>)
    requires l == Named(fs, ContentType) && 0 < Count(fs, ContentType) == Count(l, ContentType)
    ensures Detailed(fs, k, good) == Detailed(l, k, good)
    decreases Count(fs, ContentType) - k
  {
    hide Count, Named;
    SameNth(fs, l, 0);
    if k < Count(fs, ContentType) {
      SameNth(fs, l, k);
      DetailedNamed(fs, l, k + 1, good);
      DetailedNamed(fs, l, k + 1, Some(Nth(l, k)));
    }
  }

  lemma SameNth(fs: seq<Field>, l: seq<Field>, k: nat)
    requires l == Named(fs, ContentType) && k < Count(fs, ContentType) == Count(l, ContentType)
    ensures Nth(fs, k) == Nth(l, k)
  {
    hide Count, Named;
    NamedAt(fs, ContentType, k);
    NamedAgain(l, ContentType);
    NamedAt(l, ContentType, k);
  }

  /** The one with parameters if the Content-Types agree, or all of them. */
  function Chosen(l: seq<Field>): seq<Field>
  {
    if Count(l, ContentType) == 0 then l
    else
      match Detailed(l, 0, None)
      case None => l
      case Some(g) => [g]
  }

  lemma ChosenOne(l: seq<Field>)
    requires |l| <= 1 && AllNamed(l, ContentType)
    ensures Chosen(l) == l
  {
    NamedAgain(l, ContentType);
    NamedCount(l, ContentType);
    if |l| == 1 {
      DetailedIn(l, 0, None);
      var d := Detailed(l, 0, None);
      assert d.Some? ==> d.value == l[0];
    }
  }

  lemma ContentTypesNamed(was: seq<Field>, fs: seq<Field>, written: Field -> Bytes, n: Name)
    requires Distinct(fs) && SomeOf(fs, was)
    ensures var l := Named(fs, n);
            Named(OneContentType(was, fs, written), n) == if n == ContentType then Chosen(l) else l
  {
    hide Count, Named, Left, Detailed, SomeOf, Distinct;
    var l := Named(fs, ContentType);
    NamedCount(fs, ContentType);
    NamedAgain(l, ContentType);
    NamedCount(l, ContentType);
    SomeCount(fs, was, ContentType);
    if |l| <= 1 { ChosenOne(l); }
    if |l| > 0 {
      DetailedNamed(fs, l, 0, None);
      DetailedIn(l, 0, None);
      match Detailed(l, 0, None)
      case None =>
      case Some(g) =>
        if n == ContentType {
          NamedLeft(fs, Others(g), written, n);
          DistinctNamed(fs, n);
          OnlyOne(l, g, written);
        } else {
          NamedOther(fs, Others(g), written, n);
        }
    }
  }

  // ---------------------------------------------------------- kept once each

  function ValidOnes(l: seq<Field>): (r: seq<Field>)
    ensures AllValid(r)
  {
    if l == [] then [] else (if l[0].valid then [l[0]] else []) + ValidOnes(l[1..])
  }

  /** The valid ones if there are any. */
  function Preferred(l: seq<Field>): seq<Field> { if ValidOnes(l) != [] then ValidOnes(l) else l }

  /** The first valid one if there is any. */
  function FirstGood(l: seq<Field>): seq<Field> { if ValidOnes(l) != [] then [ValidOnes(l)[0]] else l }

  function OnceLeft(l: seq<Field>, n: Name): seq<Field>
  {
    if n == ContentType then Preferred(l) else if n in KEPT_ONCE then FirstGood(l) else l
  }

  /** The first valid field of a name, in the fields and among those of the name. */
  lemma {:induction false} FirstValidNamed(fs: seq<Field>, n: Name)
    ensures var i, v := FirstValid(fs, n), ValidOnes(Named(fs, n));
            (i < |fs| <==> v != []) && (i < |fs| ==> fs[i] == v[0] && fs[i] in Named(fs, n))
  {
    if fs != [] {
      FirstValidNamed(fs[1..], n);
      var t := Named(fs[1..], n);
      assert ([fs[0]] + t)[1..] == t;
    }
  }

  /** Removing the invalid ones other than a valid one. */
  lemma {:induction false} InvalidGone(l: seq<Field>, of: Field, written: Field -> Bytes)
    requires AllNamed(l, of.name) && of.valid && forall k :: 0 <= k < |l| && l[k].id == of.id ==> l[k] == of
    ensures Left(l, InvalidOthers(of), written) == ValidOnes(l)
  {
    if l != [] {
      var t := l[1..];
      assert forall k :: 0 <= k < |t| ==> t[k] == l[k + 1];
      InvalidGone(t, of, written);
    }
  }

  lemma SameId(l: seq<Field>, of: Field)
    requires Distinct(l) && of in l
    ensures forall k :: 0 <= k < |l| && l[k].id == of.id ==> l[k] == of
  {
    var j :| 0 <= j < |l| && l[j] == of;
  }

  lemma OnceLeftOne(l: seq<Field>, n: Name)
    requires |l| <= 1
    ensures OnceLeft(l, n) == l
  {
    if |l| == 1 {
      assert l[1..] == [] && ValidOnes(l[1..]) == [];
      assert ValidOnes(l) == if l[0].valid then l else [];
    }
  }

  lemma KeptOnceNamed(m: Name, was: seq<Field>, fs: seq<Field>, written: Field -> Bytes, n: Name)
    requires Distinct(fs) && SomeOf(fs, was) && m in KEPT_ONCE
    ensures var l := Named(fs, n); Named(KeptOnce(m, was, fs, written), n) == if n == m then OnceLeft(l, n) else l
  {
    hide Count, Named, Left, SomeOf, Distinct, ValidOnes;
    var l, i := Named(fs, m), FirstValid(fs, m);
    NamedCount(fs, m);
    SomeCount(fs, was, m);
    FirstValidNamed(fs, m);
    DistinctNamed(fs, m);
    if |l| <= 1 { OnceLeftOne(l, m); }
    if i < |fs| {
      var c := if m == ContentType then InvalidOthers(fs[i]) else Others(fs[i]);
      if n == m {
        NamedLeft(fs, c, written, n);
        SameId(l, fs[i]);
        if m == ContentType { InvalidGone(l, fs[i], written); } else { OnlyOne(l, fs[i], written); }
      } else {
        NamedOther(fs, c, written, n);
      }
    }
  }

  /** After the first `k` of the names that are looked at. */
  lemma {:induction false} AllKeptOnceNamed(k: nat, was: seq<Field>, fs: seq<Field>, written: Field -> Bytes, n: Name)
    requires k <= |KEPT_ONCE| && Distinct(was) && SomeOf(fs, was)
    ensures var l := Named(fs, n);
            Named(AllKeptOnce(k, was, fs, written), n) == if n in KEPT_ONCE[..k] then OnceLeft(l, n) else l
  {
    hide Named, SomeOf, Distinct, KeptOnce, OnceLeft;
    if k > 0 {
      var r, m := AllKeptOnce(k - 1, was, fs, written), KEPT_ONCE[k - 1];
      AllKeptOnceNamed(k - 1, was, fs, written, n);
      AllKeptOnceShrinks(k - 1, was, fs, written, n);
      SomeTrans(r, fs, was);
      SomeDistinct(r, was);
      KeptOnceNamed(m, was, r, written, n);
      assert KEPT_ONCE[..k] == KEPT_ONCE[..k - 1] + [m];
      NotYet(k);
    }
  }

  lemma NotYet(k: nat)
    requires 0 < k <= |KEPT_ONCE|
    ensures KEPT_ONCE[k - 1] !in KEPT_ONCE[..k - 1]
  {
  }

  // ---------------------------------------------------------------- versions

  lemma WithoutCons(fs: seq<Field>, i: nat)
    requires 0 < i < |fs|
    ensures var r := Without(fs, i); r != [] && r[0] == fs[0] && r[1..] == Without(fs[1..], i - 1)
  {
  }

  lemma {:induction false} NamedDrop(fs: seq<Field>, i: nat, m: Name)
    requires i < |fs| && fs[i].name != m
    ensures Named(Without(fs, i), m) == Named(fs, m)
  {
    hide Without;
    if i == 0 { WithoutFirst(fs); } else {
      WithoutCons(fs, i);
      NamedDrop(fs[1..], i - 1, m);
    }
  }

  lemma WithoutFirst(fs: seq<Field>)
    requires fs != []
    ensures Without(fs, 0) == fs[1..]
  {
  }

  lemma DropCons<T>(x: T, l: seq<T>, k: nat)
    requires k < |l|
    ensures var r := [x] + l; r[..k + 1] + r[k + 2..] == [x] + (l[..k] + l[k + 1..])
  {
  }

  lemma {:induction false} NamedWithout(fs: seq<Field>, n: Name, k: nat)
    requires k < Count(fs, n)
    ensures |Named(fs, n)| == Count(fs, n)
    ensures Named(Without(fs, FieldAt(fs, n, k)), n) == Named(fs, n)[..k] + Named(fs, n)[k + 1..]
  {
    hide Without;
    NamedCount(fs, n);
    var i, t := FieldAt(fs, n, k), fs[1..];
    if i == 0 {
      WithoutFirst(fs);
      assert Named(fs, n)[1..] == Named(t, n);
    } else {
      var j := if fs[0].name == n then k - 1 else k;
      WithoutCons(fs, i);
      NamedWithout(t, n, j);
      if fs[0].name == n { DropCons(fs[0], Named(t, n), j); }
    }
  }

  /** The second goes, the first is rewritten. */
  lemma VersionNamed(was: seq<Field>, fs: seq<Field>, note: nat -> Bytes, n: Name)
    ensures var l, r := Named(fs, n), Named(OneVersion(was, fs, note), n);
            r == if n == MIMEVersion && |l| >= 2 then [Rewritten(l[0], note(Count(was, MIMEVersion)))] + l[2..] else l
  {
    hide Count, Named;
    var l := Named(fs, MIMEVersion);
    NamedCount(fs, MIMEVersion);
    if |l| >= 2 {
      NamedWithout(fs, MIMEVersion, 1);
      if n != MIMEVersion { NamedDrop(fs, FieldAt(fs, MIMEVersion, 1), n); }
      var r := Without(fs, FieldAt(fs, MIMEVersion, 1));
      NamedCount(r, MIMEVersion);
      var k := FieldAt(r, MIMEVersion, 0);
      NamedAt(r, MIMEVersion, 0);
      NamedUpdate(r, MIMEVersion, Rewritten(r[k], note(Count(was, MIMEVersion))), n);
    }
  }

  // ------------------------------------------------------------ what is left

  /** The Content-Types that are left. */
  function TypesLeft(fs: seq<Field>, mode: Mode, written: Field -> Bytes): seq<Field>
  {
    Preferred(Chosen(Kept(fs, mode, written, ContentType)))
  }

  lemma HalfNamed(was: seq<Field>, mode: Mode, written: Field -> Bytes, note: nat -> Bytes, n: Name)
    requires Distinct(was)
    ensures var k, r := Kept(was, mode, written, n), Named(HalfRepaired(was, mode, written, note), n);
            if n == ContentType then r == TypesLeft(was, mode, written)
            else if n == MIMEVersion && |k| >= 2 then r == [Rewritten(k[0], note(Count(was, MIMEVersion)))] + k[2..]
            else r == OnceLeft(k, n)
  {
    hide Named, Distinct, SomeOf, Count, Kept, Chosen, Preferred, FirstGood, Deduped, OneContentType, AllKeptOnce, OneVersion;
    var a := Deduped(was, |RULES|, mode, written);
    var b := OneContentType(was, a, written);
    var c := AllKeptOnce(|KEPT_ONCE|, was, b, written);
    DedupedShrinks(was, |RULES|, mode, written, n);
    SomeDistinct(a, was);
    OneContentTypeShrinks(was, a, written, n);
    SomeTrans(b, a, was);
    KeptNamed(was, mode, written, n);
    ContentTypesNamed(was, a, written, n);
    AllKeptOnceNamed(|KEPT_ONCE|, was, b, written, n);
    assert KEPT_ONCE[..|KEPT_ONCE|] == KEPT_ONCE && ContentType == KEPT_ONCE[4];
    VersionNamed(was, c, note, n);
  }

  /** Multiparts and messages. */
  lemma CompositeMeans(f: Field)
    ensures Composite(f) <==> IsText(f.data.typ, "multipart") || IsText(f.data.typ, "message")
  {
    hide IsText;
    NameSpelling.MediaSpelled();
    SameText(Names.MULTIPART, f.data.typ, "multipart");
    SameText(Names.MESSAGE, f.data.typ, "message");
  }

  lemma NamedNone(fs: seq<Field>, n: Name, written: Field -> Bytes)
    ensures Named(Left(fs, All(n), written), n) == []
  {
    NamedCount(Left(fs, All(n), written), n);
    LeftAllCount(fs, n, n, written);
  }

  lemma FirstNamed(fs: seq<Field>, n: Name)
    ensures FieldAt(fs, n, 0) == |fs| <==> Named(fs, n) == []
    ensures Named(fs, n) != [] ==> fs[FieldAt(fs, n, 0)] == Named(fs, n)[0]
  {
    NamedCount(fs, n);
    if Count(fs, n) > 0 { NamedAt(fs, n, 0); }
  }

  lemma EncodingNamed(was: seq<Field>, d: seq<Field>, written: Field -> Bytes, n: Name)
    requires SomeOf(d, was)
    ensures var t, l := Named(d, ContentType), Named(d, n);
            Named(WithoutEncoding(was, d, written), n) ==
            if n == ContentTransferEncoding && t != [] && Composite(t[0]) then [] else l
  {
    hide Named, Count, Left, SomeOf, Composite;
    FirstNamed(d, ContentType);
    SomeCount(d, was, ContentTransferEncoding);
    NamedCount(d, ContentTransferEncoding);
    if n == ContentTransferEncoding { NamedNone(d, n, written); } else { NamedOther(d, All(ContentTransferEncoding), written, n); }
  }

  lemma SenderNamed(was: seq<Field>, e: seq<Field>, written: Field -> Bytes, n: Name)
    requires SomeOf(e, was)
    ensures var l := Named(e, n);
            Named(WithoutSender(was, e, written), n) ==
            if n == Sender && l != [] && |l[0].data.addresses| != 1 then [] else l
  {
    hide Named, Count, Left, SomeOf;
    FirstNamed(e, Sender);
    SomeCount(e, was, Sender);
    NamedCount(e, Sender);
    if n == Sender { NamedNone(e, n, written); } else { NamedOther(e, All(Sender), written, n); }
  }

  // ------------------------------------------------------------------ verdict

  predicate NameOk(l: seq<Field>, n: Name, mode: Mode)
  {
    && AllValid(l) && (Single(n) ==> |l| <= 1)
    && (mode == Mode.RFC5322 && (n == From || n == Date) ==> l != [])
  }

  ghost predicate AllOk(fs: seq<Field>, mode: Mode) { forall n: Name :: NameOk(Named(fs, n), n, mode) }

  ghost predicate AllMend(fs: seq<Field>, mode: Mode, written: Field -> Bytes)
  {
    forall n: Name :: Mends(fs, mode, written, n)
  }

  lemma LegalByName(fs: seq<Field>, mode: Mode)
    ensures Legal(fs, mode) <==> AllOk(fs, mode)
  {
    hide Count, Named, Obeys;
    LegalMeans(fs, mode);
    forall n: Name ensures |Named(fs, n)| == Count(fs, n) { NamedCount(fs, n); }
    if Legal(fs, mode) {
      forall n: Name ensures NameOk(Named(fs, n), n, mode) { ValidNamed(fs, n); }
    }
    if AllOk(fs, mode) {
      forall i | 0 <= i < |fs| ensures fs[i].valid {
        NamedIn(fs, fs[i]);
        assert NameOk(Named(fs, fs[i].name), fs[i].name, mode);
      }
      assert NameOk(Named(fs, From), From, mode) && NameOk(Named(fs, Date), Date, mode);
      forall n: Name | Single(n) ensures Count(fs, n) <= 1 { assert NameOk(Named(fs, n), n, mode); }
    }
  }

  lemma ValidNamed(fs: seq<Field>, n: Name)
    requires AllValid(fs)
    ensures AllValid(Named(fs, n))
  {
    var l := Named(fs, n);
    forall k | 0 <= k < |l| ensures l[k].valid { NamedIn(fs, l[k]); }
  }

  /** What it takes for repairing to leave the fields of that name in order. */
  predicate Mends(fs: seq<Field>, mode: Mode, written: Field -> Bytes, n: Name)
  {
    var k, t := Kept(fs, mode, written, n), TypesLeft(fs, mode, written);
    match n
    case Other(_) => AllValid(k)
    case ReturnPath => k == [] || ValidOnes(k) != []
    case MessageID => k == [] || ValidOnes(k) != []
    case References => k == [] || ValidOnes(k) != []
    case Date => ValidOnes(k) != [] || (k == [] && mode == Mode.MIME)
    case MIMEVersion => |k| <= 2 && (k != [] ==> k[0].valid)
    case ContentType => |t| <= 1 && AllValid(t)
    case ContentTransferEncoding => (|k| <= 1 && AllValid(k)) || (t != [] && Composite(t[0]))
    case Sender => (|k| <= 1 && AllValid(k)) || |k[0].data.addresses| != 1
    case From => |k| <= 1 && AllValid(k) && (mode == Mode.RFC5322 ==> k != [])
    case To => |k| <= 1 && AllValid(k)
    case Cc => |k| <= 1 && AllValid(k)
    case Bcc => |k| <= 1 && AllValid(k)
    case ReplyTo => |k| <= 1 && AllValid(k)
    case Subject => |k| <= 1 && AllValid(k)
  }

  /** Only the names that occur matter, and those that must. */
  predicate Mendable(fs: seq<Field>, mode: Mode, written: Field -> Bytes)
  {
    && (forall i :: 0 <= i < |fs| ==> Mends(fs, mode, written, fs[i].name))
    && Mends(fs, mode, written, From) && Mends(fs, mode, written, Date)
  }

  lemma NotThere(fs: seq<Field>, mode: Mode, written: Field -> Bytes, n: Name)
    requires n != From && n != Date && forall i :: 0 <= i < |fs| ==> fs[i].name != n
    ensures Mends(fs, mode, written, n)
  {
    hide Count, Left;
    var l := Named(fs, n);
    assert l == [] by { if l != [] { NamedIn(fs, l[0]); } }
    NamedCount(l, n);
  }

  lemma MendableMeans(fs: seq<Field>, mode: Mode, written: Field -> Bytes)
    ensures Mendable(fs, mode, written) <==> AllMend(fs, mode, written)
  {
    hide Mends;
    if Mendable(fs, mode, written) {
      forall n: Name ensures Mends(fs, mode, written, n) {
        if n != From && n != Date && forall i :: 0 <= i < |fs| ==> fs[i].name != n { NotThere(fs, mode, written, n); }
      }
    }
  }

  lemma OnceOk(k: seq<Field>, n: Name)
    requires n in KEPT_ONCE && n != ContentType && AllNamed(k, n)
    ensures var r := OnceLeft(k, n);
            (AllValid(r) && |r| <= 1 <==> k == [] || ValidOnes(k) != []) && (r == [] <==> k == [])
  {
    if k != [] && ValidOnes(k) == [] { NotAllValid(k); }
  }

  lemma NotAllValid(k: seq<Field>)
    requires k != [] && ValidOnes(k) == []
    ensures !AllValid(k)
  {
    assert !k[0].valid;
  }

  /**
    What is left of the fields of a name, where `k` were kept at first, `t` are
    the types left and `text` is the note on how many MIME-Versions there were.
   */
  predicate Leaves(r: seq<Field>, k: seq<Field>, t: seq<Field>, text: Bytes, n: Name)
  {
    if n == ContentType then r == t
    else if n == MIMEVersion && |k| >= 2 then r == [Rewritten(k[0], text)] + k[2..]
    else if n == ContentTransferEncoding && t != [] && Composite(t[0]) then r == []
    else if n == Sender && k != [] && |k[0].data.addresses| != 1 then r == []
    else r == OnceLeft(k, n)
  }

  lemma WhatIsLeft(was: seq<Field>, mode: Mode, written: Field -> Bytes, note: nat -> Bytes, n: Name)
    requires Distinct(was)
    ensures var d := HalfRepaired(was, mode, written, note);
            var r := Named(WithoutSender(was, WithoutEncoding(was, d, written), written), n);
            Leaves(r, Kept(was, mode, written, n), TypesLeft(was, mode, written), note(|Named(was, MIMEVersion)|), n)
  {
    hide Named, Distinct, SomeOf, Count, Kept, TypesLeft, ValidOnes, HalfRepaired, WithoutSender, WithoutEncoding, Composite, Left;
    var d := HalfRepaired(was, mode, written, note);
    var e := WithoutEncoding(was, d, written);
    HalfShrinks(was, mode, written, note, n);
    EncodingSome(was, d, written);
    SomeTrans(e, d, was);
    HalfNamed(was, mode, written, note, n);
    HalfNamed(was, mode, written, note, ContentType);
    NamedCount(was, MIMEVersion);
    EncodingNamed(was, d, written, n);
    SenderNamed(was, e, written, n);
    NotKeptOnce(n);
  }

  lemma LeavesOk(r: seq<Field>, was: seq<Field>, mode: Mode, written: Field -> Bytes, text: Bytes, n: Name)
    requires Leaves(r, Kept(was, mode, written, n), TypesLeft(was, mode, written), text, n)
    ensures NameOk(r, n, mode) <==> Mends(was, mode, written, n)
  {
    hide Kept, TypesLeft, ValidOnes, Composite;
    var k := Kept(was, mode, written, n);
    KeptName(was, mode, written, n);
    NotKeptOnce(n);
    if n in KEPT_ONCE && n != ContentType { OnceOk(k, n); }
    if n == MIMEVersion && |k| >= 2 { assert |r| == |k| - 1 && r[0].valid == k[0].valid; }
  }

  /** Name by name, what is left is in order exactly if it takes no more than that. */
  lemma NameMended(was: seq<Field>, mode: Mode, written: Field -> Bytes, note: nat -> Bytes, n: Name)
    requires Distinct(was)
    ensures var d := HalfRepaired(was, mode, written, note);
            NameOk(Named(WithoutSender(was, WithoutEncoding(was, d, written), written), n), n, mode) <==> Mends(was, mode, written, n)
  {
    hide Named, Distinct, Kept, TypesLeft, HalfRepaired, WithoutSender, WithoutEncoding, Leaves, NameOk, Mends;
    var d := HalfRepaired(was, mode, written, note);
    WhatIsLeft(was, mode, written, note, n);
    LeavesOk(Named(WithoutSender(was, WithoutEncoding(was, d, written), written), n), was, mode, written, note(|Named(was, MIMEVersion)|), n);
  }

  lemma NotKeptOnce(n: Name)
    ensures n in KEPT_ONCE <==> n == ReturnPath || n == MessageID || n == References || n == Date || n == ContentType
  {
    assert KEPT_ONCE[0] == ReturnPath && KEPT_ONCE[1] == MessageID && KEPT_ONCE[2] == References;
    assert KEPT_ONCE[3] == Date && KEPT_ONCE[4] == ContentType;
  }

  lemma KeptName(was: seq<Field>, mode: Mode, written: Field -> Bytes, n: Name)
    ensures AllNamed(Kept(was, mode, written, n), n)
  {
    hide Named;
    var l := Named(was, n);
    if l != [] { UnlikeNamed(l[1..], l[0], written, n); }
  }

  lemma {:induction false} UnlikeNamed(l: seq<Field>, f: Field, written: Field -> Bytes, n: Name)
    requires AllNamed(l, n)
    ensures AllNamed(Unlike(l, f, written), n)
  {
    if l != [] { UnlikeNamed(l[1..], f, written, n); }
  }

  lemma EncodingSome(was: seq<Field>, d: seq<Field>, written: Field -> Bytes)
    ensures SomeOf(WithoutEncoding(was, d, written), d)
  {
    hide Count, Left, SomeOf;
    SomeAll(d);
    SomeLeft(d, All(ContentTransferEncoding), written);
  }

  /** Repairing makes a header legal exactly if it is mendable. */
  lemma Mended(h: State, written: Field -> Bytes, note: nat -> Bytes)
    requires Distinct(h.fields) && Checked(h).err && Repaired(h, written, note).Done?
    ensures Legal(Repaired(h, written, note).state.fields, h.mode) <==> Mendable(h.fields, h.mode, written)
  {
    hide Named, Distinct, HalfRepaired, WithoutSender, WithoutEncoding, NameOk, Mends, Mendable, Legal, Count;
    var d := HalfRepaired(h.fields, h.mode, written, note);
    var r := WithoutSender(h.fields, WithoutEncoding(h.fields, d, written), written);
    assert Repaired(h, written, note).state.fields == r;
    LegalByName(r, h.mode);
    MendableMeans(h.fields, h.mode, written);
    if AllOk(r, h.mode) {
      forall n: Name ensures Mends(h.fields, h.mode, written, n) { NameMended(h.fields, h.mode, written, note, n); }
    }
    if AllMend(h.fields, h.mode, written) {
      forall n: Name ensures NameOk(Named(r, n), n, h.mode) { NameMended(h.fields, h.mode, written, note, n); }
    }
  }

  /** What is remembered after repairing is wrong exactly if an invalid header was mendable. */
  lemma HonestAfterRepair(h: State, written: Field -> Bytes, note: nat -> Bytes)
    requires Honest(h) && Distinct(h.fields) && Repaired(h, written, note).Done?
    ensures Honest(Repaired(h, written, note).state) <==> !(Checked(h).err && Mendable(h.fields, h.mode, written))
  {
    hide Distinct, Mendable, Legal, HalfRepaired, WithoutSender, WithoutEncoding;
    VerdictStays(h, written, note);
    if Checked(h).err { Mended(h, written, note); }
  }
}
