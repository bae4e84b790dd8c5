/**
  Repairing a header without its body: what is removed, what always stays, and
  what becomes of the remembered verdict.
 */
module HeaderRepair {
  import opened Octets
  import opened Headers
  import Names

  // ---------------------------------------------------------------- removing

  /** Which fields one pass of removals takes. */
  datatype Cut =
    | Copies(of: Field)         // later fields that are written like `of`
    | Others(of: Field)         // fields with the name of `of`
    | InvalidOthers(of: Field)  // likewise, if they have an error
    | All(name: Name)

  predicate Takes(c: Cut, f: Field, written: Field -> Bytes)
  {
    match c
    case Copies(of) => f.name == of.name && f.id != of.id && written(f) == written(of)
    case Others(of) => f.name == of.name && f.id != of.id
    case InvalidOthers(of) => f.name == of.name && f.id != of.id && !f.valid
    case All(n) => f.name == n
  }

  function Left(fs: seq<Field>, c: Cut, written: Field -> Bytes): seq<Field>
  {
    if fs == [] then []
    else if Takes(c, fs[0], written) then Left(fs[1..], c, written)
    else [fs[0]] + Left(fs[1..], c, written)
  }

  lemma LeftStep(fs: seq<Field>, i: nat, c: Cut, written: Field -> Bytes)
    requires i < |fs|
    ensures fs[..i] + Left(fs[i..], c, written) ==
            (if Takes(c, fs[i], written) then fs[..i] else fs[..i + 1]) + Left(fs[i + 1..], c, written)
  {
    hide Takes;
    assert fs[i..][1..] == fs[i + 1..];
    assert fs[..i + 1] == fs[..i] + [fs[i]];
  }

  predicate Distinct(fs: seq<Field>)
  {
    forall i, j :: 0 <= i < j < |fs| ==> fs[i].id != fs[j].id
  }

  // ------------------------------------------------------------------ stages

  // In every stage `was` are the fields before the repair: occurrences are counted once.

  /** Later fields written like the first one of that name go. */
  function DedupedBy(r: Rule, was: seq<Field>, fs: seq<Field>, mode: Mode, written: Field -> Bytes): seq<Field>
  {
    var i := FieldAt(fs, r.name, 0);
    if r.mode == mode && Count(was, r.name) > r.max && i < |fs| then Left(fs, Copies(fs[i]), written) else fs
  }

  function Deduped(was: seq<Field>, k: nat, mode: Mode, written: Field -> Bytes): seq<Field>
    requires k <= |RULES|
  {
    if k == 0 then was else DedupedBy(RULES[k - 1], was, Deduped(was, k - 1, mode, written), mode, written)
  }

  /**
    The only Content-Type with parameters, provided that all of them agree on
    type and subtype; `good` is the one found among the first `k`.
   */
  function Detailed(fs: seq<Field>, k: nat, good: Option<Field>): Option<Field>
    requires 0 < Count(fs, ContentType)
    decreases Count(fs, ContentType) - k
  {
    var ct, i := fs[FieldAt(fs, ContentType, 0)], FieldAt(fs, ContentType, k);
    if i == |fs| then good
    else if fs[i].data.typ != ct.data.typ || fs[i].data.subtype != ct.data.subtype then None
    else if fs[i].data.parameters == 0 then Detailed(fs, k + 1, good)
    else if good.Some? then None
    else Detailed(fs, k + 1, Some(fs[i]))
  }

  function OneContentType(was: seq<Field>, fs: seq<Field>, written: Field -> Bytes): seq<Field>
  {
    if Count(was, ContentType) <= 1 || Count(fs, ContentType) == 0 then fs
    else
      match Detailed(fs, 0, None)
      case None => fs
      case Some(g) => Left(fs, Others(g), written)
  }

  function FirstValid(fs: seq<Field>, n: Name): (i: nat)
    ensures i <= |fs|
    ensures i < |fs| ==> fs[i].name == n && fs[i].valid
    ensures forall j :: 0 <= j < i ==> !(fs[j].name == n && fs[j].valid)
  {
    if fs == [] || (fs[0].name == n && fs[0].valid) then 0 else 1 + FirstValid(fs[1..], n)
  }

  /** The names looked at, in the order of the table of names. */
  const KEPT_ONCE: seq<Name> := [ReturnPath, MessageID, References, Date, ContentType]

  /** If a field of that name is valid, the first such one stays; of the others the invalid ones go, or all. */
  function KeptOnce(n: Name, was: seq<Field>, fs: seq<Field>, written: Field -> Bytes): seq<Field>
  {
    var i := FirstValid(fs, n);
    if Count(was, n) <= 1 || i == |fs| then fs
    else Left(fs, if n == ContentType then InvalidOthers(fs[i]) else Others(fs[i]), written)
  }

  function AllKeptOnce(k: nat, was: seq<Field>, fs: seq<Field>, written: Field -> Bytes): seq<Field>
    requires k <= |KEPT_ONCE|
  {
    if k == 0 then fs else KeptOnce(KEPT_ONCE[k - 1], was, AllKeptOnce(k - 1, was, fs, written), written)
  }

  function Rewritten(f: Field, text: Bytes): Field { f.(data := f.data.(text := text)) }

  /** The second MIME-Version goes and the first one says how many there were. */
  function OneVersion(was: seq<Field>, fs: seq<Field>, note: nat -> Bytes): seq<Field>
  {
    var i := FieldAt(fs, MIMEVersion, 1);
    if i == |fs| then fs
    else
      var r := Without(fs, i);
      var k := FieldAt(r, MIMEVersion, 0);
      if k == |r| then r else r[k := Rewritten(r[k], note(Count(was, MIMEVersion)))]
  }

  /** Whether a Content-Transfer-Encoding has no business there. */
  predicate Composite(f: Field) { f.data.typ == Names.MULTIPART || f.data.typ == Names.MESSAGE }

  function WithoutEncoding(was: seq<Field>, fs: seq<Field>, written: Field -> Bytes): seq<Field>
  {
    var i := FieldAt(fs, ContentType, 0);
    if Count(was, ContentTransferEncoding) > 0 && i < |fs| && Composite(fs[i])
    then Left(fs, All(ContentTransferEncoding), written) else fs
  }

  function Senders(fs: seq<Field>): nat
  {
    var i := FieldAt(fs, Sender, 0);
    if i == |fs| then 0 else |fs[i].data.addresses|
  }

  /** The loop that is to compare Sender with From never runs: any Sender but a single address goes. */
  function WithoutSender(was: seq<Field>, fs: seq<Field>, written: Field -> Bytes): seq<Field>
  {
    if Count(was, Sender) > 0 && Senders(fs) != 1 then Left(fs, All(Sender), written) else fs
  }

  /** Up to where the first Content-Type is dereferenced. */
  function HalfRepaired(was: seq<Field>, mode: Mode, written: Field -> Bytes, note: nat -> Bytes): seq<Field>
  {
    var a := Deduped(was, |RULES|, mode, written);
    var b := OneContentType(was, a, written);
    var c := AllKeptOnce(|KEPT_ONCE|, was, b, written);
    OneVersion(was, c, note)
  }

  datatype Outcome = Done(state: State) | Crash

  /** The remembered verdict is not reset. */
  function Repaired(h: State, written: Field -> Bytes, note: nat -> Bytes): Outcome
  {
    var c := Checked(h);
    if !c.err then Done(c)
    else
      var was := c.fields;
      var d := HalfRepaired(was, h.mode, written, note);
      if Count(was, ContentTransferEncoding) > 0 && Count(d, ContentType) == 0 then Crash
      else Done(c.(fields := WithoutSender(was, WithoutEncoding(was, d, written), written)))
  }

  // ------------------------------------------------------------ subsequences

  /** The same field, except for what the repair may note in a MIME-Version. */
  predicate Same(a: Field, b: Field)
  {
    a == b || (b.name == MIMEVersion && a == Rewritten(b, a.data.text))
  }

  /** `r` are some of the fields `fs`, in the same order. */
  predicate SomeOf(r: seq<Field>, fs: seq<Field>)
    decreases |fs|
  {
    r == [] || (fs != [] && ((Same(r[0], fs[0]) && SomeOf(r[1..], fs[1..])) || SomeOf(r, fs[1..])))
  }

  lemma {:induction false} SomeAll(fs: seq<Field>)
    ensures SomeOf(fs, fs)
  {
    if fs != [] { SomeAll(fs[1..]); }
  }

  lemma {:induction false} SomeTrans(a: seq<Field>, b: seq<Field>, c: seq<Field>)
    requires SomeOf(a, b) && SomeOf(b, c)
    ensures SomeOf(a, c)
    decreases |c|
  {
    if a != [] {
      if SomeOf(b, c[1..]) {
        SomeTrans(a, b, c[1..]);
      } else if SomeOf(a, b[1..]) {
        SomeTrans(a, b[1..], c[1..]);
      } else {
        SomeTrans(a[1..], b[1..], c[1..]);
      }
    }
  }

  lemma {:induction false} SomeLeft(fs: seq<Field>, c: Cut, written: Field -> Bytes)
    ensures SomeOf(Left(fs, c, written), fs)
  {
    if fs != [] {
      SomeLeft(fs[1..], c, written);
      assert ([fs[0]] + Left(fs[1..], c, written))[1..] == Left(fs[1..], c, written);
    }
  }

  lemma {:induction false} SomeWithout(fs: seq<Field>, i: nat)
    requires i < |fs|
    ensures SomeOf(Without(fs, i), fs)
  {
    if i == 0 {
      assert Without(fs, 0) == fs[1..];
      SomeAll(fs[1..]);
    } else {
      assert Without(fs, i)[1..] == Without(fs[1..], i - 1);
      SomeWithout(fs[1..], i - 1);
    }
  }

  lemma {:induction false} SomeRewritten(fs: seq<Field>, i: nat, text: Bytes)
    requires i < |fs| && fs[i].name == MIMEVersion
    ensures SomeOf(fs[i := Rewritten(fs[i], text)], fs)
  {
    var r := fs[i := Rewritten(fs[i], text)];
    if i == 0 {
      assert r[1..] == fs[1..];
      SomeAll(fs[1..]);
    } else {
      assert r[1..] == fs[1..][i - 1 := Rewritten(fs[i], text)];
      SomeRewritten(fs[1..], i - 1, text);
    }
  }

  lemma {:induction false} SomeCount(r: seq<Field>, fs: seq<Field>, n: Name)
    requires SomeOf(r, fs)
    ensures Count(r, n) <= Count(fs, n)
    decreases |fs|
  {
    if r != [] {
      if SomeOf(r, fs[1..]) { SomeCount(r, fs[1..], n); } else { SomeCount(r[1..], fs[1..], n); }
    }
  }

  /** Every field left was there before. */
  lemma {:induction false} SomeFrom(r: seq<Field>, fs: seq<Field>, j: nat) returns (i: nat)
    requires SomeOf(r, fs) && j < |r|
    ensures j <= i < |fs| && Same(r[j], fs[i])
    decreases |fs|
  {
    if SomeOf(r, fs[1..]) {
      i := SomeFrom(r, fs[1..], j);
      i := i + 1;
    } else if j == 0 {
      i := 0;
    } else {
      i := SomeFrom(r[1..], fs[1..], j - 1);
      i := i + 1;
    }
  }

  lemma {:induction false} SomeDistinct(r: seq<Field>, fs: seq<Field>)
    requires SomeOf(r, fs) && Distinct(fs)
    ensures Distinct(r)
    decreases |fs|
  {
    if r != [] {
      if SomeOf(r, fs[1..]) {
        SomeDistinct(r, fs[1..]);
      } else {
        SomeDistinct(r[1..], fs[1..]);
        forall i, j | 0 <= i < j < |r| ensures r[i].id != r[j].id {
          if i == 0 {
            var k := SomeFrom(r[1..], fs[1..], j - 1);
            assert fs[1..][k] == fs[k + 1];
          } else {
            assert r[i] == r[1..][i - 1] && r[j] == r[1..][j - 1];
          }
        }
      }
    }
  }

  // --------------------------------------------------------------- shrinking

  /** Nothing is added or moved, and the name does not vanish. */
  predicate Shrunk(r: seq<Field>, fs: seq<Field>, n: Name)
  {
    SomeOf(r, fs) && (Count(fs, n) > 0 ==> Count(r, n) > 0)
  }

  lemma ShrunkTrans(a: seq<Field>, b: seq<Field>, c: seq<Field>, n: Name)
    requires Shrunk(a, b, n) && Shrunk(b, c, n)
    ensures Shrunk(a, c, n)
  {
    SomeTrans(a, b, c);
  }

  lemma {:induction false} StaysIn(fs: seq<Field>, i: nat, c: Cut, written: Field -> Bytes)
    requires i < |fs| && !Takes(c, fs[i], written)
    ensures Count(Left(fs, c, written), fs[i].name) > 0
  {
    var t := Left(fs[1..], c, written);
    assert ([fs[0]] + t)[1..] == t;
    if i > 0 { StaysIn(fs[1..], i - 1, c, written); }
  }

  /** A pass keeps the field it is about; only a pass over all fields of a name makes that name vanish. */
  lemma LeftShrinks(fs: seq<Field>, c: Cut, written: Field -> Bytes, n: Name)
    requires if c.All? then c.name != n else c.of in fs
    ensures Shrunk(Left(fs, c, written), fs, n)
  {
    hide Left;
    SomeLeft(fs, c, written);
    if Count(fs, n) > 0 {
      var i := FieldAt(fs, n, 0);
      if !c.All? && c.of.name == n { i :| 0 <= i < |fs| && fs[i] == c.of; }
      StaysIn(fs, i, c, written);
    }
  }

  lemma {:induction false} DedupedShrinks(was: seq<Field>, k: nat, mode: Mode, written: Field -> Bytes, n: Name)
    requires k <= |RULES|
    ensures Shrunk(Deduped(was, k, mode, written), was, n)
  {
    hide SomeOf, Left, Count;
    if k == 0 {
      SomeAll(was);
    } else {
      var fs := Deduped(was, k - 1, mode, written);
      DedupedShrinks(was, k - 1, mode, written, n);
      DedupedByShrinks(RULES[k - 1], was, fs, mode, written, n);
      ShrunkTrans(DedupedBy(RULES[k - 1], was, fs, mode, written), fs, was, n);
    }
  }

  lemma DedupedByShrinks(r: Rule, was: seq<Field>, fs: seq<Field>, mode: Mode, written: Field -> Bytes, n: Name)
    ensures Shrunk(DedupedBy(r, was, fs, mode, written), fs, n)
  {
    hide SomeOf, Left, Count;
    SomeAll(fs);
    var i := FieldAt(fs, r.name, 0);
    if i < |fs| { LeftShrinks(fs, Copies(fs[i]), written, n); }
  }

  lemma {:induction false} DetailedIn(fs: seq<Field>, k: nat, good: Option<Field>)
    requires 0 < Count(fs, ContentType)
    requires good.Some? ==> good.value in fs && good.value.name == ContentType
    ensures var r := Detailed(fs, k, good); r.Some? ==> r.value in fs && r.value.name == ContentType
    decreases Count(fs, ContentType) - k
  {
    var i := FieldAt(fs, ContentType, k);
    if i < |fs| {
      DetailedIn(fs, k + 1, good);
      DetailedIn(fs, k + 1, Some(fs[i]));
    }
  }

  lemma OneContentTypeShrinks(was: seq<Field>, fs: seq<Field>, written: Field -> Bytes, n: Name)
    ensures Shrunk(OneContentType(was, fs, written), fs, n)
  {
    hide SomeOf, Left, Count, Detailed;
    SomeAll(fs);
    if Count(fs, ContentType) > 0 {
      DetailedIn(fs, 0, None);
      match Detailed(fs, 0, None)
      case None =>
      case Some(g) => LeftShrinks(fs, Others(g), written, n);
    }
  }

  lemma KeptOnceShrinks(m: Name, was: seq<Field>, fs: seq<Field>, written: Field -> Bytes, n: Name)
    ensures Shrunk(KeptOnce(m, was, fs, written), fs, n)
  {
    hide SomeOf, Left, Count;
    SomeAll(fs);
    var i := FirstValid(fs, m);
    if i < |fs| {
      LeftShrinks(fs, Others(fs[i]), written, n);
      LeftShrinks(fs, InvalidOthers(fs[i]), written, n);
    }
  }

  lemma {:induction false} AllKeptOnceShrinks(k: nat, was: seq<Field>, fs: seq<Field>, written: Field -> Bytes, n: Name)
    requires k <= |KEPT_ONCE|
    ensures Shrunk(AllKeptOnce(k, was, fs, written), fs, n)
  {
    hide SomeOf, Left, Count, KeptOnce;
    if k == 0 {
      SomeAll(fs);
    } else {
      var r := AllKeptOnce(k - 1, was, fs, written);
      AllKeptOnceShrinks(k - 1, was, fs, written, n);
      KeptOnceShrinks(KEPT_ONCE[k - 1], was, r, written, n);
      ShrunkTrans(KeptOnce(KEPT_ONCE[k - 1], was, r, written), r, fs, n);
    }
  }

  lemma {:induction false} CountWithout(fs: seq<Field>, i: nat, n: Name)
    requires i < |fs|
    ensures Count(fs, n) == Count(Without(fs, i), n) + (if fs[i].name == n then 1 else 0)
  {
    if i == 0 {
      assert Without(fs, 0) == fs[1..];
    } else {
      assert Without(fs, i)[1..] == Without(fs[1..], i - 1);
      CountWithout(fs[1..], i - 1, n);
    }
  }

  lemma OneVersionShrinks(was: seq<Field>, fs: seq<Field>, note: nat -> Bytes, n: Name)
    ensures Shrunk(OneVersion(was, fs, note), fs, n)
  {
    hide SomeOf, Count, Without;
    SomeAll(fs);
    var i := FieldAt(fs, MIMEVersion, 1);
    if i < |fs| {
      var r := Without(fs, i);
      SomeWithout(fs, i);
      CountWithout(fs, i, n);
      var k := FieldAt(r, MIMEVersion, 0);
      if k < |r| {
        var text := note(Count(was, MIMEVersion));
        SomeRewritten(r, k, text);
        CountUpdate(r, k, Rewritten(r[k], text), n);
        SomeTrans(r[k := Rewritten(r[k], text)], r, fs);
      }
    }
  }

  lemma HalfShrinks(was: seq<Field>, mode: Mode, written: Field -> Bytes, note: nat -> Bytes, n: Name)
    ensures Shrunk(HalfRepaired(was, mode, written, note), was, n)
  {
    hide SomeOf, Count, Shrunk, Deduped, OneContentType, AllKeptOnce, OneVersion;
    var a := Deduped(was, |RULES|, mode, written);
    var b := OneContentType(was, a, written);
    var c := AllKeptOnce(|KEPT_ONCE|, was, b, written);
    DedupedShrinks(was, |RULES|, mode, written, n);
    OneContentTypeShrinks(was, a, written, n);
    ShrunkTrans(b, a, was, n);
    AllKeptOnceShrinks(|KEPT_ONCE|, was, b, written, n);
    ShrunkTrans(c, b, was, n);
    OneVersionShrinks(was, c, note, n);
    ShrunkTrans(OneVersion(was, c, note), c, was, n);
  }

  /** The last two stages: only Sender and Content-Transfer-Encoding can vanish. */
  lemma EndShrinks(was: seq<Field>, fs: seq<Field>, written: Field -> Bytes, n: Name)
    ensures var e := WithoutEncoding(was, fs, written);
            var r := WithoutSender(was, e, written);
            SomeOf(r, fs) && (n != Sender && n != ContentTransferEncoding ==> Shrunk(r, fs, n))
  {
    hide SomeOf, Count, Left, Senders;
    var e := WithoutEncoding(was, fs, written);
    var r := WithoutSender(was, e, written);
    SomeAll(fs);
    SomeAll(e);
    SomeLeft(fs, All(ContentTransferEncoding), written);
    SomeLeft(e, All(Sender), written);
    SomeTrans(r, e, fs);
    if n != Sender && n != ContentTransferEncoding {
      LeftShrinks(fs, All(ContentTransferEncoding), written, n);
      LeftShrinks(e, All(Sender), written, n);
    }
  }

  // ---------------------------------------------------------------- theorems

  /** Repairing crashes on an invalid header with a Content-Transfer-Encoding but no Content-Type, and on no other. */
  lemma RepairCrashes(h: State, written: Field -> Bytes, note: nat -> Bytes)
    ensures Repaired(h, written, note).Crash? <==>
            && Checked(h).err
            && Count(h.fields, ContentTransferEncoding) > 0
            && Count(h.fields, ContentType) == 0
  {
    hide SomeOf, Count, HalfRepaired, Legal;
    var d := HalfRepaired(h.fields, h.mode, written, note);
    HalfShrinks(h.fields, h.mode, written, note, ContentType);
    SomeCount(d, h.fields, ContentType);
  }

  /**
    Repairing only removes fields: what is left stands in the same order, with
    the same contents but for a note in MIME-Version, and no name vanishes
    except Sender and Content-Transfer-Encoding.
   */
  lemma RepairRemoves(h: State, written: Field -> Bytes, note: nat -> Bytes, n: Name)
    requires Repaired(h, written, note).Done?
    ensures var s := Repaired(h, written, note).state;
            && SomeOf(s.fields, h.fields)
            && (n != Sender && n != ContentTransferEncoding ==> Shrunk(s.fields, h.fields, n))
  {
    hide SomeOf, Count, HalfRepaired, Legal, WithoutSender, WithoutEncoding;
    if !Checked(h).err {
      SomeAll(h.fields);
    } else {
      var d := HalfRepaired(h.fields, h.mode, written, note);
      HalfShrinks(h.fields, h.mode, written, note, n);
      EndShrinks(h.fields, d, written, n);
      var r := WithoutSender(h.fields, WithoutEncoding(h.fields, d, written), written);
      SomeTrans(r, d, h.fields);
    }
  }

  /** Whatever rule held before holds afterwards. */
  lemma RepairHarmless(h: State, written: Field -> Bytes, note: nat -> Bytes, k: nat)
    requires Repaired(h, written, note).Done? && k < |RULES|
    requires !Broken(RULES[k], h.fields, h.mode)
    ensures !Broken(RULES[k], Repaired(h, written, note).state.fields, h.mode)
  {
    hide SomeOf, Count, HalfRepaired, Legal, Repaired;
    var n := RULES[k].name;
    var s := Repaired(h, written, note).state;
    RuleShape(k);
    RepairRemoves(h, written, note, n);
    SomeCount(s.fields, h.fields, n);
  }

  // ------------------------------------------------------- one field of each

  predicate NoneValid(fs: seq<Field>, n: Name) { forall i :: 0 <= i < |fs| && fs[i].name == n ==> !fs[i].valid }

  /** At most one field of that name, unless all of them have errors. */
  predicate Settled(fs: seq<Field>, n: Name) { Count(fs, n) <= 1 || NoneValid(fs, n) }

  lemma SomeSettled(r: seq<Field>, fs: seq<Field>, n: Name)
    requires SomeOf(r, fs) && Settled(fs, n)
    ensures Settled(r, n)
  {
    hide SomeOf;
    SomeCount(r, fs, n);
    if NoneValid(fs, n) {
      forall j | 0 <= j < |r| && r[j].name == n ensures !r[j].valid {
        var i := SomeFrom(r, fs, j);
      }
    }
  }

  lemma {:induction false} OthersNone(fs: seq<Field>, of: Field, written: Field -> Bytes)
    requires forall i :: 0 <= i < |fs| ==> fs[i].id != of.id
    ensures Count(Left(fs, Others(of), written), of.name) == 0
  {
    if fs != [] {
      var t := Left(fs[1..], Others(of), written);
      assert ([fs[0]] + t)[1..] == t;
      OthersNone(fs[1..], of, written);
    }
  }

  lemma {:induction false} OthersOne(fs: seq<Field>, of: Field, written: Field -> Bytes)
    requires Distinct(fs)
    ensures Count(Left(fs, Others(of), written), of.name) <= 1
  {
    if fs != [] {
      var t := Left(fs[1..], Others(of), written);
      assert ([fs[0]] + t)[1..] == t;
      OthersOne(fs[1..], of, written);
      if fs[0].id == of.id { OthersNone(fs[1..], of, written); }
    }
  }

  lemma KeptOnceSettles(n: Name, was: seq<Field>, fs: seq<Field>, written: Field -> Bytes)
    requires Distinct(fs) && SomeOf(fs, was) && n != ContentType
    ensures Settled(KeptOnce(n, was, fs, written), n)
  {
    hide SomeOf, Left, Count;
    SomeCount(fs, was, n);
    var i := FirstValid(fs, n);
    if i < |fs| { OthersOne(fs, fs[i], written); }
  }

  lemma {:induction false} AllKeptOnceSettle(k: nat, j: nat, was: seq<Field>, fs: seq<Field>, written: Field -> Bytes)
    requires j < k <= |KEPT_ONCE| && KEPT_ONCE[j] != ContentType
    requires Distinct(was) && SomeOf(fs, was)
    ensures Settled(AllKeptOnce(k, was, fs, written), KEPT_ONCE[j])
  {
    hide SomeOf, Left, Count, KeptOnce, Settled, Distinct;
    var r, m := AllKeptOnce(k - 1, was, fs, written), KEPT_ONCE[k - 1];
    AllKeptOnceShrinks(k - 1, was, fs, written, m);
    if j == k - 1 {
      SomeTrans(r, fs, was);
      SomeDistinct(r, was);
      KeptOnceSettles(m, was, r, written);
    } else {
      AllKeptOnceSettle(k - 1, j, was, fs, written);
      KeptOnceShrinks(m, was, r, written, m);
      SomeSettled(KeptOnce(m, was, r, written), r, KEPT_ONCE[j]);
    }
  }

  lemma HalfSettles(was: seq<Field>, mode: Mode, written: Field -> Bytes, note: nat -> Bytes, j: nat)
    requires Distinct(was) && j < |KEPT_ONCE| && KEPT_ONCE[j] != ContentType
    ensures Settled(HalfRepaired(was, mode, written, note), KEPT_ONCE[j])
  {
    hide SomeOf, Count, Deduped, OneContentType, AllKeptOnce, OneVersion, Settled, Distinct;
    var n := KEPT_ONCE[j];
    var a := Deduped(was, |RULES|, mode, written);
    var b := OneContentType(was, a, written);
    var c := AllKeptOnce(|KEPT_ONCE|, was, b, written);
    DedupedShrinks(was, |RULES|, mode, written, n);
    OneContentTypeShrinks(was, a, written, n);
    SomeTrans(b, a, was);
    AllKeptOnceSettle(|KEPT_ONCE|, j, was, b, written);
    OneVersionShrinks(was, c, note, n);
    SomeSettled(OneVersion(was, c, note), c, n);
  }

  /** A remembered good verdict is right. */
  predicate Trusted(h: State) { h.verified && !h.err ==> Legal(h.fields, h.mode) }

  /** Of Return-Path, Message-ID, References and Date at most one each is left, unless all have errors. */
  lemma RepairSettles(h: State, written: Field -> Bytes, note: nat -> Bytes, j: nat)
    requires Trusted(h) && Distinct(h.fields) && Repaired(h, written, note).Done?
    requires j < |KEPT_ONCE| && KEPT_ONCE[j] != ContentType
    ensures Settled(Repaired(h, written, note).state.fields, KEPT_ONCE[j])
  {
    hide SomeOf, Count, HalfRepaired, WithoutSender, WithoutEncoding, Distinct, Obeys;
    var n := KEPT_ONCE[j];
    if !Checked(h).err {
      LegalMeans(h.fields, h.mode);
      assert Single(n);
    } else {
      var d := HalfRepaired(h.fields, h.mode, written, note);
      HalfSettles(h.fields, h.mode, written, note, j);
      EndShrinks(h.fields, d, written, n);
      SomeSettled(WithoutSender(h.fields, WithoutEncoding(h.fields, d, written), written), d, n);
    }
  }

  // ----------------------------------------------------------- content types

  function Nth(fs: seq<Field>, k: nat): Field
    requires k < Count(fs, ContentType)
  {
    fs[FieldAt(fs, ContentType, k)]
  }

  predicate Agrees(f: Field, ct: Field) { f.data.typ == ct.data.typ && f.data.subtype == ct.data.subtype }

  lemma {:induction false} NoMoreDetails(fs: seq<Field>, k: nat, x: Field, g: Field)
    requires 0 < Count(fs, ContentType)
    ensures Detailed(fs, k, Some(x)) == Some(g) <==>
            && g == x
            && forall j :: k <= j < Count(fs, ContentType) ==> Agrees(Nth(fs, j), Nth(fs, 0)) && Nth(fs, j).data.parameters == 0
    decreases Count(fs, ContentType) - k
  {
    hide Count;
    if k < Count(fs, ContentType) {
      NoMoreDetails(fs, k + 1, x, g);
      assert Agrees(Nth(fs, k), Nth(fs, 0)) && Nth(fs, k).data.parameters == 0 ==>
             Detailed(fs, k, Some(x)) == Detailed(fs, k + 1, Some(x));
    }
  }

  /** `j` is the only one from the `k`-th on that has parameters. */
  predicate OnlyDetails(fs: seq<Field>, k: nat, j: nat)
  {
    && k <= j < Count(fs, ContentType)
    && forall i :: k <= i < Count(fs, ContentType) ==> (Nth(fs, i).data.parameters > 0 <==> i == j)
  }

  lemma DetailedStep(fs: seq<Field>, k: nat)
    requires k < Count(fs, ContentType)
    ensures Detailed(fs, k, None) ==
            if !Agrees(Nth(fs, k), Nth(fs, 0)) then None
            else if Nth(fs, k).data.parameters == 0 then Detailed(fs, k + 1, None)
            else Detailed(fs, k + 1, Some(Nth(fs, k)))
  {
    hide Count;
  }

  lemma DetailedEnd(fs: seq<Field>, k: nat)
    requires 0 < Count(fs, ContentType)
    ensures k >= Count(fs, ContentType) ==> Detailed(fs, k, None) == None
  {
  }

  /** All but one Content-Type go exactly if they agree and one alone has parameters. */
  lemma {:induction false} DetailedMeans(fs: seq<Field>, k: nat, g: Field)
    requires 0 < Count(fs, ContentType)
    ensures Detailed(fs, k, None) == Some(g) <==>
            && (forall j :: k <= j < Count(fs, ContentType) ==> Agrees(Nth(fs, j), Nth(fs, 0)))
            && exists j :: OnlyDetails(fs, k, j) && Nth(fs, j) == g
    decreases Count(fs, ContentType) - k
  {
    hide Count, Agrees, Detailed;
    DetailedEnd(fs, k);
    if k < Count(fs, ContentType) {
      DetailedMeans(fs, k + 1, g);
      NoMoreDetails(fs, k + 1, Nth(fs, k), g);
      DetailedStep(fs, k);
      if Nth(fs, k).data.parameters == 0 {
        forall j ensures OnlyDetails(fs, k, j) <==> OnlyDetails(fs, k + 1, j) { }
      } else {
        assert OnlyDetails(fs, k, k) <==> forall j :: k < j < Count(fs, ContentType) ==> Nth(fs, j).data.parameters == 0;
        assert forall j :: OnlyDetails(fs, k, j) ==> j == k;
      }
    }
  }

  // ---------------------------------------------------------------- verdicts

  /** Repairing never changes the answer: the verdict on the fields as they were stays. */
  lemma VerdictStays(h: State, written: Field -> Bytes, note: nat -> Bytes)
    requires Repaired(h, written, note).Done?
    ensures var s := Repaired(h, written, note).state;
            Checked(s) == s && s.err == Checked(h).err && s.mode == h.mode
  {
    hide Legal, HalfRepaired, WithoutSender, WithoutEncoding;
  }

  datatype Action = Edit(op: Op) | Repair

  function Performed(h: State, a: Action, written: Field -> Bytes, note: nat -> Bytes): Outcome
  {
    match a
    case Edit(op) => Done(Applied(h, op))
    case Repair => Repaired(h, written, note)
  }

  function Session(h: State, actions: seq<Action>, written: Field -> Bytes, note: nat -> Bytes): Outcome
  {
    if actions == [] then Done(h)
    else
      match Session(h, actions[..|actions| - 1], written, note)
      case Crash => Crash
      case Done(s) => Performed(s, actions[|actions| - 1], written, note)
  }

  lemma TrustedStep(h: State, a: Action, written: Field -> Bytes, note: nat -> Bytes)
    requires Trusted(h)
    ensures var r := Performed(h, a, written, note);
            r.Done? ==> Trusted(r.state) && r.state.mode == h.mode
  {
    hide Legal, HalfRepaired, WithoutSender, WithoutEncoding;
    match a
    case Repair =>
    case Edit(Check) =>
    case Edit(Add(f)) =>
      var i := FieldAt(h.fields, f.name, 0);
      if Merges(f.name) && i < |h.fields| {
        LegalUpdate(h.fields, i, WithAddresses(h.fields[i], f.data.addresses), h.mode);
      }
  }

  /** In any interleaving of additions, checks and repairs, a header said to be valid is. */
  lemma {:induction false} NeverWronglyValid(h: State, actions: seq<Action>, written: Field -> Bytes, note: nat -> Bytes)
    requires Trusted(h)
    ensures var r := Session(h, actions, written, note);
            r.Done? ==> Trusted(r.state) && r.state.mode == h.mode && (!Checked(r.state).err ==> Legal(r.state.fields, h.mode))
  {
    hide Legal, Performed;
    if actions != [] {
      var init := actions[..|actions| - 1];
      NeverWronglyValid(h, init, written, note);
      match Session(h, init, written, note)
      case Crash =>
      case Done(s) => TrustedStep(s, actions[|actions| - 1], written, note);
    }
  }

  lemma {:induction false} LeftAllCount(fs: seq<Field>, n: Name, m: Name, written: Field -> Bytes)
    ensures Count(Left(fs, All(n), written), m) == if m == n then 0 else Count(fs, m)
  {
    if fs != [] {
      var t := Left(fs[1..], All(n), written);
      assert ([fs[0]] + t)[1..] == t;
      LeftAllCount(fs[1..], n, m, written);
    }
  }

  /** A header that is in order once the fields of a name are gone. */
  ghost predicate CuredWithout(fs: seq<Field>, mode: Mode, n: Name)
  {
    && (forall i :: 0 <= i < |fs| && fs[i].name != n ==> fs[i].valid)
    && (forall m: Name :: Single(m) && m != n ==> Count(fs, m) <= 1)
    && (mode == Mode.RFC5322 ==> n != From && n != Date && Count(fs, From) == 1 && Count(fs, Date) == 1)
  }

  lemma LegalWithout(fs: seq<Field>, mode: Mode, n: Name, written: Field -> Bytes)
    ensures Legal(Left(fs, All(n), written), mode) <==> CuredWithout(fs, mode, n)
  {
    hide Left, Count, Obeys, SomeOf;
    var r := Left(fs, All(n), written);
    forall m: Name ensures Count(r, m) == if m == n then 0 else Count(fs, m) { LeftAllCount(fs, n, m, written); }
    LegalMeans(r, mode);
    AllLeftValid(fs, n, written);
  }

  lemma {:induction false} AllLeftValid(fs: seq<Field>, n: Name, written: Field -> Bytes)
    ensures AllValid(Left(fs, All(n), written)) <==> forall i :: 0 <= i < |fs| && fs[i].name != n ==> fs[i].valid
  {
    if fs != [] {
      var f, t := fs[0], Left(fs[1..], All(n), written);
      AllLeftValid(fs[1..], n, written);
      assert forall i :: 0 < i < |fs| ==> fs[i] == fs[1..][i - 1];
      if f.name != n {
        assert forall i :: 0 < i <= |t| ==> ([f] + t)[i] == t[i - 1];
        assert AllValid([f] + t) ==> ([f] + t)[0].valid && forall i :: 0 <= i < |t| ==> t[i] == ([f] + t)[i + 1];
      }
    }
  }

  /**
    Removing the fields of a name by hand does not reset the verdict either.  A
    remembered good verdict goes wrong exactly where a message header loses its
    From or Date, and a bad one exactly where only those fields were at fault.
   */
  lemma RemovalStale(h: State, n: Name, written: Field -> Bytes)
    requires h.verified && Honest(h)
    ensures Honest(h.(fields := Left(h.fields, All(n), written))) <==>
            if h.err then !CuredWithout(h.fields, h.mode, n)
            else !(h.mode == Mode.RFC5322 && (n == From || n == Date))
  {
    hide Left, Count, Obeys, AllValid;
    LegalWithout(h.fields, h.mode, n, written);
    if !h.err {
      LegalMeans(h.fields, h.mode);
      ValidUnless(h.fields, n);
    }
  }

  lemma ValidUnless(fs: seq<Field>, n: Name)
    requires AllValid(fs)
    ensures forall i :: 0 <= i < |fs| && fs[i].name != n ==> fs[i].valid
  {
  }

  /** Likewise for one field. */
  ghost predicate CuredAt(fs: seq<Field>, mode: Mode, i: nat)
    requires i < |fs|
  {
    && (forall j :: 0 <= j < |fs| && j != i ==> fs[j].valid)
    && (forall m: Name :: Single(m) ==> Count(fs, m) <= if m == fs[i].name then 2 else 1)
    && (mode == Mode.RFC5322 ==>
          && Count(fs, From) == (if fs[i].name == From then 2 else 1)
          && Count(fs, Date) == (if fs[i].name == Date then 2 else 1))
  }

  lemma RemovalAtStale(h: State, i: nat)
    requires h.verified && Honest(h) && i < |h.fields|
    ensures Honest(h.(fields := Without(h.fields, i))) <==>
            if h.err then !CuredAt(h.fields, h.mode, i)
            else !(h.mode == Mode.RFC5322 && (h.fields[i].name == From || h.fields[i].name == Date))
  {
    hide Count, Obeys;
    var fs, r := h.fields, Without(h.fields, i);
    forall m: Name ensures Count(fs, m) == Count(r, m) + if fs[i].name == m then 1 else 0 { CountWithout(fs, i, m); }
    LegalMeans(fs, h.mode);
    LegalMeans(r, h.mode);
    assert AllValid(r) <==> forall j :: 0 <= j < |fs| && j != i ==> fs[j].valid by {
      assert forall j :: 0 <= j < i ==> r[j] == fs[j];
      assert forall j :: i < j < |fs| ==> fs[j] == r[j - 1];
      assert forall j :: i <= j < |r| ==> r[j] == fs[j + 1];
    }
  }

  /** Too many valid fields of a name that repairing keeps once. */
  predicate Curable(r: Rule, fs: seq<Field>)
  {
    r.name in KEPT_ONCE && r.name != ContentType && Count(fs, r.name) > r.max
  }

  /**
    If every field is valid and too many of Return-Path, Message-ID, References
    or Date are all that is wrong, the repaired fields are legal; and still the
    header is said to be invalid.
   */
  lemma CuredButStale(h: State, written: Field -> Bytes, note: nat -> Bytes)
    requires Honest(h) && Distinct(h.fields) && AllValid(h.fields) && !Legal(h.fields, h.mode)
    requires forall k :: 0 <= k < |RULES| && Broken(RULES[k], h.fields, h.mode) ==> Curable(RULES[k], h.fields)
    requires Repaired(h, written, note).Done?
    ensures var s := Repaired(h, written, note).state;
            Legal(s.fields, s.mode) && Checked(s).err && !Honest(s)
  {
    hide SomeOf, Count, Repaired, Distinct, Settled, HalfRepaired;
    var s := Repaired(h, written, note).state;
    VerdictStays(h, written, note);
    RepairRemoves(h, written, note, Date);
    forall j | 0 <= j < |s.fields| ensures s.fields[j].valid { var i := SomeFrom(s.fields, h.fields, j); }
    forall k | 0 <= k < |RULES| ensures !Broken(RULES[k], s.fields, s.mode) {
      if Broken(RULES[k], h.fields, h.mode) { Cured(h, written, note, k); } else { RepairHarmless(h, written, note, k); }
    }
  }

  lemma Cured(h: State, written: Field -> Bytes, note: nat -> Bytes, k: nat)
    requires Honest(h) && Distinct(h.fields) && Repaired(h, written, note).Done?
    requires AllValid(Repaired(h, written, note).state.fields)
    requires k < |RULES| && Curable(RULES[k], h.fields)
    ensures !Broken(RULES[k], Repaired(h, written, note).state.fields, h.mode)
  {
    hide SomeOf, Count, Repaired, Distinct, Legal, Settled;
    var n, s := RULES[k].name, Repaired(h, written, note).state;
    RuleShape(k);
    var j :| 0 <= j < |KEPT_ONCE| && KEPT_ONCE[j] == n;
    RepairSettles(h, written, note, j);
    RepairRemoves(h, written, note, n);
    SettledValid(s.fields, n);
  }

  lemma SettledValid(fs: seq<Field>, n: Name)
    requires AllValid(fs) && Settled(fs, n)
    ensures Count(fs, n) <= 1
  {
    hide Count;
    var i := FieldAt(fs, n, 0);
    assert i < |fs| ==> fs[i].valid;
  }

  lemma CountThree(a: Field, b: Field, c: Field, n: Name)
    ensures Count([a, b, c], n) ==
            (if a.name == n then 1 else 0) + (if b.name == n then 1 else 0) + (if c.name == n then 1 else 0)
  {
    assert [a, b, c][1..] == [b, c] && [b, c][1..] == [c] && [c][1..] == [];
    assert Count([c], n) == if c.name == n then 1 else 0;
    assert Count([b, c], n) == (if b.name == n then 1 else 0) + Count([c], n);
  }

  /** For example, a message with one From and two dates, whatever they are. */
  lemma TwoDates(f: Field, d: Field, e: Field, written: Field -> Bytes, note: nat -> Bytes)
    requires f.name == From && d.name == Date && e.name == Date && AllValid([f, d, e]) && Distinct([f, d, e])
    ensures var r := Repaired(State([f, d, e], Mode.RFC5322, false, false), written, note);
            r.Done? && Legal(r.state.fields, Mode.RFC5322) && Checked(r.state).err
  {
    hide Count, Repaired, AllValid, Distinct, Checked;
    var fs, h := [f, d, e], State([f, d, e], Mode.RFC5322, false, false);
    forall n: Name ensures Count(fs, n) == if n == From then 1 else if n == Date then 2 else 0 { CountThree(f, d, e, n); }
    assert Broken(RULES[9], fs, Mode.RFC5322);
    forall k | 0 <= k < |RULES| && Broken(RULES[k], fs, Mode.RFC5322) ensures Curable(RULES[k], fs) {
      RuleShape(k);
      assert KEPT_ONCE[3] == Date;
    }
    RepairCrashes(h, written, note);
    CuredButStale(h, written, note);
    VerdictStays(h, written, note);
  }
}
