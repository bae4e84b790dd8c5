/**
  A header as a machine over values: adding fields, the cached verdict, and the
  repairs.  A field is a value with an identity; what its text was parsed to is
  data.  Names are those of RFC 5322 and RFC 2045 that the rules mention.
 */
module Headers {
  import opened Octets
  import opened HeaderCase
  import HeaderText
  import opened Names
  import opened Addresses

  type Mode = HeaderText.Mode

  datatype Name =
    | From | Sender | ReplyTo | To | Cc | Bcc | ReturnPath | MessageID | References | Date | Subject
    | MIMEVersion | ContentType | ContentTransferEncoding
    | Other(text: Bytes)

  /** What a field holds: its text, and what was parsed out of it. */
  datatype Data = Data(text: Bytes, addresses: seq<Address>, typ: Bytes, subtype: Bytes, parameters: nat)

  datatype Field = Field(id: nat, name: Name, valid: bool, data: Data)

  datatype State = State(fields: seq<Field>, mode: Mode, verified: bool, err: bool)

  // ------------------------------------------------------------------- names

  /** The name a field gets from the key it was added under; every kind of date is called Date. */
  function NameOf(key: Bytes): Name
  {
    var n := HeaderCased(key);
    if n == FROM then From
    else if n == SENDER then Sender
    else if n == REPLY_TO then ReplyTo
    else if n == TO then To
    else if n == CC then Cc
    else if n == BCC then Bcc
    else if n == RETURN_PATH then ReturnPath
    else if n == MESSAGE_ID then MessageID
    else if n == REFERENCES then References
    else if n == DATE || n == ORIG_DATE || n == RESENT_DATE then Date
    else if n == SUBJECT then Subject
    else if n == MIME_VERSION then MIMEVersion
    else if n == CONTENT_TYPE then ContentType
    else if n == CONTENT_TRANSFER_ENCODING then ContentTransferEncoding
    else Other(n)
  }

  /** Except for the kinds of date, keys name the same field exactly when they differ in case only. */
  lemma CaseDoesNotMatter(a: Bytes, b: Bytes)
    ensures Lower(a) == Lower(b) ==> NameOf(a) == NameOf(b)
    ensures NameOf(a) == NameOf(b) && NameOf(a) != Date ==> Lower(a) == Lower(b)
  {
    hide HeaderCased;
    SameSpelling(a, b);
  }

  /** Fields of which there is to be only one, with all the addresses. */
  predicate Merges(n: Name) { n == From || n == To || n == Cc || n == Bcc || n == ReplyTo }

  // ------------------------------------------------------------------ fields

  function Count(fs: seq<Field>, n: Name): nat
  {
    if fs == [] then 0 else (if fs[0].name == n then 1 else 0) + Count(fs[1..], n)
  }

  /** The place of the field with that name that has `k` before it; the length if there are fewer. */
  function FieldAt(fs: seq<Field>, n: Name, k: nat): (i: nat)
    ensures i <= |fs|
    ensures i < |fs| <==> k < Count(fs, n)
    ensures i < |fs| ==> fs[i].name == n
  {
    if fs == [] then 0
    else if fs[0].name == n && k == 0 then 0
    else 1 + FieldAt(fs[1..], n, if fs[0].name == n then k - 1 else k)
  }

  lemma {:induction false} CountSnoc(fs: seq<Field>, f: Field, n: Name)
    ensures Count(fs + [f], n) == Count(fs, n) + (if f.name == n then 1 else 0)
  {
    if fs == [] {
      assert fs + [f] == [f] && [f][1..] == [];
    } else {
      assert (fs + [f])[1..] == fs[1..] + [f];
      CountSnoc(fs[1..], f, n);
    }
  }

  lemma {:induction false} CountUpdate(fs: seq<Field>, i: nat, f: Field, n: Name)
    requires i < |fs| && fs[i].name == f.name
    ensures Count(fs[i := f], n) == Count(fs, n)
  {
    if i == 0 {
      assert fs[0 := f][1..] == fs[1..];
    } else {
      assert fs[i := f][1..] == fs[1..][i - 1 := f];
      CountUpdate(fs[1..], i - 1, f, n);
    }
  }

  lemma {:induction false} InCount(fs: seq<Field>, i: nat)
    requires i < |fs|
    ensures Count(fs, fs[i].name) > 0
  {
    if i > 0 { InCount(fs[1..], i - 1); }
  }

  // ------------------------------------------------------------------ adding

  function WithAddresses(f: Field, more: seq<Address>): Field
  {
    f.(data := f.data.(addresses := f.data.addresses + more))
  }

  /** Merging adds the addresses, and neither the field nor its error. */
  function Added(h: State, f: Field): State
  {
    var i := FieldAt(h.fields, f.name, 0);
    if Merges(f.name) && i < |h.fields| then
      h.(fields := h.fields[i := WithAddresses(h.fields[i], f.data.addresses)])
    else h.(fields := h.fields + [f], verified := false)
  }

  function AddedAll(h: State, fs: seq<Field>): State
  {
    if fs == [] then h else Added(AddedAll(h, fs[..|fs| - 1]), fs[|fs| - 1])
  }

  /** All addresses of the fields with that name, in order. */
  function AllAddresses(fs: seq<Field>, n: Name): seq<Address>
  {
    if fs == [] then []
    else AllAddresses(fs[..|fs| - 1], n) + Contribution(fs[|fs| - 1], n)
  }

  function Contribution(f: Field, n: Name): seq<Address> { if f.name == n then f.data.addresses else [] }

  lemma {:induction false} AddressesSnoc(fs: seq<Field>, f: Field, n: Name)
    ensures AllAddresses(fs + [f], n) == AllAddresses(fs, n) + Contribution(f, n)
  {
    assert (fs + [f])[..|fs|] == fs;
  }

  lemma {:induction false} NoneLeft(fs: seq<Field>, n: Name)
    requires Count(fs, n) == 0
    ensures AllAddresses(fs, n) == []
  {
    if fs != [] {
      var init, l := fs[..|fs| - 1], fs[|fs| - 1];
      assert fs == init + [l];
      CountSnoc(init, l, n);
      NoneLeft(init, n);
    }
  }

  /** Changing a field leaves the addresses of every other name alone. */
  lemma {:induction false} OtherAddresses(fs: seq<Field>, i: nat, f: Field, n: Name)
    requires i < |fs| && fs[i].name == f.name != n
    ensures AllAddresses(fs[i := f], n) == AllAddresses(fs, n)
    decreases |fs|
  {
    var k := |fs| - 1;
    if i == k {
      assert fs[i := f][..k] == fs[..k];
    } else {
      assert fs[i := f][..k] == fs[..k][i := f];
      OtherAddresses(fs[..k], i, f, n);
    }
  }

  /** Where the name occurs once, what that field gains its name gains. */
  lemma {:induction false} OwnAddresses(fs: seq<Field>, i: nat, more: seq<Address>)
    requires i < |fs| && Count(fs, fs[i].name) == 1
    ensures AllAddresses(fs[i := WithAddresses(fs[i], more)], fs[i].name) == AllAddresses(fs, fs[i].name) + more
    decreases |fs|
  {
    hide AllAddresses, Count;
    var k, n := |fs| - 1, fs[i].name;
    var init, l := fs[..k], fs[k];
    var g := WithAddresses(fs[i], more);
    assert fs == init + [l];
    CountSnoc(init, l, n);
    AddressesSnoc(init, l, n);
    if i == k {
      assert fs[i := g] == init + [g];
      AddressesSnoc(init, g, n);
      NoneLeft(init, n);
    } else {
      assert fs[i := g] == init[i := g] + [l];
      InCount(init, i);
      OwnAddresses(init, i, more);
      AddressesSnoc(init[i := g], l, n);
      assert Contribution(l, n) == [];
    }
  }

  lemma MergeStep(h: State, f: Field, n: Name)
    requires Merges(n) && Count(h.fields, n) <= 1
    ensures var r := Added(h, f).fields;
            && Count(r, n) == (if f.name == n then 1 else Count(h.fields, n))
            && AllAddresses(r, n) == AllAddresses(h.fields, n) + Contribution(f, n)
  {
    hide AllAddresses, Count;
    var fs := h.fields;
    var i := FieldAt(fs, f.name, 0);
    if Merges(f.name) && i < |fs| {
      var g := WithAddresses(fs[i], f.data.addresses);
      CountUpdate(fs, i, g, n);
      if f.name == n { OwnAddresses(fs, i, f.data.addresses); } else { OtherAddresses(fs, i, g, n); }
    } else {
      CountSnoc(fs, f, n);
      AddressesSnoc(fs, f, n);
    }
  }

  /**
    After any sequence of additions to an empty header, a name that merges
    occurs at most once, and its field holds the addresses of all the fields
    added under that name, in order.
   */
  lemma {:induction false} MergeOnAdd(h: State, fs: seq<Field>, n: Name)
    requires h.fields == [] && Merges(n)
    ensures var r := AddedAll(h, fs).fields;
            && Count(r, n) == (if Count(fs, n) == 0 then 0 else 1)
            && AllAddresses(r, n) == AllAddresses(fs, n)
  {
    hide Added, Merges;
    if fs != [] {
      var init, f := fs[..|fs| - 1], fs[|fs| - 1];
      assert fs == init + [f];
      MergeOnAdd(h, init, n);
      CountSnoc(init, f, n);
      AddressesSnoc(init, f, n);
      MergeStep(AddedAll(h, init), f, n);
    }
  }

  // ------------------------------------------------ what is added, and where

  function Named(fs: seq<Field>, n: Name): (r: seq<Field>)
    ensures forall k :: 0 <= k < |r| ==> r[k].name == n
  {
    if fs == [] then []
    else if fs[0].name == n then [fs[0]] + Named(fs[1..], n)
    else Named(fs[1..], n)
  }

  lemma {:induction false} NamedCount(fs: seq<Field>, n: Name)
    ensures |Named(fs, n)| == Count(fs, n)
  {
    if fs != [] { NamedCount(fs[1..], n); }
  }

  lemma {:induction false} NamedUpdate(fs: seq<Field>, n: Name, f: Field, m: Name)
    requires 0 < Count(fs, n) && f.name == n
    ensures |Named(fs, n)| == Count(fs, n)
    ensures Named(fs[FieldAt(fs, n, 0) := f], m) == if m == n then Named(fs, n)[0 := f] else Named(fs, m)
  {
    NamedCount(fs, n);
    var i, t := FieldAt(fs, n, 0), fs[1..];
    if i == 0 {
      assert fs[0 := f][1..] == t;
    } else {
      NamedUpdate(t, n, f, m);
      assert fs[i := f][1..] == t[i - 1 := f] && fs[i := f][0] == fs[0];
    }
  }

  lemma {:induction false} NamedConcat(a: seq<Field>, b: seq<Field>, n: Name)
    ensures Named(a + b, n) == Named(a, n) + Named(b, n)
  {
    if a == [] {
      assert a + b == b;
    } else {
      assert (a + b)[0] == a[0] && (a + b)[1..] == a[1..] + b;
      NamedConcat(a[1..], b, n);
    }
  }

  lemma NamedOne(f: Field, n: Name)
    ensures Named([f], n) == if f.name == n then [f] else []
  {
    assert [f][1..] == [];
  }

  /** The addresses of all fields. */
  function Gathered(fs: seq<Field>): seq<Address>
  {
    if fs == [] then [] else Gathered(fs[..|fs| - 1]) + fs[|fs| - 1].data.addresses
  }

  /** The first field with the addresses of those that came, or of the later ones if there was none. */
  function Merged(had: seq<Field>, more: seq<Field>): seq<Field>
  {
    if had != [] then had[0 := WithAddresses(had[0], Gathered(more))]
    else if more == [] then []
    else [WithAddresses(more[0], Gathered(more[1..]))]
  }

  lemma MergedMore(had: seq<Field>, more: seq<Field>, f: Field)
    ensures had == [] && more == [] ==> Merged(had, more + [f]) == [f]
    ensures var m := Merged(had, more);
            had != [] || more != [] ==> m != [] && Merged(had, more + [f]) == m[0 := WithAddresses(m[0], f.data.addresses)]
  {
    var all := more + [f];
    assert all[..|more|] == more;
    if had == [] {
      if more == [] {
        assert all[1..] == [] && WithAddresses(f, []) == f by { assert f.data.addresses + [] == f.data.addresses; }
      } else {
        assert all[1..][..|more| - 1] == more[1..];
        WithMore(more[0], Gathered(more[1..]), f.data.addresses);
      }
    } else {
      WithMore(had[0], Gathered(more), f.data.addresses);
    }
  }

  lemma WithMore(f: Field, a: seq<Address>, b: seq<Address>)
    ensures WithAddresses(WithAddresses(f, a), b) == WithAddresses(f, a + b)
  {
    assert f.data.addresses + a + b == f.data.addresses + (a + b);
  }

  lemma NothingMore(had: seq<Field>)
    ensures Merged(had, []) == had
  {
    if had != [] { assert had[0].data.addresses + [] == had[0].data.addresses; }
  }

  lemma NamedStep(h: State, f: Field, n: Name)
    ensures var l, r := Named(h.fields, n), Named(Added(h, f).fields, n);
            if f.name != n then r == l
            else if Merges(n) && l != [] then r == l[0 := WithAddresses(l[0], f.data.addresses)]
            else r == l + [f]
  {
    hide Count, Named, WithAddresses;
    var fs, i := h.fields, FieldAt(h.fields, f.name, 0);
    NamedCount(fs, f.name);
    if Merges(f.name) && i < |fs| {
      NamedFirst(fs, f.name);
      SameNameWith(fs[i], f.data.addresses);
      NamedUpdate(fs, f.name, WithAddresses(fs[i], f.data.addresses), n);
    } else {
      NamedConcat(fs, [f], n);
      NamedOne(f, n);
    }
  }

  lemma SameNameWith(f: Field, more: seq<Address>)
    ensures WithAddresses(f, more).name == f.name && WithAddresses(f, more).id == f.id
  {
  }

  lemma {:induction false} NamedFirst(fs: seq<Field>, n: Name)
    requires Count(fs, n) > 0
    ensures Named(fs, n) != [] && Named(fs, n)[0] == fs[FieldAt(fs, n, 0)]
  {
    if fs[0].name != n { NamedFirst(fs[1..], n); }
  }

  /**
    After any sequence of additions, the fields of a name that does not merge
    are those there were and those added, in order; of a name that merges, the
    first one is kept and takes the addresses of all that were added later.
   */
  lemma {:induction false} AddedByName(h: State, fs: seq<Field>, n: Name)
    ensures var had, came, r := Named(h.fields, n), Named(fs, n), Named(AddedAll(h, fs).fields, n);
            r == if n == From || n == To || n == Cc || n == Bcc || n == ReplyTo then Merged(had, came) else had + came
  {
    assert Merges(n) <==> n == From || n == To || n == Cc || n == Bcc || n == ReplyTo;
    hide Added, Merges, Named, WithAddresses, Merged;
    var had := Named(h.fields, n);
    if fs == [] {
      NothingMore(had);
      NamedNothing(n);
    } else {
      var init, f := fs[..|fs| - 1], fs[|fs| - 1];
      assert fs == init + [f];
      AddedByName(h, init, n);
      NamedConcat(init, [f], n);
      NamedOne(f, n);
      NamedStep(AddedAll(h, init), f, n);
      ByNameStep(had, Named(init, n), Named(AddedAll(h, init).fields, n), f, n);
    }
  }

  lemma ByNameStep(had: seq<Field>, came: seq<Field>, l: seq<Field>, f: Field, n: Name)
    requires l == if Merges(n) then Merged(had, came) else had + came
    ensures came + [] == came
    ensures Merges(n) ==> Merged(had, came + [f]) == if l != [] then l[0 := WithAddresses(l[0], f.data.addresses)] else l + [f]
    ensures !Merges(n) ==> had + (came + [f]) == l + [f]
  {
    hide WithAddresses;
    MergedMore(had, came, f);
    MergedNone(had, came);
  }

  lemma NamedNothing(n: Name)
    ensures Named([], n) == []
  {
  }

  lemma ByName(h: State, fs: seq<Field>, n: Name)
    ensures var had, came, r := Named(h.fields, n), Named(fs, n), Named(AddedAll(h, fs).fields, n);
            r == if Merges(n) then Merged(had, came) else had + came
  {
    hide Added, Named, Merged, AddedAll;
    AddedByName(h, fs, n);
  }

  /** Name and identity of each field. */
  function Tags(fs: seq<Field>): (r: seq<(Name, nat)>)
    ensures |r| == |fs| && forall k :: 0 <= k < |fs| ==> r[k] == (fs[k].name, fs[k].id)
  {
    seq(|fs|, k requires 0 <= k < |fs| => (fs[k].name, fs[k].id))
  }

  /** The fields that are not merged into an earlier one, in order. */
  function Firsts(had: seq<Field>, fs: seq<Field>): seq<Field>
  {
    if fs == [] then []
    else
      var init, f := fs[..|fs| - 1], fs[|fs| - 1];
      Firsts(had, init) + if Merges(f.name) && Named(had + init, f.name) != [] then [] else [f]
  }

  lemma TagsStep(h: State, f: Field)
    ensures Tags(Added(h, f).fields) ==
            if Merges(f.name) && Named(h.fields, f.name) != [] then Tags(h.fields) else Tags(h.fields) + [(f.name, f.id)]
  {
    hide Count, Named;
    NamedCount(h.fields, f.name);
  }

  /** The fields stand in the order in which they were first added. */
  lemma {:induction false} AddedInOrder(h: State, fs: seq<Field>)
    ensures Tags(AddedAll(h, fs).fields) == Tags(h.fields + Firsts(h.fields, fs))
  {
    hide Added, Merges, Named, Merged;
    if fs == [] {
      assert h.fields + [] == h.fields;
    } else {
      var init, f := fs[..|fs| - 1], fs[|fs| - 1];
      var before := AddedAll(h, init);
      AddedInOrder(h, init);
      TagsStep(before, f);
      ByName(h, init, f.name);
      NamedConcat(h.fields, init, f.name);
      MergedNone(Named(h.fields, f.name), Named(init, f.name));
      var had, a := h.fields, Firsts(h.fields, init);
      assert had + (a + [f]) == (had + a) + [f] && a + [] == a;
      assert Tags(had + a + [f]) == Tags(had + a) + [(f.name, f.id)];
    }
  }

  lemma MergedNone(had: seq<Field>, more: seq<Field>)
    ensures Merged(had, more) == [] <==> had + more == []
  {
  }

  // ----------------------------------------------------------------- verdict

  /** How often a name is to occur, in one mode. */
  datatype Rule = Rule(name: Name, min: nat, max: nat, mode: Mode)

  const RULES: seq<Rule> := [
    Rule(Sender, 0, 1, Mode.RFC5322), Rule(ReplyTo, 0, 1, Mode.RFC5322), Rule(To, 0, 1, Mode.RFC5322), Rule(Cc, 0, 1, Mode.RFC5322),
    Rule(Bcc, 0, 1, Mode.RFC5322), Rule(MessageID, 0, 1, Mode.RFC5322), Rule(References, 0, 1, Mode.RFC5322),
    Rule(Subject, 0, 1, Mode.RFC5322), Rule(From, 1, 1, Mode.RFC5322), Rule(Date, 1, 1, Mode.RFC5322),
    Rule(MIMEVersion, 0, 1, Mode.RFC5322), Rule(MIMEVersion, 0, 1, Mode.MIME),
    Rule(ContentType, 0, 1, Mode.RFC5322), Rule(ContentType, 0, 1, Mode.MIME),
    Rule(ContentTransferEncoding, 0, 1, Mode.RFC5322), Rule(ContentTransferEncoding, 0, 1, Mode.MIME),
    Rule(ReturnPath, 0, 1, Mode.RFC5322)]

  /** The minimum binds in the rule's mode only, the maximum in both. */
  predicate Broken(r: Rule, fs: seq<Field>, mode: Mode)
  {
    (r.mode == mode && Count(fs, r.name) < r.min) || Count(fs, r.name) > r.max
  }

  predicate AllValid(fs: seq<Field>) { forall i :: 0 <= i < |fs| ==> fs[i].valid }

  predicate Obeys(fs: seq<Field>, mode: Mode) { forall k :: 0 <= k < |RULES| ==> !Broken(RULES[k], fs, mode) }

  predicate Legal(fs: seq<Field>, mode: Mode) { AllValid(fs) && Obeys(fs, mode) }

  predicate Single(n: Name) { !n.Other? }

  /**
    What the verdict means: in either mode every name of the table occurs at
    most once; From and Date are needed in a message header only.
   */
  lemma LegalMeans(fs: seq<Field>, mode: Mode)
    ensures Obeys(fs, mode) <==>
            && (forall n: Name :: Single(n) ==> Count(fs, n) <= 1)
            && (mode == Mode.RFC5322 ==> Count(fs, From) == 1 && Count(fs, Date) == 1)
  {
    hide Count;
    if Obeys(fs, mode) {
      forall n: Name | Single(n) ensures Count(fs, n) <= 1 {
        var k := RuleOf(n);
        assert !Broken(RULES[k], fs, mode);
      }
      assert !Broken(RULES[8], fs, mode) && !Broken(RULES[9], fs, mode);
    } else {
      var k :| 0 <= k < |RULES| && Broken(RULES[k], fs, mode);
      RuleShape(k);
      assert Single(RULES[k].name);
    }
  }

  /** The row of the table for a name. */
  function RuleOf(n: Name): (k: nat)
    requires Single(n)
    ensures k < |RULES| && RULES[k].name == n && RULES[k].max == 1
  {
    match n
    case Sender => 0
    case ReplyTo => 1
    case To => 2
    case Cc => 3
    case Bcc => 4
    case MessageID => 5
    case References => 6
    case Subject => 7
    case From => 8
    case Date => 9
    case MIMEVersion => 10
    case ContentType => 12
    case ContentTransferEncoding => 14
    case ReturnPath => 16
  }

  lemma RuleShape(k: nat)
    requires k < |RULES|
    ensures var r := RULES[k];
            && Single(r.name) && r.max == 1 && r.min <= 1
            && (r.min == 1 ==> (r.name == From || r.name == Date) && r.mode == Mode.RFC5322)
  {
  }

  /** The verdict is worked out once and then remembered. */
  function Checked(h: State): State
  {
    if h.verified then h else h.(verified := true, err := !Legal(h.fields, h.mode))
  }

  /** What is remembered is what a fresh evaluation gives. */
  predicate Honest(h: State) { h.verified ==> (h.err <==> !Legal(h.fields, h.mode)) }

  datatype Op = Add(f: Field) | Check

  function Applied(h: State, op: Op): State
  {
    match op
    case Add(f) => Added(h, f)
    case Check => Checked(h)
  }

  function Run(h: State, ops: seq<Op>): State
  {
    if ops == [] then h else Applied(Run(h, ops[..|ops| - 1]), ops[|ops| - 1])
  }

  lemma LegalUpdate(fs: seq<Field>, i: nat, f: Field, mode: Mode)
    requires i < |fs| && f.name == fs[i].name && f.valid == fs[i].valid
    ensures Legal(fs[i := f], mode) <==> Legal(fs, mode)
  {
    hide Count;
    var r := fs[i := f];
    forall n: Name ensures Count(r, n) == Count(fs, n) { CountUpdate(fs, i, f, n); }
    assert Obeys(r, mode) <==> Obeys(fs, mode) by {
      forall k | 0 <= k < |RULES| ensures Broken(RULES[k], r, mode) <==> Broken(RULES[k], fs, mode) {
        assert Count(r, RULES[k].name) == Count(fs, RULES[k].name);
      }
    }
    assert AllValid(r) ==> AllValid(fs) by {
      forall j | AllValid(r) && 0 <= j < |fs| ensures fs[j].valid { assert r[j].valid; }
    }
    assert AllValid(fs) ==> AllValid(r);
  }

  /** Merging cannot change the verdict: neither a name nor an error is added. */
  lemma HonestStep(h: State, op: Op)
    requires Honest(h)
    ensures Honest(Applied(h, op))
  {
    hide Legal;
    match op
    case Check =>
    case Add(f) =>
      var i := FieldAt(h.fields, f.name, 0);
      if Merges(f.name) && i < |h.fields| {
        LegalUpdate(h.fields, i, WithAddresses(h.fields[i], f.data.addresses), h.mode);
      }
  }

  /**
    In any interleaving of additions and checks, a check answers what a fresh
    evaluation of the fields at that moment would.
   */
  lemma {:induction false} CachedVerdict(h: State, ops: seq<Op>)
    requires Honest(h)
    ensures Honest(Run(h, ops))
    ensures !Checked(Run(h, ops)).err <==> Legal(Run(h, ops).fields, h.mode)
  {
    hide Legal, Added;
    RunMode(h, ops);
    if ops != [] {
      CachedVerdict(h, ops[..|ops| - 1]);
      HonestStep(Run(h, ops[..|ops| - 1]), ops[|ops| - 1]);
    }
  }

  lemma {:induction false} RunMode(h: State, ops: seq<Op>)
    ensures Run(h, ops).mode == h.mode
  {
    if ops != [] { RunMode(h, ops[..|ops| - 1]); }
  }
}
