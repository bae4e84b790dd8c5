/** The header object: its methods change the fields and the remembered verdict in place. */
module MessageHeader {
  import opened Octets
  import opened Headers
  import opened HeaderRepair

  function Times(occurrences: map<Name, nat>, n: Name): nat
  {
    if n in occurrences then occurrences[n] else 0
  }

  ghost predicate Counts(occurrences: map<Name, nat>, fs: seq<Field>)
  {
    forall n: Name :: Times(occurrences, n) == Count(fs, n)
  }

  class Header {
    const mode: Mode
    var fields: seq<Field>
    var verified: bool
    var err: bool

    ghost function Now(): State
      reads this
    {
      State(fields, mode, verified, err)
    }

    /** No field object occurs twice: every field is made when it is added. */
    ghost predicate Sound()
      reads this`fields
    {
      Distinct(fields)
    }

    constructor (m: Mode)
      ensures Sound() && Now() == State([], m, false, false)
    {
      mode := m;
      fields, verified, err := [], false, false;
    }

    method FindField(n: Name, k: nat) returns (i: nat)
      ensures i == FieldAt(fields, n, k)
    {
      hide Count;
      i := 0;
      var left := k;
      while i < |fields|
        invariant i <= |fields| && FieldAt(fields, n, k) == i + FieldAt(fields[i..], n, left)
      {
        if fields[i].name == n {
          if left == 0 { return; }
          left := left - 1;
        }
        i := i + 1;
      }
    }

    /** Address fields of one name are merged; then the verdict is not reset.  The field is a new one. */
    method AddField(f: Field)
      requires Sound() && forall i :: 0 <= i < |fields| ==> fields[i].id != f.id
      modifies this
      ensures Sound() && Now() == Added(old(Now()), f)
    {
      hide Count, FieldAt;
      if f.name == To || f.name == Cc || f.name == Bcc || f.name == ReplyTo || f.name == From {
        var i := FindField(f.name, 0);
        if i < |fields| {
          fields := fields[i := WithAddresses(fields[i], f.data.addresses)];
          return;
        }
      }
      fields := fields + [f];
      verified := false;
    }

    method RemoveAt(i: nat)
      requires i < |fields| && Sound()
      modifies this`fields
      ensures Sound() && fields == Without(old(fields), i)
    {
      fields := fields[..i] + fields[i + 1..];
    }

    method Remove(f: Field)
      requires Sound()
      modifies this`fields
      ensures Sound()
      ensures forall i :: 0 <= i < |old(fields)| && old(fields)[i].id == f.id ==> fields == Without(old(fields), i)
      ensures (forall i :: 0 <= i < |old(fields)| ==> old(fields)[i].id != f.id) ==> fields == old(fields)
    {
      var i := 0;
      while i < |fields|
        invariant 0 <= i <= |fields| && fields == old(fields)
        invariant forall j :: 0 <= j < i ==> fields[j].id != f.id
      {
        if fields[i].id == f.id {
          RemoveAt(i);
          return;
        }
        i := i + 1;
      }
    }

    /** One pass over the fields that removes as it goes. */
    method RemoveTaken(c: Cut, written: Field -> Bytes)
      requires Sound()
      modifies this`fields
      ensures Sound() && fields == Left(old(fields), c, written)
    {
      hide Takes, Left;
      var i := 0;
      assert fields[0..] == fields && fields[..0] == [];
      while i < |fields|
        invariant 0 <= i <= |fields| && Sound()
        invariant Left(old(fields), c, written) == fields[..i] + Left(fields[i..], c, written)
        decreases |fields| - i
      {
        LeftStep(fields, i, c, written);
        if Takes(c, fields[i], written) {
          ghost var was := fields;
          RemoveAt(i);
          assert fields[..i] == was[..i] && fields[i..] == was[i + 1..];
        } else {
          i := i + 1;
        }
      }
      LeftNone(c, written);
      assert fields[..i] == fields && fields[i..] == [];
    }

    static lemma LeftNone(c: Cut, written: Field -> Bytes)
      ensures Left([], c, written) == []
    {
    }

    /** How often each name occurs. */
    method CountNames() returns (occurrences: map<Name, nat>)
      ensures Counts(occurrences, fields)
    {
      hide Count;
      occurrences := map[];
      var i := 0;
      CountNone();
      while i < |fields|
        invariant 0 <= i <= |fields| && Counts(occurrences, fields[..i])
      {
        var f := fields[i];
        ghost var before := occurrences;
        occurrences := occurrences[f.name := Times(occurrences, f.name) + 1];
        assert fields[..i + 1] == fields[..i] + [f];
        forall n: Name ensures Times(occurrences, n) == Count(fields[..i + 1], n) {
          CountSnoc(fields[..i], f, n);
          assert Times(before, n) == Count(fields[..i], n);
        }
        i := i + 1;
      }
      assert fields[..i] == fields;
    }

    static lemma CountNone()
      ensures Counts(map[], [])
    {
    }

    /** Works out the verdict, unless one is remembered. */
    method Verify()
      modifies this`verified, this`err
      ensures Now() == Checked(old(Now()))
    {
      hide Count, Broken;
      if verified { return; }
      verified, err := true, false;
      var i := 0;
      while i < |fields|
        invariant 0 <= i <= |fields| && forall j :: 0 <= j < i ==> fields[j].valid
        invariant verified && !err
      {
        if !fields[i].valid {
          err := true;
          return;
        }
        i := i + 1;
      }
      var occurrences := CountNames();
      i := 0;
      while !err && i < |RULES|
        invariant 0 <= i <= |RULES| && verified && AllValid(fields)
        invariant err <==> i > 0 && Broken(RULES[i - 1], fields, mode)
        invariant forall j :: 0 <= j < i - 1 ==> !Broken(RULES[j], fields, mode)
      {
        err := Breaks(occurrences, RULES[i]);
        i := i + 1;
      }
    }

    method Breaks(occurrences: map<Name, nat>, r: Rule) returns (b: bool)
      requires Counts(occurrences, fields)
      ensures b == Broken(r, fields, mode)
    {
      hide Count;
      var k := Times(occurrences, r.name);
      assert k == Count(fields, r.name);
      b := (r.mode == mode && k < r.min) || k > r.max;
    }

    method Valid() returns (ok: bool)
      modifies this`verified, this`err
      ensures Now() == Checked(old(Now())) && ok == !err
    {
      Verify();
      ok := !err;
    }

    // ---------------------------------------------------------------- repair

    method Dedupe(occurrences: map<Name, nat>, ghost was: seq<Field>, written: Field -> Bytes)
      requires Sound() && Counts(occurrences, was) && fields == was
      modifies this`fields
      ensures Sound() && fields == Deduped(was, |RULES|, mode, written)
    {
      hide DedupedBy, Count;
      var k := 0;
      while k < |RULES|
        invariant 0 <= k <= |RULES| && Sound() && fields == Deduped(was, k, mode, written)
      {
        DedupeBy(RULES[k], occurrences, was, written);
        k := k + 1;
      }
    }

    method DedupeBy(r: Rule, occurrences: map<Name, nat>, ghost was: seq<Field>, written: Field -> Bytes)
      requires Sound() && Counts(occurrences, was)
      modifies this`fields
      ensures Sound() && fields == DedupedBy(r, was, old(fields), mode, written)
    {
      hide Left, Count;
      assert Times(occurrences, r.name) == Count(was, r.name);
      if r.mode == mode && Times(occurrences, r.name) > r.max {
        var i := FindField(r.name, 0);
        if i < |fields| { RemoveTaken(Copies(fields[i]), written); }
      }
    }

    method FindDetailed() returns (good: Option<Field>)
      requires Count(fields, ContentType) > 0
      ensures good == Detailed(fields, 0, None)
    {
      hide Count, FieldAt;
      var first := FindField(ContentType, 0);
      var ct := fields[first];
      good := None;
      var n, i := 0, first;
      while i < |fields|
        invariant i == FieldAt(fields, ContentType, n) && Detailed(fields, 0, None) == Detailed(fields, n, good)
        decreases Count(fields, ContentType) - n
      {
        var other := fields[i].data;
        if other.typ != ct.data.typ || other.subtype != ct.data.subtype { return None; }
        if other.parameters > 0 {
          if good.Some? { return None; }
          good := Some(fields[i]);
        }
        n := n + 1;
        i := FindField(ContentType, n);
      }
    }

    method KeepContentType(occurrences: map<Name, nat>, ghost was: seq<Field>, written: Field -> Bytes)
      requires Sound() && Counts(occurrences, was)
      modifies this`fields
      ensures Sound() && fields == OneContentType(was, old(fields), written)
    {
      hide Left, Count, Detailed;
      assert Times(occurrences, ContentType) == Count(was, ContentType);
      var i := FindField(ContentType, 0);
      if Times(occurrences, ContentType) > 1 && i < |fields| {
        var good := FindDetailed();
        if good.Some? { RemoveTaken(Others(good.value), written); }
      }
    }

    method FindValid(n: Name) returns (i: nat)
      ensures i == FirstValid(fields, n)
    {
      i := 0;
      while i < |fields| && !(fields[i].name == n && fields[i].valid)
        invariant i <= |fields| && FirstValid(fields, n) == i + FirstValid(fields[i..], n)
      {
        i := i + 1;
      }
    }

    method KeepOnce(n: Name, occurrences: map<Name, nat>, ghost was: seq<Field>, written: Field -> Bytes)
      requires Sound() && Counts(occurrences, was)
      modifies this`fields
      ensures Sound() && fields == KeptOnce(n, was, old(fields), written)
    {
      hide Left, Count;
      assert Times(occurrences, n) == Count(was, n);
      if Times(occurrences, n) > 1 {
        var i := FindValid(n);
        if i < |fields| {
          if n == ContentType { RemoveTaken(InvalidOthers(fields[i]), written); } else { RemoveTaken(Others(fields[i]), written); }
        }
      }
    }

    method KeepAllOnce(occurrences: map<Name, nat>, ghost was: seq<Field>, written: Field -> Bytes)
      requires Sound() && Counts(occurrences, was)
      modifies this`fields
      ensures Sound() && fields == AllKeptOnce(|KEPT_ONCE|, was, old(fields), written)
    {
      hide KeptOnce, Count;
      var k := 0;
      while k < |KEPT_ONCE|
        invariant 0 <= k <= |KEPT_ONCE| && Sound() && fields == AllKeptOnce(k, was, old(fields), written)
      {
        KeepOnce(KEPT_ONCE[k], occurrences, was, written);
        k := k + 1;
      }
    }

    method KeepVersion(occurrences: map<Name, nat>, ghost was: seq<Field>, note: nat -> Bytes)
      requires Sound() && Counts(occurrences, was)
      modifies this`fields
      ensures Sound() && fields == OneVersion(was, old(fields), note)
    {
      hide Count, FieldAt;
      assert Times(occurrences, MIMEVersion) == Count(was, MIMEVersion);
      var i := FindField(MIMEVersion, 1);
      if i < |fields| {
        Remove(fields[i]);
        assert fields == Without(old(fields), i);
        var k := FindField(MIMEVersion, 0);
        if k < |fields| { fields := fields[k := Rewritten(fields[k], note(Times(occurrences, MIMEVersion)))]; }
      }
    }

    /** Whether the Content-Type is there to be looked at; if not, the program stops. */
    method DropEncoding(occurrences: map<Name, nat>, ghost was: seq<Field>, written: Field -> Bytes) returns (ok: bool)
      requires Sound() && Counts(occurrences, was)
      modifies this`fields
      ensures ok <==> !(Count(was, ContentTransferEncoding) > 0 && Count(old(fields), ContentType) == 0)
      ensures Sound() && (ok ==> fields == WithoutEncoding(was, old(fields), written))
    {
      hide Count, Left;
      assert Times(occurrences, ContentTransferEncoding) == Count(was, ContentTransferEncoding);
      var i := FindField(ContentType, 0);
      if Times(occurrences, ContentTransferEncoding) > 0 {
        if i == |fields| { return false; }
        if Composite(fields[i]) { RemoveTaken(All(ContentTransferEncoding), written); }
      }
      return true;
    }

    method DropSender(occurrences: map<Name, nat>, ghost was: seq<Field>, written: Field -> Bytes)
      requires Sound() && Counts(occurrences, was)
      modifies this`fields
      ensures Sound() && fields == WithoutSender(was, old(fields), written)
    {
      hide Count, Left;
      assert Times(occurrences, Sender) == Count(was, Sender);
      var i := FindField(Sender, 0);
      var senders := if i == |fields| then 0 else |fields[i].data.addresses|;
      if Times(occurrences, Sender) > 0 && senders != 1 { RemoveTaken(All(Sender), written); }
    }

    /** `done` is false where the program stops. */
    method Repair(written: Field -> Bytes, note: nat -> Bytes) returns (done: bool)
      requires Sound()
      modifies this
      ensures Sound()
      ensures done <==> Repaired(old(Now()), written, note).Done?
      ensures done ==> Now() == Repaired(old(Now()), written, note).state
    {
      hide Count, Legal, Distinct, SomeOf, Deduped, OneContentType, AllKeptOnce, OneVersion, WithoutSender, WithoutEncoding;
      var ok := Valid();
      if ok { return true; }
      ghost var was := fields;
      var occurrences := CountNames();
      Dedupe(occurrences, was, written);
      KeepContentType(occurrences, was, written);
      KeepAllOnce(occurrences, was, written);
      KeepVersion(occurrences, was, note);
      done := DropEncoding(occurrences, was, written);
      if done {
        DropSender(occurrences, was, written);
      }
    }
  }
}
