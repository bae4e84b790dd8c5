/** Address lists: removing duplicates, and comparing two lists. */
module Addresses {
  import opened Octets

  datatype Address = Address(name: Bytes, localpart: Bytes, domain: Bytes)

  const AT: Bytes := [64]

  function UpperByte(c: Byte): Byte { if IsLower(c) then c - 32 else c }

  function Upper(s: Bytes): (r: Bytes)
    ensures |r| == |s|
    ensures forall k :: 0 <= k < |s| ==> r[k] == UpperByte(s[k])
  {
    seq(|s|, k requires 0 <= k < |s| => UpperByte(s[k]))
  }

  /** The key for removing duplicates ignores case. */
  function Key(a: Address): Bytes { Upper(a.localpart) + AT + Upper(a.domain) }

  /** The key for comparing lists ignores the case of the domain only. */
  function ExactKey(a: Address): Bytes { a.localpart + AT + Upper(a.domain) }

  lemma UpperOrLower(a: Bytes, b: Bytes)
    ensures Upper(a) == Upper(b) <==> Lower(a) == Lower(b)
  {
    if Upper(a) == Upper(b) {
      forall k | 0 <= k < |a| ensures Lower(a)[k] == Lower(b)[k] { assert Upper(a)[k] == Upper(b)[k]; }
    }
    if Lower(a) == Lower(b) {
      forall k | 0 <= k < |a| ensures Upper(a)[k] == Upper(b)[k] { assert Lower(a)[k] == Lower(b)[k]; }
    }
  }

  lemma LastAt(x: Bytes, y: Bytes, v: Bytes, w: Bytes)
    requires x + AT + y == v + AT + w && AT[0] !in y && AT[0] !in w
    ensures x == v && y == w
  {
    var s := x + AT + y;
    assert s[|x|] == AT[0] && (v + AT + w)[|v|] == AT[0];
    assert |x| == |v|;
    assert s[..|x|] == x && s[|x| + 1..] == y && s[..|v|] == v && s[|v| + 1..] == w;
  }

  /**
    For domains without `@`: addresses have the same key if they are the same up
    to case, and the same exact key if only the case of their domains differs.
   */
  lemma KeysMean(a: Address, b: Address)
    requires '@' as int !in a.domain && '@' as int !in b.domain
    ensures Key(a) == Key(b) <==> Lower(a.localpart) == Lower(b.localpart) && Lower(a.domain) == Lower(b.domain)
    ensures ExactKey(a) == ExactKey(b) <==> a.localpart == b.localpart && Lower(a.domain) == Lower(b.domain)
  {
    hide Lower, Upper;
    UpperOrLower(a.localpart, b.localpart);
    UpperOrLower(a.domain, b.domain);
    NoAt(a.domain);
    NoAt(b.domain);
    if Key(a) == Key(b) { LastAt(Upper(a.localpart), Upper(a.domain), Upper(b.localpart), Upper(b.domain)); }
    if ExactKey(a) == ExactKey(b) { LastAt(a.localpart, Upper(a.domain), b.localpart, Upper(b.domain)); }
  }

  lemma NoAt(s: Bytes)
    requires '@' as int !in s
    ensures AT[0] !in Upper(s)
  {
    assert AT[0] == '@' as int;
    forall k | 0 <= k < |s| ensures Upper(s)[k] != AT[0] { assert s[k] != '@' as int; }
  }

  function Keys(l: seq<Address>): (ks: seq<Bytes>)
    ensures |ks| == |l| && forall k :: 0 <= k < |l| ==> ks[k] == Key(l[k])
  {
    seq(|l|, k requires 0 <= k < |l| => Key(l[k]))
  }

  predicate DistinctKeys(l: seq<Address>)
  {
    forall i, j :: 0 <= i < j < |l| ==> Key(l[i]) != Key(l[j])
  }

  // -------------------------------------------------------------- duplicates

  /** The place of the first address with that key; the length if there is none. */
  function FindKey(l: seq<Address>, k: Bytes): (i: nat)
    ensures i <= |l|
    ensures i < |l| ==> Key(l[i]) == k
    ensures forall j :: 0 <= j < i ==> Key(l[j]) != k
  {
    if l == [] || Key(l[0]) == k then 0 else 1 + FindKey(l[1..], k)
  }

  /** A new key is appended; an address with a name replaces a nameless one. */
  function Put(u: seq<Address>, a: Address): seq<Address>
  {
    var i := FindKey(u, Key(a));
    if i == |u| then u + [a]
    else if u[i].name == [] && a.name != [] then u[i := a]
    else u
  }

  function Unique(l: seq<Address>): seq<Address>
  {
    if l == [] then [] else Put(Unique(l[..|l| - 1]), l[|l| - 1])
  }

  /** The first occurrence of every element. */
  function FirstOccurrences(ks: seq<Bytes>): seq<Bytes>
  {
    if ks == [] then []
    else
      var d, k := FirstOccurrences(ks[..|ks| - 1]), ks[|ks| - 1];
      if k in d then d else d + [k]
  }

  /** `a` is the first address of its key in `l` that has a name or, if none has one, the first of its key. */
  ghost predicate Chosen(l: seq<Address>, a: Address)
  {
    exists j :: 0 <= j < |l| && l[j] == a && Best(l, j)
  }

  predicate Best(l: seq<Address>, j: nat)
    requires j < |l|
  {
    && (forall i :: 0 <= i < j && Key(l[i]) == Key(l[j]) ==> l[i].name == [])
    && (l[j].name == [] ==> forall i :: 0 <= i < |l| && Key(l[i]) == Key(l[j]) ==> l[i].name == [] && j <= i)
  }

  method Uniquify(l: seq<Address>) returns (u: seq<Address>)
    ensures u == Unique(l)
  {
    hide Key, FindKey;
    if l == [] { return l; }
    var dict: map<Bytes, nat> := map[];
    u := [];
    for n := 0 to |l|
      invariant u == Unique(l[..n])
      invariant forall k :: k in dict <==> FindKey(u, k) < |u|
      invariant forall k :: k in dict ==> dict[k] == FindKey(u, k)
    {
      var a := l[n];
      var k := Key(a);
      ghost var u0 := u;
      assert l[..n + 1][..n] == l[..n];
      if k !in dict {
        dict := dict[k := |u|];
        u := u + [a];
        FindAppend(u0, a);
      } else if u[dict[k]].name == [] && a.name != [] {
        u := u[dict[k] := a];
        FindUpdate(u0, dict[k], a);
      }
    }
    assert l[..|l|] == l;
  }

  lemma {:induction false} FindKeyIs(l: seq<Address>, k: Bytes, i: nat)
    requires i <= |l| && (i < |l| ==> Key(l[i]) == k) && forall j :: 0 <= j < i ==> Key(l[j]) != k
    ensures FindKey(l, k) == i
  {
    if i > 0 { FindKeyIs(l[1..], k, i - 1); }
  }

  lemma {:induction false} FindInAppended(u: seq<Address>, a: Address, k: Bytes)
    requires FindKey(u, Key(a)) == |u|
    ensures FindKey(u + [a], k) == if k == Key(a) then |u| else if FindKey(u, k) < |u| then FindKey(u, k) else |u| + 1
  {
    hide FindKey, Key;
    FindKeyIs(u + [a], k, if k == Key(a) then |u| else if FindKey(u, k) < |u| then FindKey(u, k) else |u| + 1);
  }

  lemma {:induction false} FindAppend(u: seq<Address>, a: Address)
    requires FindKey(u, Key(a)) == |u|
    ensures forall k :: FindKey(u + [a], k) == if k == Key(a) then |u| else if FindKey(u, k) < |u| then FindKey(u, k) else |u| + 1
  {
    hide FindKey, Key;
    forall k { FindInAppended(u, a, k); }
  }

  lemma {:induction false} FindInUpdated(u: seq<Address>, i: nat, a: Address, k: Bytes)
    requires i < |u| && Key(u[i]) == Key(a)
    ensures FindKey(u[i := a], k) == FindKey(u, k)
  {
    hide FindKey, Key;
    FindKeyIs(u[i := a], k, FindKey(u, k));
  }

  lemma {:induction false} FindUpdate(u: seq<Address>, i: nat, a: Address)
    requires i < |u| && Key(u[i]) == Key(a)
    ensures forall k :: FindKey(u[i := a], k) == FindKey(u, k)
  {
    hide FindKey, Key;
    forall k { FindInUpdated(u, i, a, k); }
  }

  /** No key occurs twice in the result, and its keys are those of the input in order of first occurrence. */
  lemma {:induction false} UniqueKeys(l: seq<Address>)
    ensures DistinctKeys(Unique(l))
    ensures Keys(Unique(l)) == FirstOccurrences(Keys(l))
  {
    hide Key, FindKey;
    if l != [] {
      var init, a := l[..|l| - 1], l[|l| - 1];
      UniqueKeys(init);
      var u := Unique(init);
      var ks := Keys(l);
      assert ks[..|ks| - 1] == Keys(init) && ks[|ks| - 1] == Key(a);
      var i := FindKey(u, Key(a));
      if i == |u| {
        assert Key(a) !in Keys(u);
        assert Keys(u + [a]) == Keys(u) + [Key(a)];
      } else {
        assert Keys(u)[i] == Key(a);
        assert Keys(Put(u, a)) == Keys(u);
      }
    }
  }

  lemma ChosenAgain(l: seq<Address>, a: Address, j: nat)
    requires |l| > 0 && j < |l| - 1 && l[j] == a && Best(l[..|l| - 1], j)
    requires Key(l[|l| - 1]) == Key(a) && a.name == [] ==> l[|l| - 1].name == []
    ensures Best(l, j)
  {
    var init := l[..|l| - 1];
    assert forall i :: 0 <= i < |init| ==> init[i] == l[i];
  }

  /** Every entry of the result is the one the rule chooses for its key. */
  lemma {:induction false} UniqueChooses(l: seq<Address>)
    ensures forall i :: 0 <= i < |Unique(l)| ==> Chosen(l, Unique(l)[i])
  {
    hide Key, FindKey;
    if l != [] {
      var n := |l| - 1;
      var init, a := l[..n], l[n];
      var u, r := Unique(init), Unique(l);
      UniqueChooses(init);
      UniqueKeys(init);
      var ix := FindKey(u, Key(a));
      forall i | 0 <= i < |r| ensures Chosen(l, r[i]) {
        if r[i] == a && (ix == |u| || (i == ix && u[ix].name == [] && a.name != [])) {
          NewChoice(l, u);
        } else {
          assert r[i] == u[i] && Chosen(init, u[i]);
          var j :| 0 <= j < |init| && init[j] == u[i] && Best(init, j);
          ChosenAgain(l, u[i], j);
        }
      }
    }
  }

  lemma {:induction false} SameElements(ks: seq<Bytes>, k: Bytes)
    ensures k in FirstOccurrences(ks) <==> k in ks
  {
    if ks != [] {
      SameElements(ks[..|ks| - 1], k);
      SameElements(ks[..|ks| - 1], ks[|ks| - 1]);
      assert ks == ks[..|ks| - 1] + [ks[|ks| - 1]];
    }
  }

  /** A key that occurs in the list occurs in the result. */
  lemma {:induction false} KeyKept(l: seq<Address>, i: nat)
    requires i < |l|
    ensures FindKey(Unique(l), Key(l[i])) < |Unique(l)|
  {
    hide Key, FindKey, Unique;
    var u, k := Unique(l), Key(l[i]);
    UniqueKeys(l);
    SameElements(Keys(l), k);
    assert Keys(l)[i] == k;
    var m :| 0 <= m < |Keys(u)| && Keys(u)[m] == k;
    assert Key(u[m]) == k;
  }

  /** The last address is chosen when its key is new, or when it is the first of its key with a name. */
  lemma {:induction false} NewChoice(l: seq<Address>, u: seq<Address>)
    requires |l| > 0 && u == Unique(l[..|l| - 1]) && forall i :: 0 <= i < |u| ==> Chosen(l[..|l| - 1], u[i])
    requires var a := l[|l| - 1]; var i := FindKey(u, Key(a)); i == |u| || (u[i].name == [] && a.name != [])
    ensures Chosen(l, l[|l| - 1])
  {
    hide Key, FindKey, Unique;
    var n := |l| - 1;
    var init, a := l[..n], l[n];
    var ix := FindKey(u, Key(a));
    forall i | 0 <= i < n && Key(l[i]) == Key(a) ensures ix < |u| && l[i].name == [] {
      assert init[i] == l[i];
      KeyKept(init, i);
      NamelessBefore(init, u[ix], i);
    }
    assert Best(l, n);
  }

  /** If the chosen address has no name, none of its key has. */
  lemma NamelessBefore(l: seq<Address>, c: Address, i: nat)
    requires Chosen(l, c) && i < |l| && Key(l[i]) == Key(c)
    ensures c.name == [] ==> l[i].name == []
  {
    hide Key;
    var j :| 0 <= j < |l| && l[j] == c && Best(l, j);
  }

  lemma {:induction false} DistinctFixed(l: seq<Address>)
    requires DistinctKeys(l)
    ensures Unique(l) == l
  {
    hide Key;
    if l != [] {
      var init, a := l[..|l| - 1], l[|l| - 1];
      DistinctFixed(init);
      assert l == init + [a];
    }
  }

  /** Removing duplicates twice is removing them once. */
  lemma UniqueIdempotent(l: seq<Address>)
    ensures Unique(Unique(l)) == Unique(l)
  {
    UniqueKeys(l);
    DistinctFixed(Unique(l));
  }

  // -------------------------------------------------------------- comparison

  function ExactKeys(l: seq<Address>): (ks: set<Bytes>)
    ensures forall k :: k in ks <==> exists i :: 0 <= i < |l| && ExactKey(l[i]) == k
  {
    set i | 0 <= i < |l| :: ExactKey(l[i])
  }

  datatype MaybeList = Nil | List(addresses: seq<Address>)

  /**
    An absent list is like no other.  Both maps are filled from the first list,
    so only one inclusion is checked, besides the lengths.
   */
  method SameAddresses(a: MaybeList, b: MaybeList) returns (r: bool)
    ensures r <==> a.List? && b.List? && |a.addresses| == |b.addresses| && ExactKeys(b.addresses) <= ExactKeys(a.addresses)
  {
    if a == Nil || b == Nil { return false; }
    var l, m := a.addresses, b.addresses;
    if |l| != |m| { return false; }
    var lmap := KeyMap(l);
    var mmap := KeyMap(l);
    var all := AllIn(l, mmap);
    if !all { return false; }
    r := AllIn(m, lmap);
  }

  method KeyMap(l: seq<Address>) returns (ks: set<Bytes>)
    ensures ks == ExactKeys(l)
  {
    ks := {};
    for i := 0 to |l|
      invariant forall k :: k in ks <==> exists j :: 0 <= j < i && ExactKey(l[j]) == k
    {
      ks := ks + {ExactKey(l[i])};
    }
  }

  method AllIn(l: seq<Address>, ks: set<Bytes>) returns (r: bool)
    ensures r <==> ExactKeys(l) <= ks
  {
    for i := 0 to |l|
      invariant forall j :: 0 <= j < i ==> ExactKey(l[j]) in ks
    {
      if ExactKey(l[i]) !in ks {
        assert ExactKey(l[i]) in ExactKeys(l);
        return false;
      }
    }
    return true;
  }

  /** Equal under the exact key implies equal under the key that ignores case. */
  lemma ExactImpliesKey(a: Address, b: Address)
    requires ExactKey(a) == ExactKey(b)
    ensures Key(a) == Key(b)
  {
    assert Key(a) == Upper(ExactKey(a)) by { UpperKey(a); }
    assert Key(b) == Upper(ExactKey(b)) by { UpperKey(b); }
  }

  lemma UpperKey(a: Address)
    ensures Upper(ExactKey(a)) == Key(a)
  {
  }

  lemma {:induction false} ExactKeysCount(l: seq<Address>)
    ensures |ExactKeys(l)| <= |l|
    ensures DistinctKeys(l) ==> |ExactKeys(l)| == |l|
  {
    hide Key, ExactKey;
    if l == [] {
      assert ExactKeys(l) == {};
    } else {
      var init, a := l[..|l| - 1], l[|l| - 1];
      ExactKeysCount(init);
      KeysSnoc(init, a);
      assert l == init + [a];
      if DistinctKeys(l) {
        forall i | 0 <= i < |init| ensures ExactKey(init[i]) != ExactKey(a) {
          assert Key(l[i]) != Key(l[|l| - 1]);
          if ExactKey(init[i]) == ExactKey(a) { ExactImpliesKey(init[i], a); }
        }
      }
    }
  }

  lemma KeysSnoc(l: seq<Address>, a: Address)
    ensures ExactKeys(l + [a]) == ExactKeys(l) + {ExactKey(a)}
  {
    hide ExactKey;
    var m := l + [a];
    forall k ensures k in ExactKeys(m) <==> k in ExactKeys(l) + {ExactKey(a)} {
      if k in ExactKeys(l) {
        var i :| 0 <= i < |l| && ExactKey(l[i]) == k;
        assert m[i] == l[i];
      }
      assert m[|l|] == a;
    }
  }

  lemma SubsetSameSize<T>(a: set<T>, b: set<T>)
    requires a <= b && |b| <= |a|
    ensures a == b
  {
    assert |b - a| == |b| - |a|;
  }

  /**
    Once duplicates are removed from the second list, one inclusion and equal
    lengths mean that both lists have the same addresses.
   */
  lemma ComparisonIsEquality(l: seq<Address>, m: seq<Address>)
    requires DistinctKeys(l) && DistinctKeys(m)
    ensures |l| == |m| && ExactKeys(m) <= ExactKeys(l) <==> ExactKeys(l) == ExactKeys(m)
  {
    ExactKeysCount(l);
    ExactKeysCount(m);
    if |l| == |m| && ExactKeys(m) <= ExactKeys(l) { SubsetSameSize(ExactKeys(m), ExactKeys(l)); }
  }

  /** Without that, the comparison is one-sided. */
  lemma OneSided(x: Address, y: Address)
    requires ExactKey(x) != ExactKey(y)
    ensures var l, m := [x, y], [x, x]; |l| == |m| && ExactKeys(m) <= ExactKeys(l) && ExactKeys(l) != ExactKeys(m)
  {
    hide ExactKey;
    var l, m := [x, y], [x, x];
    assert l[1] == y;
    assert l[0] == x;
    assert ExactKey(y) in ExactKeys(l);
    assert ExactKey(y) !in ExactKeys(m);
    assert ExactKeys(m) <= {ExactKey(x)};
  }
}
