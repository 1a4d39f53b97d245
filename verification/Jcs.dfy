/**
 * The canonical manifest emitters: micro/host/jcs.c over the C reader's index, and
 * `manifest_to_canonical_json` over the C++ manifest. Same members, same bytes.
 */
module Jcs {
  import opened Bytes
  import opened Json
  import opened Layout
  import opened Manifest
  import opened Utf16
  import Lex
  import opened UstarFormat
  import opened Ustar

  // ------------------------------------------------------------ comparing keys

  /** The order of `jcs_key_less`, defined on every byte string. */
  ghost predicate KeyLess(a: Text, b: Text) {
    Lex.Less(CUnits(a, 0), CUnits(b, 0))
  }

  lemma CStep(p: Text, at: nat)
    requires at <= |p|
    ensures at == |p| ==> CUnits(p, at) == []
    ensures at < |p| ==> CUnits(p, at) == Units(CDecode(p, at).0) + CUnits(p, at + CDecode(p, at).1)
  {
    hide CDecode, Units;
  }

  /** `struct mm_u16`: a byte string as UTF-16 code units, with the low surrogate still owed. */
  class Units16 {
    const p: Text
    var at: nat
    var pending: int
    var hasPending: bool

    ghost predicate Valid()
      reads this
    {
      at <= |p|
    }

    ghost function Rest(): seq<int>
      reads this
      requires Valid()
    {
      (if hasPending then [pending] else []) + CUnits(p, at)
    }

    constructor (p: Text)
      ensures Valid() && Rest() == CUnits(p, 0)
    {
      this.p, at, pending, hasPending := p, 0, 0, false;
    }

    /** `u16_next`: the next code unit, or -1 at the end. */
    method Next() returns (u: int)
      requires Valid()
      modifies this
      ensures Valid()
      ensures old(Rest()) == [] ==> u == -1 && Rest() == []
      ensures old(Rest()) != [] ==> u == old(Rest())[0] && Rest() == old(Rest())[1..]
    {
      hide CDecode, CUnits;
      CStep(p, at);
      ghost var more := CUnits(p, at);
      if hasPending {
        assert [pending] + more == Rest() && ([pending] + more)[1..] == more;
        hasPending := false;
        assert [] + more == more;
        return pending;
      }
      assert [] + more == more;
      if at >= |p| {
        return -1;
      }
      var cp, used := DecodeLead(p, at);
      at := at + used;
      if cp <= 0xFFFF {
        return cp;
      }
      pending := 0xDC00 + (cp - 0x10000) % 0x400;
      hasPending := true;
      u := 0xD800 + (cp - 0x10000) / 0x400;
    }
  }

  /** The masks both decoders apply to a lead byte. */
  method SplitLead(lead: byte) returns (cp: nat, need: nat)
    ensures cp == Payload(lead) && need == Wanted(lead)
  {
    cp, need := lead as int, 0;
    if lead >= 0xF0 { cp, need := cp % 8, 3; }
    else if lead >= 0xE0 { cp, need := cp % 16, 2; }
    else if lead >= 0xC0 { cp, need := cp % 32, 1; }
  }

  /** The decoding part of `u16_next`: malformed bytes are consumed one by one. */
  method DecodeLead(p: Text, at: nat) returns (cp: nat, used: nat)
    requires at < |p|
    ensures (cp, used) == CDecode(p, at)
  {
    var need;
    cp, need := SplitLead(p[at]);
    if at + need >= |p| { need := 0; }
    ghost var all := Continue(p, at + 1, need, cp);
    hide Payload, Wanted;
    var k := 1;
    while k <= need && IsContinuation(p[at + k])
      invariant 1 <= k <= need + 1
      invariant all.0 == Continue(p, at + k, need + 1 - k, cp).0
      invariant all.1 == k - 1 + Continue(p, at + k, need + 1 - k, cp).1
    {
      cp := cp * 64 + p[at + k] as int % 64;
      k := k + 1;
    }
    used := k;
  }

  /** `jcs_key_less`. */
  method KeyIsLess(a: Text, b: Text) returns (less: bool)
    ensures less <==> KeyLess(a, b)
  {
    hide CUnits;
    UnitsNonNegative(a, 0);
    UnitsNonNegative(b, 0);
    var ia := new Units16(a);
    var ib := new Units16(b);
    while true
      invariant ia.Valid() && ib.Valid() && (Lex.Less(ia.Rest(), ib.Rest()) <==> KeyLess(a, b))
      invariant NonNegative(ia.Rest()) && NonNegative(ib.Rest())
      decreases |ia.Rest()|
    {
      ghost var ra, rb := ia.Rest(), ib.Rest();
      var ca := ia.Next();
      var cb := ib.Next();
      if ca != cb {
        return ca < cb;
      }
      if ca < 0 {
        return false;
      }
    }
  }

  ghost predicate NonNegative(s: seq<int>) {
    forall i :: 0 <= i < |s| ==> s[i] >= 0
  }

  lemma {:induction false} UnitsNonNegative(p: Text, at: nat)
    requires at <= |p|
    ensures NonNegative(CUnits(p, at))
    decreases |p| - at
  {
    hide CDecode;
    if at < |p| {
      UnitsNonNegative(p, at + CDecode(p, at).1);
    }
  }

  /** The inner loop of `to_utf16`: continuation bytes are taken unchecked. */
  method GatherBits(s: Text, at: nat, need: nat, payload: nat) returns (cp: nat)
    ensures cp == Gather(s, at, need, payload)
  {
    cp := payload;
    var k := 0;
    while k < need && at + k < |s|
      invariant k <= need && Gather(s, at + k, need - k, cp) == Gather(s, at, need, payload)
    {
      cp := cp * 64 + s[at + k] as int % 64;
      k := k + 1;
    }
  }

  /** `to_utf16`. */
  method ToUtf16(s: Text) returns (out: seq<int>)
    ensures out == CppUnits(s, 0)
  {
    hide CppUnits, Units, Gather, Payload, Wanted;
    out := [];
    var i := 0;
    assert out + CppUnits(s, 0) == CppUnits(s, 0);
    while i < |s|
      invariant out + CppUnits(s, i) == CppUnits(s, 0)
      decreases |s| - i
    {
      var payload, need := SplitLead(s[i]);
      var cp := GatherBits(s, i + 1, need, payload);
      CppUnfold(s, i);
      ghost var rest := CppUnits(s, i + 1 + need);
      assert out + (Units(cp) + rest) == (out + Units(cp)) + rest;
      out := out + Units(cp);
      i := i + 1 + need;
    }
    CppEnd(s, i);
    assert out + [] == out;
  }

  lemma CppUnfold(s: Text, i: nat)
    requires i < |s|
    ensures CppUnits(s, i) ==
      Units(Gather(s, i + 1, Wanted(s[i]), Payload(s[i]))) + CppUnits(s, i + 1 + Wanted(s[i]))
  {
  }

  lemma CppEnd(s: Text, i: nat)
    requires i >= |s|
    ensures CppUnits(s, i) == []
  {
  }

  /** On well-formed paths `utf16_less` and `jcs_key_less` are one strict total order. */
  lemma SameKeyOrder(a: seq<scalar>, b: seq<scalar>)
    ensures KeyLess(Utf8(a), Utf8(b)) <==> Lex.Less(CppUnits(Utf8(a), 0), CppUnits(Utf8(b), 0))
    ensures KeyLess(Utf8(a), Utf8(b)) <==> Lex.Less(UnitsOf(a), UnitsOf(b))
    ensures a != b ==> (KeyLess(Utf8(a), Utf8(b)) <==> !KeyLess(Utf8(b), Utf8(a)))
  {
    hide Utf8, CUnits, CppUnits;
    assert Utf8(a)[0..] == Utf8(a) && Utf8(b)[0..] == Utf8(b);
    SameUnits(Utf8(a), 0, a);
    SameUnits(Utf8(b), 0, b);
    KeyOrderIsTotal(a, b);
  }

  /** `utf16_less`. */
  ghost predicate CppLess(a: Text, b: Text) {
    Lex.Less(CppUnits(a, 0), CppUnits(b, 0))
  }

  /** On any paths whose lead bytes are taken alike the two orders are one, and total but for spelling. */
  lemma AlikeKeyOrder(a: Text, b: Text)
    requires Alike(a, 0) && Alike(b, 0)
    ensures KeyLess(a, b) <==> CppLess(a, b)
    ensures CUnits(a, 0) != CUnits(b, 0) ==> (KeyLess(a, b) <==> !KeyLess(b, a))
  {
    hide CUnits, CppUnits, Alike;
    AlikeUnits(a, 0);
    AlikeUnits(b, 0);
    Lex.Total(CUnits(a, 0), CUnits(b, 0));
  }

  /** Otherwise they need not be: C3 28 sorts before 41 in C and behind it in C++. */
  lemma MalformedKeysSwap()
    ensures KeyLess([0xC3, 0x28], [0x41]) && !CppLess([0xC3, 0x28], [0x41]) && CppLess([0x41], [0xC3, 0x28])
  {
    MalformedDiffers();
    assert CDecode([0x41], 0) == (0x41, 1) && Gather([0x41], 1, 0, 0x41) == 0x41;
    assert CUnits([0x41], 1) == [] && CppUnits([0x41], 1) == [];
    assert CUnits([0x41], 0) == [0x41] && CppUnits([0x41], 0) == [0x41];
  }

  /** The two orders agree about `p` and `q`, either way round. */
  ghost predicate OrderedAlike(p: Text, q: Text) {
    (KeyLess(p, q) <==> CppLess(p, q)) && (KeyLess(q, p) <==> CppLess(q, p))
  }

  /** The orders agree about a path and every path taken alike exactly when they read it as the same units. */
  lemma OrdersAgreeExactly(p: Text)
    ensures (forall q: Text :: Alike(q, 0) ==> OrderedAlike(p, q)) <==> CUnits(p, 0) == CppUnits(p, 0)
  {
    hide CUnits, CppUnits, Alike, Spelled;
    var c, cpp := CUnits(p, 0), CppUnits(p, 0);
    if c == cpp {
      forall q: Text | Alike(q, 0) ensures OrderedAlike(p, q) { AlikeUnits(q, 0); }
    } else {
      CUnitsInRange(p, 0);
      CppUnitsInRange(p, 0);
      Lex.Total(c, cpp);
      var w := if Lex.Less(c, cpp) then cpp else c;
      var q := Spelled(w);
      assert q[0..] == q;
      SpelledUnits(q, 0, w);
      AlikeUnits(q, 0);
      Lex.Irreflexive(w);
      assert !OrderedAlike(p, q);
    }
  }

  lemma KeyTransitive(a: Text, b: Text, c: Text)
    requires KeyLess(a, b) && KeyLess(b, c)
    ensures KeyLess(a, c)
  {
    Lex.Transitive(CUnits(a, 0), CUnits(b, 0), CUnits(c, 0));
  }

  // ------------------------------------------------------------ the insertion sort

  ghost predicate SortedKeys(keys: seq<Text>) {
    forall i, j :: 0 <= i < j < |keys| ==> !KeyLess(keys[j], keys[i])
  }

  /** The paths an index array stands for. */
  ghost function Paths(order: seq<nat>, paths: seq<Text>): (r: seq<Text>)
    requires forall i :: 0 <= i < |order| ==> order[i] < |paths|
    ensures |r| == |order|
  {
    seq(|order|, i requires 0 <= i < |order| => paths[order[i]])
  }

  /** `key` put at `j` in a sorted list: everything from `j` on is greater, what is before is not. */
  lemma InsertKeepsSorted(s: seq<Text>, j: nat, key: Text)
    requires SortedKeys(s) && j <= |s|
    requires forall k :: j <= k < |s| ==> KeyLess(key, s[k])
    requires j > 0 ==> !KeyLess(key, s[j - 1])
    ensures SortedKeys(s[..j] + [key] + s[j..])
  {
    hide KeyLess;
    forall p | 0 <= p < j ensures !KeyLess(key, s[p]) {
      NotLessTransitive(key, s[j - 1], s[p]);
    }
    forall k | j <= k < |s| ensures !KeyLess(s[k], key) {
      KeyAsymmetric(key, s[k]);
    }
  }

  lemma KeyAsymmetric(a: Text, b: Text)
    requires KeyLess(a, b)
    ensures !KeyLess(b, a)
  {
    Lex.Total(CUnits(a, 0), CUnits(b, 0));
  }

  lemma NotLessTransitive(a: Text, b: Text, c: Text)
    requires !KeyLess(a, b) && (b == c || !KeyLess(b, c))
    ensures !KeyLess(a, c)
  {
    var x, y, z := CUnits(a, 0), CUnits(b, 0), CUnits(c, 0);
    Lex.Total(x, y);
    Lex.Total(y, z);
    Lex.Total(x, z);
    if Lex.Less(x, z) {
      if Lex.Less(y, x) { Lex.Transitive(y, x, z); }
      Lex.Total(y, z);
    }
  }

  ghost predicate Indices(order: seq<nat>, paths: seq<Text>) {
    forall i :: 0 <= i < |order| ==> order[i] < |paths|
  }

  /** `key` put behind everything that is not greater, from the end. */
  ghost function Inserted(s: seq<nat>, key: nat, paths: seq<Text>): (r: seq<nat>)
    requires Indices(s, paths) && key < |paths|
    ensures Indices(r, paths) && |r| == |s| + 1
  {
    if s == [] || !KeyLess(paths[key], paths[s[|s| - 1]]) then s + [key]
    else Inserted(s[..|s| - 1], key, paths) + [s[|s| - 1]]
  }

  /** The elements inserted one after the other. */
  ghost function InOrder(s: seq<nat>, paths: seq<Text>): (r: seq<nat>)
    requires Indices(s, paths)
    ensures Indices(r, paths) && |r| == |s|
  {
    if s == [] then [] else Inserted(InOrder(s[..|s| - 1], paths), s[|s| - 1], paths)
  }

  lemma {:induction false} InsertedIs(s: seq<nat>, key: nat, paths: seq<Text>, j: nat)
    requires Indices(s, paths) && key < |paths| && j <= |s|
    requires forall k :: j <= k < |s| ==> KeyLess(paths[key], paths[s[k]])
    requires j > 0 ==> !KeyLess(paths[key], paths[s[j - 1]])
    ensures Inserted(s, key, paths) == s[..j] + [key] + s[j..]
    decreases |s|
  {
    hide KeyLess, Inserted;
    if j < |s| {
      var init, last := s[..|s| - 1], s[|s| - 1];
      InsertedIs(init, key, paths, j);
      InsertedUnfold(s, key, paths);
      InsideInit(s, j, key);
    } else {
      InsertedUnfold(s, key, paths);
      assert s[..j] == s && s[j..] == [] && s + [key] + [] == s + [key];
    }
  }

  lemma InsertedUnfold(s: seq<nat>, key: nat, paths: seq<Text>)
    requires Indices(s, paths) && key < |paths|
    ensures s == [] || !KeyLess(paths[key], paths[s[|s| - 1]]) ==> Inserted(s, key, paths) == s + [key]
    ensures s != [] && KeyLess(paths[key], paths[s[|s| - 1]]) ==>
      Inserted(s, key, paths) == Inserted(s[..|s| - 1], key, paths) + [s[|s| - 1]]
  {
    hide KeyLess;
  }

  lemma InsideInit(s: seq<nat>, j: nat, key: nat)
    requires j < |s|
    ensures var init := s[..|s| - 1]; (init[..j] + [key] + init[j..]) + [s[|s| - 1]] == s[..j] + [key] + s[j..]
  {
    var init := s[..|s| - 1];
    assert init[..j] == s[..j] && s[j..] == init[j..] + [s[|s| - 1]];
  }

  /** One round of the sort: the element at `i` moves down past every greater one. */
  method InsertDown(order: array<nat>, i: nat, paths: seq<Text>)
    requires i < order.Length && Indices(order[..i + 1], paths) && SortedKeys(Paths(order[..i], paths))
    modifies order
    ensures order[i + 1..] == old(order[i + 1..])
    ensures multiset(order[..i + 1]) == multiset(old(order[..i + 1]))
    ensures Indices(order[..i + 1], paths) && SortedKeys(Paths(order[..i + 1], paths))
    ensures Indices(old(order[..i]), paths) && old(order[i]) < |paths|
    ensures order[..i + 1] == Inserted(old(order[..i]), old(order[i]), paths)
  {
    hide KeyLess, SortedKeys, Paths, Gap, Indices, Inserted;
    ghost var s, rest := order[..i], order[i + 1..];
    var key := order[i];
    assert order[..i + 1] == s + [key] && order[..][..i + 1] == order[..i + 1];
    GapBegins(order[..], s, rest, paths);
    var j := i;
    while j > 0
      invariant j <= i && Gap(order[..], s, rest, j)
      invariant forall k :: j <= k < i ==> KeyLess(paths[key], paths[s[k]])
    {
      GapAt(order[..], s, rest, j);
      var less := KeyIsLess(paths[key], paths[order[j - 1]]);
      if !less {
        break;
      }
      ghost var o := order[..];
      GapDown(o, s, rest, j);
      order[j] := order[j - 1];
      assert order[..] == o[j := o[j - 1]];
      j := j - 1;
    }
    ghost var o := order[..];
    GapFilled(o, s, rest, j, key);
    order[j] := key;
    assert order[..] == o[j := key] && order[..i + 1] == order[..][..i + 1] && order[i + 1..] == order[..][i + 1..];
    Rearranged(order[..i + 1], s, j, key, paths);
  }

  /** All of `s` around a free place at `j`, and then `rest`. */
  ghost predicate Gap(o: seq<nat>, s: seq<nat>, rest: seq<nat>, j: nat) {
    j <= |s| < |o| && o[..j] == s[..j] && o[j + 1..|s| + 1] == s[j..] && o[|s| + 1..] == rest
  }

  lemma GapBegins(o: seq<nat>, s: seq<nat>, rest: seq<nat>, paths: seq<Text>)
    requires |s| < |o| && s == o[..|s|] && rest == o[|s| + 1..] && Indices(o[..|s| + 1], paths)
    ensures Gap(o, s, rest, |s|) && Indices(s, paths) && o[|s|] < |paths|
  {
    assert o[|s|] == o[..|s| + 1][|s|];
    assert forall k :: 0 <= k < |s| ==> s[k] == o[..|s| + 1][k];
  }

  lemma GapFilled(o: seq<nat>, s: seq<nat>, rest: seq<nat>, j: nat, key: nat)
    requires Gap(o, s, rest, j)
    ensures var a := o[j := key];
      var after := a[..|s| + 1];
      after[..j] == s[..j] && after[j] == key && after[j + 1..] == s[j..] && a[|s| + 1..] == rest
  {
    var a := o[j := key];
    assert a[..|s| + 1][..j] == o[..j];
    assert a[..|s| + 1][j + 1..] == o[j + 1..|s| + 1];
  }

  lemma GapAt(o: seq<nat>, s: seq<nat>, rest: seq<nat>, j: nat)
    requires Gap(o, s, rest, j) && j > 0
    ensures j <= |s| < |o| && o[j - 1] == s[j - 1]
  {
    assert o[j - 1] == o[..j][j - 1] == s[..j][j - 1];
  }

  lemma GapDown(o: seq<nat>, s: seq<nat>, rest: seq<nat>, j: nat)
    requires Gap(o, s, rest, j) && j > 0
    ensures Gap(o[j := o[j - 1]], s, rest, j - 1)
  {
    var after := o[j := o[j - 1]];
    assert after[..j - 1] == o[..j][..j - 1] && s[..j][..j - 1] == s[..j - 1];
    assert after[j..|s| + 1] == [o[..j][j - 1]] + o[j + 1..|s| + 1];
    assert s[j - 1..] == [s[..j][j - 1]] + s[j..];
    assert after[|s| + 1..] == o[|s| + 1..];
  }

  lemma Rearranged(after: seq<nat>, s: seq<nat>, j: nat, key: nat, paths: seq<Text>)
    requires j <= |s| && |after| == |s| + 1 && after[..j] == s[..j] && after[j] == key && after[j + 1..] == s[j..]
    requires Indices(s, paths) && key < |paths| && SortedKeys(Paths(s, paths))
    requires forall k :: j <= k < |s| ==> KeyLess(paths[key], paths[s[k]])
    requires j > 0 ==> !KeyLess(paths[key], paths[s[j - 1]])
    ensures multiset(after) == multiset(s + [key]) && after == Inserted(s, key, paths)
    ensures Indices(after, paths) && SortedKeys(Paths(after, paths))
  {
    hide KeyLess, SortedKeys, Inserted, Paths;
    ThreeParts(after, s, j, key);
    InsertedIs(s, key, paths, j);
    Permuted(s, j, key);
    PathsOf(after, s, j, key, paths);
    SortedBy(s, j, key, paths);
  }

  lemma SortedBy(s: seq<nat>, j: nat, key: nat, paths: seq<Text>)
    requires j <= |s| && Indices(s, paths) && key < |paths| && SortedKeys(Paths(s, paths))
    requires forall k :: j <= k < |s| ==> KeyLess(paths[key], paths[s[k]])
    requires j > 0 ==> !KeyLess(paths[key], paths[s[j - 1]])
    ensures SortedKeys(Paths(s, paths)[..j] + [paths[key]] + Paths(s, paths)[j..])
  {
    hide KeyLess, SortedKeys;
    InsertKeepsSorted(Paths(s, paths), j, paths[key]);
  }

  lemma ThreeParts(after: seq<nat>, s: seq<nat>, j: nat, key: nat)
    requires j <= |s| && |after| == |s| + 1 && after[..j] == s[..j] && after[j] == key && after[j + 1..] == s[j..]
    ensures after == s[..j] + [key] + s[j..]
  {
    assert after == after[..j] + [after[j]] + after[j + 1..];
  }

  lemma Permuted(s: seq<nat>, j: nat, key: nat)
    requires j <= |s|
    ensures multiset(s[..j] + [key] + s[j..]) == multiset(s + [key])
  {
    assert s == s[..j] + s[j..];
  }

  lemma PathsOf(after: seq<nat>, s: seq<nat>, j: nat, key: nat, paths: seq<Text>)
    requires j <= |s| && after == s[..j] + [key] + s[j..] && Indices(s, paths) && Indices(after, paths) && key < |paths|
    ensures Paths(after, paths) == Paths(s, paths)[..j] + [paths[key]] + Paths(s, paths)[j..]
  {
  }

  /** The in-place insertion sort of `mcdf_micro_jcs_manifest`. */
  method SortOrder(order: array<nat>, paths: seq<Text>)
    requires Indices(order[..], paths)
    modifies order
    ensures multiset(order[..]) == multiset(old(order[..]))
    ensures Indices(order[..], paths) && SortedKeys(Paths(order[..], paths))
    ensures order[..] == InOrder(old(order[..]), paths)
  {
    hide SortedKeys, KeyLess, Inserted, InOrder, Paths;
    ghost var was := order[..];
    NoneInOrder(paths);
    if order.Length == 0 {
      Trivial(order[..], paths);
      return;
    }
    assert order[..1] == [order[0]] && was[..1] == order[..1];
    FirstIndex(was, paths);
    Trivial(order[..1], paths);
    OneInOrder(order[0], paths);
    for i := 1 to order.Length
      invariant Indices(order[..i], paths) && Indices(was[..i], paths) && order[i..] == was[i..]
      invariant SortedKeys(Paths(order[..i], paths))
      invariant multiset(order[..i]) == multiset(was[..i])
      invariant order[..i] == InOrder(was[..i], paths)
    {
      NextIndex(order[..], was, i, paths);
      assert order[..][..i] == order[..i] && order[..][..i + 1] == order[..i + 1] && order[..][i..] == order[i..];
      InOrderSnoc(was[..i], was[i], paths);
      InsertDown(order, i, paths);
    }
    assert order[..order.Length] == order[..] && was[..order.Length] == was;
  }

  lemma FirstIndex(was: seq<nat>, paths: seq<Text>)
    requires was != [] && Indices(was, paths)
    ensures was[0] < |paths| && Indices(was[..1], paths)
  {
  }

  lemma NextIndex(o: seq<nat>, was: seq<nat>, i: nat, paths: seq<Text>)
    requires i < |o| == |was| && o[i..] == was[i..] && Indices(o[..i], paths) && Indices(was, paths)
    ensures o[..i + 1] == o[..i] + [was[i]] && was[..i + 1] == was[..i] + [was[i]] && o[i + 1..] == was[i + 1..]
    ensures o[i] == was[i] < |paths| && Indices(o[..i + 1], paths) && Indices(was[..i], paths)
  {
    assert o[i] == o[i..][0] == was[i..][0];
    assert o[i + 1..] == o[i..][1..] && was[i + 1..] == was[i..][1..];
    assert o[..i + 1] == o[..i] + [was[i]];
  }

  lemma NoneInOrder(paths: seq<Text>)
    ensures InOrder([], paths) == []
  {
  }

  lemma OneInOrder(key: nat, paths: seq<Text>)
    requires key < |paths|
    ensures InOrder([key], paths) == [key]
  {
    assert [key][..0] == [] && InOrder([], paths) == [] && [] + [key] == [key];
  }

  lemma InOrderSnoc(s: seq<nat>, key: nat, paths: seq<Text>)
    requires Indices(s, paths) && key < |paths|
    ensures Indices(s + [key], paths) && InOrder(s + [key], paths) == Inserted(InOrder(s, paths), key, paths)
  {
    hide Inserted;
    assert (s + [key])[..|s|] == s;
  }

  lemma Trivial(order: seq<nat>, paths: seq<Text>)
    requires |order| <= 1 && Indices(order, paths)
    ensures SortedKeys(Paths(order, paths))
  {
  }

  // ------------------------------------------------------------ the emitter

  const MAX_FILES: nat := 512
  const MCDF_VERSION := Ascii("1.0")
  const SIGNATURES := Ascii("signatures/")

  /** Members that live outside the integrity boundary. */
  predicate Excluded(path: Text) {
    path == MANIFEST || path == LOG || path == CHECKPOINT || SIGNATURES <= path
  }

  /** `mcdf_micro_manifest_excluded`: the prefix is compared byte by byte. */
  method IsExcluded(path: Text) returns (r: bool)
    ensures r <==> Excluded(path)
  {
    hide Ascii;
    if path == MANIFEST || path == LOG || path == CHECKPOINT {
      return true;
    }
    for i := 0 to |SIGNATURES|
      invariant i <= |path| && forall k :: 0 <= k < i ==> SIGNATURES[k] == path[k]
    {
      if i == |path| || path[i] != SIGNATURES[i] {
        return false;
      }
    }
    assert path[..|SIGNATURES|] == SIGNATURES;
    r := true;
  }

  /** The members the manifest covers, from the `i`-th on. */
  ghost function Covered(ms: seq<Member>, i: nat): (r: seq<nat>)
    requires i <= |ms|
    ensures forall k :: 0 <= k < |r| ==> i <= r[k] < |ms|
    ensures |r| <= |ms| - i
    decreases |ms| - i
  {
    if i == |ms| then []
    else if Excluded(ms[i].path) then Covered(ms, i + 1)
    else [i] + Covered(ms, i + 1)
  }

  ghost function PathsOfMembers(ms: seq<Member>): (r: seq<Text>)
    ensures |r| == |ms| && forall i :: 0 <= i < |ms| ==> r[i] == ms[i].path
  {
    seq(|ms|, i requires 0 <= i < |ms| => ms[i].path)
  }

  /** The bytes found under a path: the first member of that name. */
  function BytesOf(ms: seq<Member>, path: Text): Text {
    if ms == [] then [] else if ms[0].path == path then ms[0].data else BytesOf(ms[1..], path)
  }

  /** The manifest entries of an ordering of members. */
  ghost function Entries(order: seq<nat>, ms: seq<Member>, hash: Text -> Text): (r: seq<File>)
    requires forall i :: 0 <= i < |order| ==> order[i] < |ms|
    ensures |r| == |order|
    ensures forall i :: 0 <= i < |order| ==> r[i] == File(ms[order[i]].path, hash(BytesOf(ms, ms[order[i]].path)))
  {
    seq(|order|, i requires 0 <= i < |order| => File(ms[order[i]].path, hash(BytesOf(ms, ms[order[i]].path))))
  }

  /** The selection loop: E_ARENA when more than 512 members qualify. */
  method Collect(ms: seq<Member>) returns (st: Status, order: seq<nat>)
    ensures st == if |Covered(ms, 0)| > MAX_FILES then E_ARENA else OK
    ensures st == OK ==> order == Covered(ms, 0)
  {
    hide Excluded;
    order := [];
    for i := 0 to |ms|
      invariant order + Covered(ms, i) == Covered(ms, 0) && |order| <= MAX_FILES
    {
      var excluded := IsExcluded(ms[i].path);
      if !excluded {
        assert order + ([i] + Covered(ms, i + 1)) == (order + [i]) + Covered(ms, i + 1);
        if |order| == MAX_FILES {
          return E_ARENA, [];
        }
        order := order + [i];
      }
    }
    assert order + [] == order;
    st := OK;
  }

  /** The output loop. */
  method Emit(order: seq<nat>, ms: seq<Member>, hash: Text -> Text) returns (out: Text)
    requires forall i :: 0 <= i < |order| ==> order[i] < |ms|
    ensures out == ManifestText(Entries(order, ms, hash), MCDF_VERSION)
  {
    hide Quoted, Items, Escape, Ascii;
    ghost var fs := Entries(order, ms, hash);
    var files := WriteEscaped(FILES);
    out := [OPEN] + files + [COLON, OPEN];
    ghost var start := out;
    NoItems(true);
    assert fs[0..] == fs;
    for i := 0 to |order|
      invariant out + Items(fs[i..], i == 0) == start + Items(fs, true)
    {
      var path := ms[order[i]].path;
      var p := WriteEscaped(path);
      var h := WriteEscaped(hash(BytesOf(ms, path)));
      ItemsUnfold(fs[i..], i == 0);
      ghost var rest := Items(fs[i + 1..], false);
      assert fs[i..][1..] == fs[i + 1..];
      var one := (if i == 0 then [] else [COMMA]) + (p + [COLON] + h);
      assert fs[i..][0] == File(path, hash(BytesOf(ms, path)));
      assert out + (one + rest) == (out + one) + rest;
      out := out + one;
    }
    NoItems(|order| == 0);
    assert fs[|order|..] == [] && out + [] == out;
    var algorithm := WriteEscaped(ALGORITHM);
    var sha := WriteEscaped(SHA256);
    var version := WriteEscaped(VERSION);
    var value := WriteEscaped(MCDF_VERSION);
    out := out + [CLOSE] + ([COMMA] + (algorithm + [COLON] + sha) + [COMMA] + (version + [COLON] + value) + [CLOSE]);
  }

  lemma ItemsUnfold(fs: seq<File>, first: bool)
    requires fs != []
    ensures Items(fs, first) ==
      (if first then [] else [COMMA]) + (Quoted(fs[0].path) + [COLON] + Quoted(fs[0].hash)) + Items(fs[1..], false)
  {
  }

  // ------------------------------------------------------------ what lies outside

  /** The members that the format puts outside the integrity boundary, by name. */
  ghost predicate Outside(path: Text) {
    path == Ascii("manifest.json") || path == Ascii("audit.log") || path == Ascii("audit.checkpoint") ||
    exists name: Text :: path == Ascii("signatures/") + name
  }

  lemma ExcludedIsOutside(path: Text)
    ensures Excluded(path) <==> Outside(path)
  {
    hide Ascii;
    if SIGNATURES <= path { assert path == Ascii("signatures/") + path[|SIGNATURES|..]; }
  }

  /** The members that lie inside it, in archive order. */
  ghost function Inside(ms: seq<Member>): seq<Member> {
    if ms == [] then [] else (if Outside(ms[0].path) then [] else [ms[0]]) + Inside(ms[1..])
  }

  /** A file put behind everything whose key is not greater, from the end. */
  ghost function InsertedFile(fs: seq<File>, f: File): (r: seq<File>)
    ensures |r| == |fs| + 1
  {
    if fs == [] || !KeyLess(f.path, fs[|fs| - 1].path) then fs + [f] else InsertedFile(fs[..|fs| - 1], f) + [fs[|fs| - 1]]
  }

  ghost function FilesInOrder(fs: seq<File>): (r: seq<File>)
    ensures |r| == |fs|
  {
    if fs == [] then [] else InsertedFile(FilesInOrder(fs[..|fs| - 1]), fs[|fs| - 1])
  }

  /** One file for each member, with the digest of what is found under its path. */
  ghost function FilesOf(ms: seq<Member>, all: seq<Member>, hash: Text -> Text): (r: seq<File>)
    ensures |r| == |ms| && forall i :: 0 <= i < |ms| ==> r[i] == File(ms[i].path, hash(BytesOf(all, ms[i].path)))
  {
    seq(|ms|, i requires 0 <= i < |ms| => File(ms[i].path, hash(BytesOf(all, ms[i].path))))
  }

  /** The files a manifest lists, in the order it lists them. */
  ghost function Listing(ms: seq<Member>, hash: Text -> Text): seq<File> {
    FilesInOrder(FilesOf(Inside(ms), Inside(ms), hash))
  }

  lemma {:induction false} EntriesInserted(s: seq<nat>, key: nat, ms: seq<Member>, hash: Text -> Text)
    requires Indices(s, PathsOfMembers(ms)) && key < |ms|
    ensures Entries(Inserted(s, key, PathsOfMembers(ms)), ms, hash) == InsertedFile(Entries(s, ms, hash), Entries([key], ms, hash)[0])
    decreases |s|
  {
    hide KeyLess, BytesOf;
    var fs := Entries(s, ms, hash);
    if s != [] && KeyLess(ms[key].path, ms[s[|s| - 1]].path) {
      EntriesInserted(s[..|s| - 1], key, ms, hash);
      assert Entries(s[..|s| - 1], ms, hash) == fs[..|s| - 1];
    }
  }

  /** Sorting the indices of members sorts the files they stand for. */
  lemma {:induction false} EntriesInOrder(s: seq<nat>, ms: seq<Member>, hash: Text -> Text)
    requires Indices(s, PathsOfMembers(ms))
    ensures Entries(InOrder(s, PathsOfMembers(ms)), ms, hash) == FilesInOrder(Entries(s, ms, hash))
    decreases |s|
  {
    hide KeyLess, BytesOf, Inserted, InsertedFile;
    if s != [] {
      var init, last := s[..|s| - 1], s[|s| - 1];
      EntriesInOrder(init, ms, hash);
      EntriesInserted(InOrder(init, PathsOfMembers(ms)), last, ms, hash);
      assert Entries(s, ms, hash)[..|s| - 1] == Entries(init, ms, hash);
    }
  }

  lemma {:induction false} CoveredIsInside(ms: seq<Member>, i: nat)
    requires i <= |ms|
    ensures |Covered(ms, i)| == |Inside(ms[i..])|
    ensures forall k :: 0 <= k < |Covered(ms, i)| ==> ms[Covered(ms, i)[k]] == Inside(ms[i..])[k]
    decreases |ms| - i
  {
    hide Outside, Excluded;
    if i < |ms| {
      CoveredIsInside(ms, i + 1);
      ExcludedIsOutside(ms[i].path);
      assert ms[i..][1..] == ms[i + 1..];
    }
  }

  /** Members outside hide nothing that lies inside. */
  lemma {:induction false} BytesInside(ms: seq<Member>, path: Text)
    requires !Outside(path)
    ensures BytesOf(Inside(ms), path) == BytesOf(ms, path)
  {
    hide Outside;
    if ms != [] {
      BytesInside(ms[1..], path);
      var rest := Inside(ms[1..]);
      if !Outside(ms[0].path) { assert ([ms[0]] + rest)[1..] == rest; } else { assert [] + rest == rest; }
    }
  }

  lemma {:induction false} InsideIsInside(ms: seq<Member>)
    ensures forall i :: 0 <= i < |Inside(ms)| ==> !Outside(Inside(ms)[i].path) && Inside(ms)[i] in ms
    ensures forall m :: m in ms && !Outside(m.path) ==> m in Inside(ms)
  {
    hide Outside;
    if ms != [] {
      InsideIsInside(ms[1..]);
      assert forall m :: m in ms <==> m == ms[0] || m in ms[1..];
    }
  }

  /** What the sorted indices of the covered members stand for. */
  lemma EntriesAreListing(ms: seq<Member>, hash: Text -> Text)
    requires Indices(Covered(ms, 0), PathsOfMembers(ms))
    ensures Entries(InOrder(Covered(ms, 0), PathsOfMembers(ms)), ms, hash) == Listing(ms, hash)
    ensures |Covered(ms, 0)| == |Inside(ms)|
  {
    hide Outside, Covered, BytesOf, InOrder, FilesInOrder;
    assert ms[0..] == ms;
    CoveredIsInside(ms, 0);
    EntriesInOrder(Covered(ms, 0), ms, hash);
    InsideIsInside(ms);
    var fs, gs := Entries(Covered(ms, 0), ms, hash), FilesOf(Inside(ms), Inside(ms), hash);
    forall k | 0 <= k < |fs| ensures fs[k] == gs[k] {
      BytesInside(ms, Inside(ms)[k].path);
    }
    assert fs == gs;
  }

  lemma {:induction false} InsertedFileHolds(fs: seq<File>, f: File)
    ensures forall x :: x in InsertedFile(fs, f) <==> x == f || x in fs
  {
    hide KeyLess;
    if fs != [] {
      InsertedFileHolds(fs[..|fs| - 1], f);
      assert forall x :: x in fs <==> x in fs[..|fs| - 1] || x == fs[|fs| - 1] by { assert fs == fs[..|fs| - 1] + [fs[|fs| - 1]]; }
    }
  }

  lemma {:induction false} OrderHolds(fs: seq<File>)
    ensures forall x :: x in FilesInOrder(fs) <==> x in fs
  {
    hide InsertedFile;
    if fs != [] {
      OrderHolds(fs[..|fs| - 1]);
      InsertedFileHolds(FilesInOrder(fs[..|fs| - 1]), fs[|fs| - 1]);
      assert forall x :: x in fs <==> x in fs[..|fs| - 1] || x == fs[|fs| - 1] by { assert fs == fs[..|fs| - 1] + [fs[|fs| - 1]]; }
    }
  }

  /** A path is listed exactly when a member inside has it, with the digest of what is found there. */
  lemma ListsExactly(ms: seq<Member>, hash: Text -> Text, f: File)
    ensures f in Listing(ms, hash) <==>
      f.hash == hash(BytesOf(ms, f.path)) && !Outside(f.path) && exists m :: m in ms && m.path == f.path
  {
    hide Outside, FilesInOrder, BytesOf, Inside;
    var fs := FilesOf(Inside(ms), Inside(ms), hash);
    OrderHolds(fs);
    InsideIsInside(ms);
    if !Outside(f.path) { BytesInside(ms, f.path); }
    if f in fs {
      var k :| 0 <= k < |fs| && fs[k] == f;
      assert Inside(ms)[k] in ms && Inside(ms)[k].path == f.path;
    }
    if !Outside(f.path) && f.hash == hash(BytesOf(ms, f.path)) && exists m :: m in ms && m.path == f.path {
      var m :| m in ms && m.path == f.path;
      var k :| 0 <= k < |Inside(ms)| && Inside(ms)[k] == m;
      assert fs[k] == f;
    }
  }

  /** What is written for a container, and whether it can be. */
  ghost function Emitted(ms: seq<Member>, hash: Text -> Text): (Status, Text) {
    if |Inside(ms)| > 512 then (E_ARENA, []) else (OK, ManifestText(Listing(ms, hash), MCDF_VERSION))
  }

  /** Members outside the boundary may come, go and change: the manifest stays as it is. */
  lemma OutsideChangesNothing(ms: seq<Member>, ns: seq<Member>, hash: Text -> Text)
    requires Inside(ms) == Inside(ns)
    ensures Emitted(ms, hash) == Emitted(ns, hash)
  {
  }

  /** A member put in or taken out makes no difference to what lies inside exactly when it lies outside. */
  lemma {:induction false} OneMoreOutside(a: seq<Member>, m: Member, b: seq<Member>)
    ensures Inside(a + [m] + b) == Inside(a + b) <==> Outside(m.path)
    ensures forall n: Member :: Outside(m.path) && Outside(n.path) ==> Inside(a + [m] + b) == Inside(a + [n] + b)
  {
    hide Outside;
    InsideConcat(a + [m], b);
    InsideConcat(a, [m]);
    InsideConcat(a, b);
    forall n: Member | Outside(m.path) && Outside(n.path) ensures Inside(a + [m] + b) == Inside(a + [n] + b) {
      InsideConcat(a + [n], b);
      InsideConcat(a, [n]);
      assert Inside([n]) == [] by { assert [n][1..] == []; }
    }
    assert [m][1..] == [] && Inside([]) == [];
  }

  lemma {:induction false} InsideConcat(a: seq<Member>, b: seq<Member>)
    ensures Inside(a + b) == Inside(a) + Inside(b)
  {
    hide Outside;
    if a == [] {
      assert a + b == b;
    } else {
      assert (a + b)[1..] == a[1..] + b && (a + b)[0] == a[0];
      InsideConcat(a[1..], b);
    }
  }

  /** `mcdf_micro_jcs_manifest`: the covered members, sorted in place, then written. */
  method EmitManifest(ms: seq<Member>, hash: Text -> Text) returns (st: Status, out: Text, ghost order: seq<nat>)
    ensures st == if |Covered(ms, 0)| > MAX_FILES then E_ARENA else OK
    ensures st == OK ==> multiset(order) == multiset(Covered(ms, 0)) && Indices(order, PathsOfMembers(ms))
    ensures st == OK ==> SortedKeys(Paths(order, PathsOfMembers(ms)))
    ensures st == OK ==> out == ManifestText(Entries(order, ms, hash), MCDF_VERSION)
    ensures (st, out) == Emitted(ms, hash)
  {
    hide SortedKeys, ManifestText, Covered, InOrder, Inside, Listing;
    var list;
    st, list := Collect(ms);
    out, order := [], [];
    EntriesAreListing(ms, hash);
    if st != OK {
      return;
    }
    var paths := seq(|ms|, i requires 0 <= i < |ms| => ms[i].path);
    var indices := new nat[|list|](i requires 0 <= i < |list| => list[i]);
    assert indices[..] == list;
    SortOrder(indices, paths);
    order := indices[..];
    out := Emit(indices[..], ms, hash);
  }
}
