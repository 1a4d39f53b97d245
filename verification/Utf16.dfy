/**
 * Key order of canonical JSON (section 3.2.3 of RFC 8785): UTF-16 code units of UTF-8 strings,
 * written once in micro/host/jcs.c and once in src/serialize/canonical_json.cpp.
 */
module Utf16 {
  import opened Bytes
  import Lex

  // ------------------------------------------------------------ code points

  /** A Unicode scalar value other than NUL. */
  type scalar = c: int | 0 < c < 0xD800 || 0xE000 <= c <= 0x10FFFF witness 0x41

  /** A text of code points in UTF-8. */
  function Utf8(cs: seq<scalar>): seq<byte> {
    if cs == [] then [] else Utf8Bytes(cs[0]) + Utf8(cs[1..])
  }

  /** The code units of one decoded value, a surrogate pair past U+FFFF. */
  function Units(c: nat): (r: seq<int>)
    ensures 1 <= |r| <= 2
  {
    if c <= 0xFFFF then [c] else [0xD800 + (c - 0x10000) / 0x400, 0xDC00 + (c - 0x10000) % 0x400]
  }

  function UnitsOf(cs: seq<scalar>): seq<int> {
    if cs == [] then [] else Units(cs[0]) + UnitsOf(cs[1..])
  }

  // ------------------------------------------------------------ the C iterator

  /** Continuation bytes a lead byte asks for. */
  function Wanted(lead: byte): (n: nat)
    ensures n <= 3
  {
    if lead >= 0xF0 then 3 else if lead >= 0xE0 then 2 else if lead >= 0xC0 then 1 else 0
  }

  /** The payload bits of a lead byte. */
  function Payload(lead: byte): nat {
    if lead >= 0xF0 then lead % 8 else if lead >= 0xE0 then lead % 16 else if lead >= 0xC0 then lead % 32 else lead
  }

  predicate IsContinuation(b: byte) {
    0x80 <= b < 0xC0
  }

  /** Up to `need` continuation bytes from `at`: the value, and how many were taken. */
  ghost function Continue(p: seq<byte>, at: nat, need: nat, cp: nat): (r: (nat, nat))
    requires at + need <= |p|
    ensures r.1 <= need
    decreases need
  {
    if need == 0 || !IsContinuation(p[at]) then (cp, 0)
    else
      var r := Continue(p, at + 1, need - 1, cp * 64 + p[at] % 64);
      (r.0, r.1 + 1)
  }

  /** One decoded value of the C iterator and the bytes it used. */
  ghost function CDecode(p: seq<byte>, at: nat): (r: (nat, nat))
    requires at < |p|
    ensures 1 <= r.1 && at + r.1 <= |p|
  {
    var need := if at + Wanted(p[at]) >= |p| then 0 else Wanted(p[at]);
    var r := Continue(p, at + 1, need, Payload(p[at]));
    (r.0, r.1 + 1)
  }

  ghost function CUnits(p: seq<byte>, at: nat): seq<int>
    requires at <= |p|
    decreases |p| - at
  {
    if at == |p| then [] else Units(CDecode(p, at).0) + CUnits(p, at + CDecode(p, at).1)
  }

  // ------------------------------------------------------------ the C++ decoder

  ghost function Gather(p: seq<byte>, at: nat, len: nat, cp: nat): nat
    decreases len
  {
    if len == 0 || at >= |p| then cp else Gather(p, at + 1, len - 1, cp * 64 + p[at] % 64)
  }

  ghost function CppUnits(p: seq<byte>, at: nat): seq<int>
    decreases if at <= |p| then |p| - at else 0
  {
    if at >= |p| then []
    else Units(Gather(p, at + 1, Wanted(p[at]), Payload(p[at]))) + CppUnits(p, at + 1 + Wanted(p[at]))
  }

  // ------------------------------------------------------------ agreement on well-formed text

  /** Where every byte is a continuation byte, checking for it makes no difference. */
  lemma {:induction false} SameRun(p: seq<byte>, at: nat, need: nat, cp: nat)
    requires at + need <= |p| && forall k :: at <= k < at + need ==> IsContinuation(p[k])
    ensures Continue(p, at, need, cp) == (Gather(p, at, need, cp), need)
    decreases need
  {
    if need > 0 {
      SameRun(p, at + 1, need - 1, cp * 64 + p[at] % 64);
    }
  }

  /** Payload bits of a lead byte with up to three continuation bytes after it. */
  function Combine(e: seq<byte>): nat
    requires 1 <= |e| <= 4
  {
    var x := Payload(e[0]);
    if |e| == 1 then x
    else if |e| == 2 then x * 64 + e[1] % 64
    else if |e| == 3 then (x * 64 + e[1] % 64) * 64 + e[2] % 64
    else ((x * 64 + e[1] % 64) * 64 + e[2] % 64) * 64 + e[3] % 64
  }

  /** The lead byte of a code point announces its continuation bytes, and together they are it. */
  lemma Utf8OneShape(c: scalar)
    ensures Wanted(Utf8Bytes(c)[0]) == |Utf8Bytes(c)| - 1
    ensures forall k :: 0 < k < |Utf8Bytes(c)| ==> IsContinuation(Utf8Bytes(c)[k])
  {
  }

  lemma CombineUtf8(c: scalar)
    ensures Combine(Utf8Bytes(c)) == c
  {
    Sixes(c);
    var q1 := c / 64;
    var q2 := q1 / 64;
    var q3 := q2 / 64;
    Masks(q3, q2, q1, c);
    if c < 0x80 {
    } else if c < 0x800 {
      CombineTwo(c, q1);
    } else if c < 0x10000 {
      CombineThree(c, q1, q2);
    } else {
      CombineFour(c, q1, q2, q3);
    }
  }

  lemma CombineTwo(c: nat, q1: nat)
    requires 0x80 <= c < 0x800 && q1 == c / 64
    ensures q1 < 32 && Combine([0xC0 + q1, 0x80 + c % 64]) == c
  {
    hide Payload;
    assert Payload(0xC0 + q1) == q1 by { LeadPayload(0, 0, q1); }
    TailBits(c);
  }

  lemma CombineThree(c: nat, q1: nat, q2: nat)
    requires c < 0x10000 && q1 == c / 64 && q2 == q1 / 64
    ensures q2 < 16 && Combine([0xE0 + q2, 0x80 + q1 % 64, 0x80 + c % 64]) == c
  {
    hide Payload;
    assert Payload(0xE0 + q2) == q2 by { LeadPayload(0, q2, 0); }
    TailBits(c);
    TailBits(q1);
  }

  lemma CombineFour(c: nat, q1: nat, q2: nat, q3: nat)
    requires 0x10000 <= c < 0x110000 && q1 == c / 64 && q2 == q1 / 64 && q3 == q2 / 64
    ensures q3 < 8 && Combine([0xF0 + q3, 0x80 + q2 % 64, 0x80 + q1 % 64, 0x80 + c % 64]) == c
  {
    hide Payload;
    assert Payload(0xF0 + q3) == q3 by { LeadPayload(q3, 0, 0); }
    TailBits(c);
    TailBits(q1);
    TailBits(q2);
  }

  lemma LeadPayload(q3: nat, q2: nat, q1: nat)
    requires q3 < 8 && q2 < 16 && q1 < 32
    ensures Payload(0xF0 + q3) == q3 && Payload(0xE0 + q2) == q2 && Payload(0xC0 + q1) == q1
  {
    Masks(q3, q2, q1, 0);
  }

  lemma TailBits(x: nat)
    ensures (0x80 + x % 64) % 64 == x % 64 && x == x / 64 * 64 + x % 64
  {
    Masks(0, 0, 0, x);
  }

  /** Masking off the marker bits of a lead byte and of continuation bytes. */
  lemma Masks(q3: nat, q2: nat, q1: nat, c: nat)
    ensures (0x80 + c % 64) % 64 == c % 64 && (0x80 + q1 % 64) % 64 == q1 % 64 && (0x80 + q2 % 64) % 64 == q2 % 64
    ensures q3 < 8 ==> (0xF0 + q3) % 8 == q3
    ensures q2 < 16 ==> (0xE0 + q2) % 16 == q2
    ensures q1 < 32 ==> (0xC0 + q1) % 32 == q1
  {
  }

  lemma Sixes(c: nat)
    ensures c / 0x1000 == c / 64 / 64 && c / 0x40000 == c / 64 / 64 / 64
  {
  }

  lemma GatherIsCombine(p: seq<byte>, at: nat, e: seq<byte>)
    requires 1 <= |e| <= 4 && at + |e| <= |p| && p[at..at + |e|] == e
    ensures Gather(p, at + 1, |e| - 1, Payload(e[0])) == Combine(e)
  {
    hide Payload;
    var n := |e| - 1;
    assert forall k :: 0 <= k < |e| ==> p[at + k] == e[k];
    var x0 := Payload(e[0]);
    if n >= 1 {
      var x1 := x0 * 64 + e[1] % 64;
      assert Gather(p, at + 1, n, x0) == Gather(p, at + 2, n - 1, x1);
      if n >= 2 {
        var x2 := x1 * 64 + e[2] % 64;
        assert Gather(p, at + 2, n - 1, x1) == Gather(p, at + 3, n - 2, x2);
      }
    }
  }

  lemma DecodeOne(p: seq<byte>, at: nat, c: scalar)
    requires at + |Utf8Bytes(c)| <= |p| && p[at..at + |Utf8Bytes(c)|] == Utf8Bytes(c)
    ensures CDecode(p, at) == (c, |Utf8Bytes(c)|)
    ensures 1 + Wanted(p[at]) == |Utf8Bytes(c)|
    ensures Gather(p, at + 1, Wanted(p[at]), Payload(p[at])) == c
  {
    hide Utf8Bytes, Gather, Payload, Combine, Wanted, IsContinuation, Continue;
    var e := Utf8Bytes(c);
    assert forall k :: 0 <= k < |e| ==> p[at + k] == e[k];
    Utf8OneShape(c);
    CombineUtf8(c);
    GatherIsCombine(p, at, e);
    assert p[at] == e[0] && Wanted(p[at]) == |e| - 1;
    forall k | at + 1 <= k < at + |e| ensures IsContinuation(p[k]) { assert p[k] == e[k - at]; }
    SameRun(p, at + 1, Wanted(p[at]), Payload(p[at]));
  }

  lemma UnfoldC(p: seq<byte>, at: nat)
    requires at < |p|
    ensures CUnits(p, at) == Units(CDecode(p, at).0) + CUnits(p, at + CDecode(p, at).1)
  {
    hide CDecode, Units;
  }

  lemma UnfoldCpp(p: seq<byte>, at: nat)
    requires at < |p|
    ensures CppUnits(p, at) ==
      Units(Gather(p, at + 1, Wanted(p[at]), Payload(p[at]))) + CppUnits(p, at + 1 + Wanted(p[at]))
  {
    hide Units, Gather, Wanted, Payload;
  }

  lemma NothingLeft(p: seq<byte>)
    ensures CUnits(p, |p|) == [] && CppUnits(p, |p|) == []
  {
  }

  /** Both implementations read well-formed UTF-8 as the same UTF-16. */
  lemma {:induction false} SameUnits(p: seq<byte>, at: nat, cs: seq<scalar>)
    requires at <= |p| && p[at..] == Utf8(cs)
    ensures CUnits(p, at) == UnitsOf(cs) && CppUnits(p, at) == UnitsOf(cs)
    decreases |cs|
  {
    hide Utf8Bytes, CDecode, Gather, Wanted, Payload, CUnits, CppUnits, Units;
    if cs != [] {
      var e := Utf8Bytes(cs[0]);
      assert p[at..at + |e|] == p[at..][..|e|] && p[at + |e|..] == p[at..][|e|..];
      DecodeOne(p, at, cs[0]);
      SameUnits(p, at + |e|, cs[1..]);
      UnfoldC(p, at);
      UnfoldCpp(p, at);
    } else {
      NothingLeft(p);
    }
  }

  // ------------------------------------------------------------ agreement on any text

  /** A lead byte that both decoders take with the same bytes after it: all it asks for, or none. */
  ghost predicate AlikeAt(p: seq<byte>, at: nat)
    requires at < |p|
  {
    at + 1 == |p| ||
    (at + Wanted(p[at]) < |p| && forall k :: at < k <= at + Wanted(p[at]) ==> IsContinuation(p[k]))
  }

  /** Every lead byte is such a one. */
  ghost predicate Alike(p: seq<byte>, at: nat)
    requires at <= |p|
    decreases |p| - at
  {
    at == |p| || (AlikeAt(p, at) && Alike(p, at + CDecode(p, at).1))
  }

  /** Where the C++ decoder goes on, which may run past the end. */
  ghost function CppNext(p: seq<byte>, at: nat): (r: nat)
    requires at < |p|
    ensures at < r <= |p|
  {
    if at + 1 + Wanted(p[at]) < |p| then at + 1 + Wanted(p[at]) else |p|
  }

  ghost function CppValue(p: seq<byte>, at: nat): nat
    requires at < |p|
  {
    Gather(p, at + 1, Wanted(p[at]), Payload(p[at]))
  }

  /** One decoding step: the same bytes are taken exactly there, and then for the same value. */
  lemma StepAlike(p: seq<byte>, at: nat)
    requires at < |p|
    ensures AlikeAt(p, at) <==> at + CDecode(p, at).1 == CppNext(p, at)
    ensures AlikeAt(p, at) ==> CDecode(p, at).0 == CppValue(p, at)
  {
    hide Payload, Wanted, IsContinuation;
    var need := Wanted(p[at]);
    if at + need < |p| {
      RunIsWhole(p, at + 1, need, Payload(p[at]));
      if AlikeAt(p, at) && need > 0 { assert at + 1 < |p|; }
      if forall k :: at < k <= at + need ==> IsContinuation(p[k]) {
        SameRun(p, at + 1, need, Payload(p[at]));
      }
    }
  }

  /** All bytes asked for are taken exactly when all are continuation bytes. */
  lemma {:induction false} RunIsWhole(p: seq<byte>, at: nat, need: nat, cp: nat)
    requires at + need <= |p|
    ensures Continue(p, at, need, cp).1 == need <==> forall k :: at <= k < at + need ==> IsContinuation(p[k])
    decreases need
  {
    hide IsContinuation;
    if need > 0 && IsContinuation(p[at]) {
      RunIsWhole(p, at + 1, need - 1, cp * 64 + p[at] % 64);
    }
  }

  /** What a decoder makes of a text: each value with the place where it ends. */
  ghost function CPieces(p: seq<byte>, at: nat): seq<(nat, nat)>
    requires at <= |p|
    decreases |p| - at
  {
    if at == |p| then []
    else [(CDecode(p, at).0, at + CDecode(p, at).1)] + CPieces(p, at + CDecode(p, at).1)
  }

  ghost function CppPieces(p: seq<byte>, at: nat): seq<(nat, nat)>
    requires at <= |p|
    decreases |p| - at
  {
    if at == |p| then [] else [(CppValue(p, at), CppNext(p, at))] + CppPieces(p, CppNext(p, at))
  }

  /** The two decoders cut a text into the same pieces exactly when every lead byte is taken alike. */
  lemma {:induction false} SamePieces(p: seq<byte>, at: nat)
    requires at <= |p|
    ensures CPieces(p, at) == CppPieces(p, at) <==> Alike(p, at)
    decreases |p| - at
  {
    hide AlikeAt, CDecode, CppValue, CppNext;
    if at < |p| {
      StepAlike(p, at);
      var c, cpp := CPieces(p, at), CppPieces(p, at);
      assert c[0].1 == at + CDecode(p, at).1 && cpp[0].1 == CppNext(p, at);
      assert c[1..] == CPieces(p, at + CDecode(p, at).1) && cpp[1..] == CppPieces(p, CppNext(p, at));
      if AlikeAt(p, at) { SamePieces(p, CppNext(p, at)); }
    }
  }

  /** Then they read it as the same UTF-16. */
  lemma {:induction false} AlikeUnits(p: seq<byte>, at: nat)
    requires at <= |p| && Alike(p, at)
    ensures CUnits(p, at) == CppUnits(p, at)
    decreases |p| - at
  {
    hide AlikeAt, CDecode, Gather, Wanted, Payload, CUnits, CppUnits, Units;
    if at < |p| {
      StepAlike(p, at);
      AlikeUnits(p, CppNext(p, at));
      UnfoldC(p, at);
      UnfoldCpp(p, at);
      PastTheEnd(p, at + 1 + Wanted(p[at]));
    } else {
      NothingLeft(p);
    }
  }

  lemma PastTheEnd(p: seq<byte>, at: nat)
    ensures at >= |p| ==> CppUnits(p, at) == CppUnits(p, |p|)
  {
  }

  /** Well-formed UTF-8 is such text. */
  lemma {:induction false} WellFormedIsAlike(p: seq<byte>, at: nat, cs: seq<scalar>)
    requires at <= |p| && p[at..] == Utf8(cs)
    ensures Alike(p, at)
    decreases |cs|
  {
    hide Utf8Bytes, CDecode, Wanted, IsContinuation;
    if cs != [] {
      var e := Utf8Bytes(cs[0]);
      assert p[at..at + |e|] == p[at..][..|e|] && p[at + |e|..] == p[at..][|e|..];
      assert forall k :: 0 <= k < |e| ==> p[at + k] == e[k];
      DecodeOne(p, at, cs[0]);
      Utf8OneShape(cs[0]);
      forall k | at < k < at + |e| ensures IsContinuation(p[k]) { assert p[k] == e[k - at]; }
      WellFormedIsAlike(p, at + |e|, cs[1..]);
    }
  }

  /** On other text they need not: a lead byte without its continuation byte. */
  lemma MalformedDiffers()
    ensures CUnits([0xC3, 0x28], 0) == [3, 0x28] && CppUnits([0xC3, 0x28], 0) == [0xE8]
  {
    var p: seq<byte> := [0xC3, 0x28];
    assert CDecode(p, 0) == (3, 1);
    assert CDecode(p, 1) == (0x28, 1);
    assert CUnits(p, 2) == [];
    assert CUnits(p, 1) == [0x28];
    assert Gather(p, 2, 0, 0xE8) == 0xE8;
    assert Gather(p, 1, 1, 3) == 0xE8;
    assert CppUnits(p, 2) == [];
  }

  // ------------------------------------------------------------ any code units, spelled

  /** Every unit in three bytes, which both decoders take alike. */
  function Spelled(w: seq<int>): seq<byte>
    requires InRange(w)
  {
    if w == [] then [] else Three(w[0]) + Spelled(w[1..])
  }

  function Three(u: nat): (e: seq<byte>)
    requires u < 0x10000
    ensures |e| == 3
  {
    [0xE0 + u / 64 / 64, 0x80 + u / 64 % 64, 0x80 + u % 64]
  }

  predicate InRange(w: seq<int>) {
    forall i :: 0 <= i < |w| ==> 0 <= w[i] < 0x10000
  }

  lemma ThreeIsTaken(p: seq<byte>, at: nat, u: nat)
    requires u < 0x10000 && at + 3 <= |p| && p[at..at + 3] == Three(u)
    ensures AlikeAt(p, at) && CDecode(p, at) == (u, 3)
  {
    hide Gather, Payload, Combine, IsContinuation, Continue;
    var e := Three(u);
    assert forall k :: 0 <= k < 3 ==> p[at + k] == e[k];
    assert IsContinuation(e[1]) && IsContinuation(e[2]) by { Continuations(u); }
    CombineThree(u, u / 64, u / 64 / 64);
    GatherIsCombine(p, at, e);
    SameRun(p, at + 1, 2, Payload(p[at]));
  }

  lemma Continuations(u: nat)
    ensures IsContinuation(0x80 + u / 64 % 64) && IsContinuation(0x80 + u % 64)
  {
  }

  lemma {:induction false} SpelledUnits(p: seq<byte>, at: nat, w: seq<int>)
    requires InRange(w) && at <= |p| && p[at..] == Spelled(w)
    ensures Alike(p, at) && CUnits(p, at) == w
    decreases |w|
  {
    hide Three, CDecode, AlikeAt, Units;
    if w != [] {
      assert p[at..at + 3] == p[at..][..3] && p[at + 3..] == p[at..][3..];
      ThreeIsTaken(p, at, w[0]);
      SpelledUnits(p, at + 3, w[1..]);
      OneUnit(w[0]);
      assert w == [w[0]] + w[1..];
    }
  }

  lemma OneUnit(u: nat)
    requires u < 0x10000
    ensures Units(u) == [u]
  {
  }

  /** A lead byte and what may follow it stay within the range of UTF-16. */
  lemma {:induction false} GatherBound(p: seq<byte>, at: nat, len: nat, cp: nat, bound: nat)
    requires cp < bound && len <= 3
    ensures Gather(p, at, len, cp) < bound * (if len == 0 then 1 else if len == 1 then 64 else if len == 2 then 0x1000 else 0x40000)
    decreases len
  {
    if len > 0 && at < |p| { GatherBound(p, at + 1, len - 1, cp * 64 + p[at] % 64, bound * 64); }
  }

  lemma {:induction false} ContinueBound(p: seq<byte>, at: nat, len: nat, cp: nat, bound: nat)
    requires cp < bound && len <= 3 && at + len <= |p|
    ensures Continue(p, at, len, cp).0 < bound * (if len == 0 then 1 else if len == 1 then 64 else if len == 2 then 0x1000 else 0x40000)
    decreases len
  {
    if len > 0 && IsContinuation(p[at]) { ContinueBound(p, at + 1, len - 1, cp * 64 + p[at] % 64, bound * 64); }
  }

  lemma ValueBound(p: seq<byte>, at: nat)
    requires at < |p|
    ensures CDecode(p, at).0 < 0x200000 && CppValue(p, at) < 0x200000
  {
    hide Continue, Gather;
    var lead := p[at];
    var bound := if lead >= 0xF0 then 8 else if lead >= 0xE0 then 16 else if lead >= 0xC0 then 32 else 0x100;
    GatherBound(p, at + 1, Wanted(lead), Payload(lead), bound);
    ContinueBound(p, at + 1, if at + Wanted(lead) >= |p| then 0 else Wanted(lead), Payload(lead), bound);
  }

  lemma UnitsBound(c: nat)
    requires c < 0x200000
    ensures InRange(Units(c))
  {
  }

  lemma {:induction false} CUnitsInRange(p: seq<byte>, at: nat)
    requires at <= |p|
    ensures InRange(CUnits(p, at))
    decreases |p| - at
  {
    hide CDecode, Units, CppValue;
    if at < |p| {
      ValueBound(p, at);
      UnitsBound(CDecode(p, at).0);
      CUnitsInRange(p, at + CDecode(p, at).1);
    }
  }

  lemma {:induction false} CppUnitsInRange(p: seq<byte>, at: nat)
    ensures InRange(CppUnits(p, at))
    decreases if at <= |p| then |p| - at else 0
  {
    hide CDecode, Units, Gather, Wanted, Payload;
    if at < |p| {
      ValueBound(p, at);
      UnitsBound(CppValue(p, at));
      CppUnitsInRange(p, at + 1 + Wanted(p[at]));
    }
  }

  // ------------------------------------------------------------ the order

  /** Where the encodings of two code points first differ. */
  function SplitPoint(x: seq<byte>, y: seq<byte>): nat {
    if |x| == 0 || |y| == 0 || x[0] != y[0] then 0
    else if |x| == 1 || |y| == 1 || x[1] != y[1] then 1
    else if |x| == 2 || |y| == 2 || x[2] != y[2] then 2
    else 3
  }

  /** The last six bits decide only when the rest is equal. */
  lemma DigitOrder(c: nat, d: nat)
    requires c <= d
    ensures c / 64 <= d / 64 && (c / 64 == d / 64 ==> c % 64 <= d % 64) && (c / 64 == d / 64 && c % 64 == d % 64 ==> c == d)
  {
  }

  /** Longer encodings start higher. */
  lemma LengthOrder(c: scalar, d: scalar)
    requires c < d
    ensures |Utf8Bytes(c)| <= |Utf8Bytes(d)|
    ensures |Utf8Bytes(c)| < |Utf8Bytes(d)| ==> Utf8Bytes(c)[0] < Utf8Bytes(d)[0]
  {
  }

  /** UTF-8 keeps the order of code points, and no encoding is a prefix of another. */
  lemma Utf8OneOrder(c: scalar, d: scalar)
    requires c < d
    ensures var k := SplitPoint(Utf8Bytes(c), Utf8Bytes(d));
      Lex.DifferAt(Utf8Bytes(c), Utf8Bytes(d), k) && Utf8Bytes(c)[k] < Utf8Bytes(d)[k]
  {
    hide Utf8Bytes;
    LengthOrder(c, d);
    if |Utf8Bytes(c)| == |Utf8Bytes(d)| { SameLengthOrder(c, d); }
  }

  lemma SameLengthOrder(c: scalar, d: scalar)
    requires c < d && |Utf8Bytes(c)| == |Utf8Bytes(d)|
    ensures var x, y := Utf8Bytes(c), Utf8Bytes(d); var k := SplitPoint(x, y); Lex.DifferAt(x, y, k) && x[k] < y[k]
  {
    if |Utf8Bytes(c)| == 2 {
      TwoBytes(c, d);
    } else if |Utf8Bytes(c)| == 3 {
      ThreeBytes(c, d);
    } else if |Utf8Bytes(c)| == 4 {
      FourBytes(c, d);
    }
  }

  lemma TwoBytes(c: scalar, d: scalar)
    requires 0x80 <= c < d < 0x800
    ensures var x, y := Utf8Bytes(c), Utf8Bytes(d); var k := SplitPoint(x, y); Lex.DifferAt(x, y, k) && x[k] < y[k]
  {
    DigitOrder(c, d);
    FirstDiffers(Utf8Bytes(c), Utf8Bytes(d));
  }

  lemma ThreeBytes(c: scalar, d: scalar)
    requires 0x800 <= c < d < 0x10000
    ensures var x, y := Utf8Bytes(c), Utf8Bytes(d); var k := SplitPoint(x, y); Lex.DifferAt(x, y, k) && x[k] < y[k]
  {
    Sixes(c);
    Sixes(d);
    DigitOrder(c, d);
    DigitOrder(c / 64, d / 64);
    FirstDiffers(Utf8Bytes(c), Utf8Bytes(d));
  }

  lemma FourBytes(c: scalar, d: scalar)
    requires 0x10000 <= c < d
    ensures var x, y := Utf8Bytes(c), Utf8Bytes(d); var k := SplitPoint(x, y); Lex.DifferAt(x, y, k) && x[k] < y[k]
  {
    Sixes(c);
    Sixes(d);
    DigitOrder(c, d);
    DigitOrder(c / 64, d / 64);
    DigitOrder(c / 64 / 64, d / 64 / 64);
    FirstDiffers(Utf8Bytes(c), Utf8Bytes(d));
  }

  /** Of two encodings of one length, the first difference decides. */
  lemma FirstDiffers(x: seq<byte>, y: seq<byte>)
    requires 2 <= |x| == |y| <= 4
    requires x[0] <= y[0] && (x[0] == y[0] ==> x[1] <= y[1])
    requires |x| >= 3 && x[0] == y[0] && x[1] == y[1] ==> x[2] <= y[2]
    requires |x| >= 4 && x[0] == y[0] && x[1] == y[1] && x[2] == y[2] ==> x[3] <= y[3]
    requires x != y
    ensures var k := SplitPoint(x, y); Lex.DifferAt(x, y, k) && x[k] < y[k]
  {
    assert (forall i :: 0 <= i < |x| ==> x[i] == y[i]) ==> x == y;
  }

  /** A supplementary character against one of U+E000..U+FFFF: the pair UTF-16 orders the other way. */
  predicate Crossed(c: scalar, d: scalar) {
    (c >= 0x10000 && 0xE000 <= d < 0x10000) || (d >= 0x10000 && 0xE000 <= c < 0x10000)
  }

  /** The first difference of two texts is such a pair. */
  ghost predicate Crosses(a: seq<scalar>, b: seq<scalar>) {
    a != [] && b != [] && if a[0] == b[0] then Crosses(a[1..], b[1..]) else Crossed(a[0], b[0])
  }

  lemma UnitsOrder(c: scalar, d: scalar)
    requires c < d
    ensures var k := if Units(c)[0] != Units(d)[0] then 0 else 1;
      Lex.DifferAt(Units(c), Units(d), k) && (Units(c)[k] < Units(d)[k] <==> !Crossed(c, d))
  {
  }

  /** A difference inside two heads decides, whatever follows. */
  lemma HeadsDecide(x: seq<int>, y: seq<int>, k: nat, xs: seq<int>, ys: seq<int>)
    requires Lex.DifferAt(x, y, k)
    ensures Lex.Less(x + xs, y + ys) <==> x[k] < y[k]
    ensures Lex.Less(y + ys, x + xs) <==> y[k] < x[k]
    ensures x + xs != y + ys
  {
    assert (x + xs)[..k] == x[..k] && (y + ys)[..k] == y[..k];
    Lex.LessAt(x + xs, y + ys, k);
    Lex.LessAt(y + ys, x + xs, k);
  }

  lemma HeadOrders(c: scalar, d: scalar, xs: seq<byte>, ys: seq<byte>, us: seq<int>, vs: seq<int>)
    requires c != d
    ensures Lex.Less(Utf8Bytes(c) + xs, Utf8Bytes(d) + ys) <==> c < d
    ensures Lex.Less(Units(c) + us, Units(d) + vs) <==> (c < d) == !Crossed(c, d)
    ensures Units(c) + us != Units(d) + vs
  {
    var lo, hi := if c < d then c else d, if c < d then d else c;
    Utf8OneOrder(lo, hi);
    UnitsOrder(lo, hi);
    hide Utf8Bytes, Units, Crossed;
    var k, m := SplitPoint(Utf8Bytes(lo), Utf8Bytes(hi)), if Units(lo)[0] != Units(hi)[0] then 0 else 1;
    if c < d {
      HeadsDecide(Utf8Bytes(c), Utf8Bytes(d), k, xs, ys);
      HeadsDecide(Units(c), Units(d), m, us, vs);
    } else {
      HeadsDecide(Utf8Bytes(d), Utf8Bytes(c), k, ys, xs);
      HeadsDecide(Units(d), Units(c), m, vs, us);
    }
  }

  /** UTF-16 order is byte order, except exactly where the first difference is a crossed pair. */
  lemma {:induction false} OrderVersusBytes(a: seq<scalar>, b: seq<scalar>)
    ensures (Lex.Less(UnitsOf(a), UnitsOf(b)) <==> Lex.Less(Utf8(a), Utf8(b))) <==> !Crosses(a, b)
    decreases |a|
  {
    hide Utf8Bytes, Units, Crossed;
    if a != [] && b != [] {
      var x, y, u, v := Utf8(a[1..]), Utf8(b[1..]), UnitsOf(a[1..]), UnitsOf(b[1..]);
      if a[0] == b[0] {
        OrderVersusBytes(a[1..], b[1..]);
        Lex.SharedPrefix(Utf8Bytes(a[0]), x, y);
        Lex.SharedPrefix(Units(a[0]), u, v);
      } else {
        HeadOrders(a[0], b[0], x, y, u, v);
      }
    }
  }

  /** Without supplementary characters the two orders are one. */
  lemma {:induction false} OrderIsByteOrder(a: seq<scalar>, b: seq<scalar>)
    requires forall i :: 0 <= i < |a| ==> a[i] < 0x10000
    requires forall i :: 0 <= i < |b| ==> b[i] < 0x10000
    ensures Lex.Less(UnitsOf(a), UnitsOf(b)) <==> Lex.Less(Utf8(a), Utf8(b))
  {
    NoCrossing(a, b);
    OrderVersusBytes(a, b);
  }

  lemma {:induction false} NoCrossing(a: seq<scalar>, b: seq<scalar>)
    requires forall i :: 0 <= i < |a| ==> a[i] < 0x10000
    requires forall i :: 0 <= i < |b| ==> b[i] < 0x10000
    ensures !Crosses(a, b)
  {
    if a != [] && b != [] && a[0] == b[0] {
      NoCrossing(a[1..], b[1..]);
    }
  }

  lemma {:induction false} UnitsInjective(a: seq<scalar>, b: seq<scalar>)
    requires a != b
    ensures UnitsOf(a) != UnitsOf(b)
    decreases |a|
  {
    hide Utf8Bytes, Units, Crossed;
    if a != [] && b != [] {
      var u, v := UnitsOf(a[1..]), UnitsOf(b[1..]);
      if a[0] == b[0] {
        assert a == [a[0]] + a[1..] && b == [b[0]] + b[1..];
        UnitsInjective(a[1..], b[1..]);
        var h := Units(a[0]);
        assert (h + u)[|h|..] == u && (h + v)[|h|..] == v;
      } else {
        HeadOrders(a[0], b[0], [], [], u, v);
      }
    }
  }

  /** On well-formed text the key order is strict and total: exactly one of `<`, `==`, `>`. */
  lemma KeyOrderIsTotal(a: seq<scalar>, b: seq<scalar>)
    ensures a == b ==> !Lex.Less(UnitsOf(a), UnitsOf(b))
    ensures a != b ==> (Lex.Less(UnitsOf(a), UnitsOf(b)) <==> !Lex.Less(UnitsOf(b), UnitsOf(a)))
  {
    Lex.Total(UnitsOf(a), UnitsOf(b));
    if a != b { UnitsInjective(a, b); }
  }
}
