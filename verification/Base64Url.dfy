/**
 * base64url of src/crypto/encoding.cpp, as in section 5 of RFC 4648 without padding. The decoder
 * runs on a 32-bit accumulator that overflows; the reference below works on whole groups.
 */
module Base64Url {
  import opened Bytes
  import Radix

  type sextet = v: int | 0 <= v < 64

  const B64: string :=
    "ABCDEFGHIJKLM" + "NOPQRSTUVWXYZ" + "abcdefghijklm" + "nopqrstuvwxyz" + "0123456789" + "-_"

  /** The alphabet in closed form. */
  function CharOf(v: sextet): char {
    if v < 26 then ('A' as int + v) as char
    else if v < 52 then ('a' as int + (v - 26)) as char
    else if v < 62 then ('0' as int + (v - 52)) as char
    else if v == 62 then '-' else '_'
  }

  lemma TableIsClosedForm(v: sextet)
    ensures |B64| == 64 && B64[v] == CharOf(v)
  {
  }

  /** `b64_value`: the sextet of a character, or -1. */
  function ValueOf(c: char): (v: int)
    ensures -1 <= v < 64
  {
    if 'A' <= c <= 'Z' then c as int - 'A' as int
    else if 'a' <= c <= 'z' then c as int - 'a' as int + 26
    else if '0' <= c <= '9' then c as int - '0' as int + 52
    else if c == '-' then 62
    else if c == '_' then 63
    else -1
  }

  lemma AlphabetInverse(v: sextet, c: char)
    ensures ValueOf(c) == v <==> c == CharOf(v)
  {
  }

  ghost predicate OverAlphabet(s: string) {
    forall i :: 0 <= i < |s| ==> ValueOf(s[i]) != -1
  }

  ghost function Sextets(s: string): (vs: seq<sextet>)
    requires OverAlphabet(s)
    ensures |vs| == |s| && forall i :: 0 <= i < |s| ==> vs[i] == ValueOf(s[i])
  {
    seq(|s|, i requires 0 <= i < |s| => ValueOf(s[i]))
  }

  ghost function Chars(vs: seq<sextet>): (s: string)
    ensures |s| == |vs| && forall i :: 0 <= i < |s| ==> s[i] == CharOf(vs[i])
  {
    seq(|vs|, i requires 0 <= i < |vs| => CharOf(vs[i]))
  }

  lemma SextetsOfChars(vs: seq<sextet>)
    ensures OverAlphabet(Chars(vs)) && Sextets(Chars(vs)) == vs
  {
    hide CharOf, ValueOf;
    forall i | 0 <= i < |vs| ensures ValueOf(Chars(vs)[i]) == vs[i] {
      AlphabetInverse(vs[i], CharOf(vs[i]));
    }
  }

  lemma CharsOfSextets(s: string)
    requires OverAlphabet(s)
    ensures Chars(Sextets(s)) == s
  {
    hide CharOf, ValueOf;
    forall i | 0 <= i < |s| ensures Chars(Sextets(s))[i] == s[i] {
      AlphabetInverse(ValueOf(s[i]), s[i]);
    }
  }

  // ------------------------------------------------------------ the reference

  /** A 24-bit group as four sextets. */
  function Sextets24(n: nat): (vs: seq<sextet>)
    ensures |vs| == 4
  {
    [n / 0x40000 % 64, n / 0x1000 % 64, n / 64 % 64, n % 64]
  }

  /** A 24-bit group as three bytes. */
  function Bytes24(n: nat): (bs: seq<byte>)
    ensures |bs| == 3
  {
    [n / 0x10000 % 256, n / 0x100 % 256, n % 256]
  }

  function OfBytes(a: int, b: int, c: int): int {
    a * 0x10000 + b * 0x100 + c
  }

  function OfSextets(a: int, b: int, c: int, d: int): int {
    a * 0x40000 + b * 0x1000 + c * 64 + d
  }

  lemma ShiftTwice(n: nat)
    ensures n / 64 / 64 == n / 0x1000 && n / 0x1000 / 64 == n / 0x40000
    ensures n / 0x100 / 0x100 == n / 0x10000
  {
  }

  lemma OfBytesInverse(a: byte, b: byte, c: byte)
    ensures 0 <= OfBytes(a, b, c) < 0x1000000 && Bytes24(OfBytes(a, b, c)) == [a, b, c]
  {
    var n: nat := OfBytes(a, b, c);
    ShiftTwice(n);
    Radix.DivModUnique(a * 0x100 + b, c, 0x100);
    Radix.DivModUnique(a, b, 0x100);
    ThreeAre(n, a * 0x100 + b, a, b, c);
  }

  lemma ThreeAre(n: nat, q: nat, a: byte, b: byte, c: byte)
    requires n / 0x100 / 0x100 == n / 0x10000 && n / 0x100 == q && n % 0x100 == c && q / 0x100 == a && q % 0x100 == b
    ensures Bytes24(n) == [a, b, c]
  {
  }

  lemma OfSextetsInverse(a: sextet, b: sextet, c: sextet, d: sextet)
    ensures 0 <= OfSextets(a, b, c, d) < 0x1000000 && Sextets24(OfSextets(a, b, c, d)) == [a, b, c, d]
  {
    var n: nat := OfSextets(a, b, c, d);
    ShiftTwice(n);
    var q, q2 := a * 0x1000 + b * 64 + c, a * 64 + b;
    Radix.DivModUnique(q, d, 64);
    Radix.DivModUnique(q2, c, 64);
    Radix.DivModUnique(a, b, 64);
    Nested(a, b, c, d);
    hide OfSextets;
    SextetsAre(n, q, q2, a);
  }

  lemma Nested(a: sextet, b: sextet, c: sextet, d: sextet)
    ensures var q, q2 := a * 0x1000 + b * 64 + c, a * 64 + b; OfSextets(a, b, c, d) == q * 64 + d && q == q2 * 64 + c
  {
  }

  lemma FromSextets(n: nat)
    requires n < 0x1000000
    ensures var vs := Sextets24(n); OfSextets(vs[0], vs[1], vs[2], vs[3]) == n
  {
    ShiftTwice(n);
    var q := n / 64;
    var q2 := q / 64;
    var q3 := q2 / 64;
    Parts(n, q, q2, q3);
    hide Sextets24;
    assert Sextets24(n) == [q3, q2 % 64, q % 64, n % 64] by { SextetsAre(n, q, q2, q3); }
  }

  lemma Parts(n: nat, q: nat, q2: nat, q3: nat)
    requires q == n / 64 && q2 == q / 64 && q3 == q2 / 64 && n < 0x1000000
    ensures q3 < 64 && n == q3 * 0x40000 + q2 % 64 * 0x1000 + q % 64 * 64 + n % 64
  {
    assert n == q * 64 + n % 64 && q == q2 * 64 + q % 64 && q2 == q3 * 64 + q2 % 64;
  }

  lemma SextetsAre(n: nat, q: nat, q2: nat, q3: nat)
    requires q == n / 64 && q2 == n / 0x1000 && q3 == n / 0x40000 && q3 < 64
    ensures Sextets24(n) == [q3, q2 % 64, q % 64, n % 64]
  {
  }

  lemma FromBytes(n: nat)
    requires n < 0x1000000
    ensures var bs := Bytes24(n); OfBytes(bs[0], bs[1], bs[2]) == n
  {
    ShiftTwice(n);
    var q := n / 0x100;
    assert q == q / 0x100 * 0x100 + q % 0x100 && q / 0x100 < 0x100;
  }

  /** Bytes that are not there leave the last sextets zero. */
  lemma ShortBytes(a: byte, b: byte)
    ensures Sextets24(OfBytes(a, b, 0))[3] == 0
    ensures Sextets24(OfBytes(a, 0, 0))[2] == 0
  {
    ZeroSextets(a, b, OfBytes(a, b, 0), OfBytes(a, 0, 0));
  }

  lemma ZeroSextets(a: nat, b: nat, two: nat, one: nat)
    requires two == a * 0x10000 + b * 0x100 && one == a * 0x10000
    ensures two % 64 == 0 && one / 64 % 64 == 0
  {
    assert two == 64 * (a * 0x400 + b * 4);
    assert one == 64 * 64 * (a * 16) && one / 64 == 64 * (a * 16);
  }

  /** Sextets that are not there leave the last bytes zero exactly when the surplus bits are. */
  lemma ShortSextets(a: sextet, b: sextet, c: sextet)
    ensures Bytes24(OfSextets(a, b, c, 0))[2] == 0 <==> c % 4 == 0
    ensures Bytes24(OfSextets(a, b, 0, 0))[1..] == [0, 0] <==> b % 16 == 0
  {
    Surplus(a, b, c, OfSextets(a, b, c, 0), OfSextets(a, b, 0, 0));
  }

  lemma Surplus(a: nat, b: nat, c: nat, three: nat, two: nat)
    requires three == a * 0x40000 + b * 0x1000 + c * 64 && two == a * 0x40000 + b * 0x1000
    ensures three % 0x100 == c % 4 * 64 && two % 0x100 == 0 && two / 0x100 % 0x100 == b % 16 * 16
  {
    var q, r := c / 4, c % 4;
    assert three == (a * 0x400 + b * 16 + q) * 0x100 + r * 64;
    Radix.DivModUnique(a * 0x400 + b * 16 + q, r * 64, 0x100);
    Radix.DivModUnique(a * 0x400 + b * 16, 0, 0x100);
    assert a * 0x400 + b * 16 == (a * 4 + b / 16) * 0x100 + b % 16 * 16;
    Radix.DivModUnique(a * 4 + b / 16, b % 16 * 16, 0x100);
  }

  /** Three bytes make four sextets; one or two left over make two or three. */
  ghost function Regroup(data: seq<byte>): seq<sextet> {
    if |data| >= 3 then Sextets24(OfBytes(data[0], data[1], data[2])) + Regroup(data[3..])
    else if |data| == 2 then Sextets24(OfBytes(data[0], data[1], 0))[..3]
    else if |data| == 1 then Sextets24(OfBytes(data[0], 0, 0))[..2]
    else []
  }

  /** Four sextets make three bytes; two or three left over make one or two, dropping surplus bits. */
  ghost function Ungroup(vs: seq<sextet>): seq<byte> {
    if |vs| >= 4 then Bytes24(OfSextets(vs[0], vs[1], vs[2], vs[3])) + Ungroup(vs[4..])
    else if |vs| == 3 then Bytes24(OfSextets(vs[0], vs[1], vs[2], 0))[..2]
    else if |vs| == 2 then Bytes24(OfSextets(vs[0], vs[1], 0, 0))[..1]
    else []
  }

  ghost function Text(data: seq<byte>): string {
    Chars(Regroup(data))
  }

  ghost function Denoted(text: string): Option<seq<byte>> {
    if OverAlphabet(text) then Some(Ungroup(Sextets(text))) else None
  }

  /** Nothing was dropped: no lone last sextet, and the surplus bits are zero. */
  ghost predicate Canonical(vs: seq<sextet>) {
    if |vs| >= 4 then Canonical(vs[4..])
    else if |vs| == 3 then vs[2] % 4 == 0
    else if |vs| == 2 then vs[1] % 16 == 0
    else |vs| == 0
  }

  lemma {:induction false} UngroupRegroup(data: seq<byte>)
    ensures Ungroup(Regroup(data)) == data
  {
    hide Sextets24, Bytes24, OfBytes, OfSextets;
    var a := if |data| > 0 then data[0] else 0;
    var b := if |data| > 1 then data[1] else 0;
    var c := if |data| > 2 then data[2] else 0;
    OfBytesInverse(a, b, c);
    FromSextets(OfBytes(a, b, c));
    ShortBytes(a, b);
    if |data| >= 3 {
      UngroupRegroup(data[3..]);
      assert Regroup(data)[4..] == Regroup(data[3..]);
      assert data == [a, b, c] + data[3..];
    }
  }

  lemma {:induction false} RegroupUngroup(vs: seq<sextet>)
    ensures Regroup(Ungroup(vs)) == vs <==> Canonical(vs)
  {
    hide Sextets24, Bytes24, OfBytes, OfSextets;
    var a := if |vs| > 0 then vs[0] else 0;
    var b := if |vs| > 1 then vs[1] else 0;
    var c := if |vs| > 2 then vs[2] else 0;
    var d := if |vs| > 3 then vs[3] else 0;
    OfSextetsInverse(a, b, c, d);
    FromBytes(OfSextets(a, b, c, d));
    ShortSextets(a, b, c);
    if |vs| >= 4 {
      RegroupUngroup(vs[4..]);
      assert Ungroup(vs)[3..] == Ungroup(vs[4..]);
      assert vs == [a, b, c, d] + vs[4..];
    } else {
      var bs := Bytes24(OfSextets(a, b, c, d));
      var x, y := bs[0], if |vs| == 3 then bs[1] else 0;
      OfBytesInverse(x, y, 0);
      FromSextets(OfBytes(x, y, 0));
      ShortBytes(x, y);
    }
  }

  /** Decoding undoes encoding on every byte string. */
  lemma DecodeEncode(data: seq<byte>)
    ensures Denoted(Text(data)) == Some(data)
  {
    SextetsOfChars(Regroup(data));
    UngroupRegroup(data);
  }

  /** Encoding undoes decoding exactly on the texts that end without dropped bits. */
  lemma EncodeDecode(text: string)
    requires OverAlphabet(text)
    ensures Text(Denoted(text).value) == text <==> Canonical(Sextets(text))
  {
    var vs := Sextets(text);
    CharsOfSextets(text);
    SextetsOfChars(Regroup(Ungroup(vs)));
    RegroupUngroup(vs);
  }

  // ------------------------------------------------------------ the loops

  /** The first `k` characters of a 24-bit group, picked out by shifts and masks. */
  function GroupChars(n: nat, k: nat): (s: string)
    requires k <= 4
    ensures s == Chars(Sextets24(n)[..k])
  {
    hide CharOf;
    [CharOf(n / 0x40000 % 64), CharOf(n / 0x1000 % 64), CharOf(n / 64 % 64), CharOf(n % 64)][..k]
  }

  lemma CharsConcat(a: seq<sextet>, b: seq<sextet>)
    ensures Chars(a + b) == Chars(a) + Chars(b)
  {
    hide CharOf;
  }

  /** A whole group in front of the rest. */
  lemma EncodeGroup(data: seq<byte>, i: nat)
    requires i + 3 <= |data|
    ensures var n := OfBytes(data[i], data[i + 1], data[i + 2]);
      n >= 0 && Chars(Regroup(data[i..])) == GroupChars(n, 4) + Chars(Regroup(data[i + 3..]))
  {
    hide CharOf, Sextets24, OfBytes, GroupChars;
    var n := OfBytes(data[i], data[i + 1], data[i + 2]);
    OfBytesInverse(data[i], data[i + 1], data[i + 2]);
    assert data[i..][3..] == data[i + 3..];
    assert Regroup(data[i..]) == Sextets24(n) + Regroup(data[i + 3..]);
    hide Regroup;
    CharsConcat(Sextets24(n), Regroup(data[i + 3..]));
    assert Sextets24(n)[..4] == Sextets24(n);
  }

  /** What is left when less than a group remains. */
  lemma EncodeRest(data: seq<byte>, i: nat)
    requires i <= |data| < i + 3
    ensures |data| - i == 0 ==> Chars(Regroup(data[i..])) == ""
    ensures |data| - i == 1 ==> OfBytes(data[i], 0, 0) >= 0
    ensures |data| - i == 1 ==> Chars(Regroup(data[i..])) == GroupChars(OfBytes(data[i], 0, 0), 2)
    ensures |data| - i == 2 ==> OfBytes(data[i], data[i + 1], 0) >= 0
    ensures |data| - i == 2 ==> Chars(Regroup(data[i..])) == GroupChars(OfBytes(data[i], data[i + 1], 0), 3)
  {
    hide CharOf, Sextets24, OfBytes, GroupChars;
    if |data| - i == 1 { OfBytesInverse(data[i], 0, 0); }
    if |data| - i == 2 { OfBytesInverse(data[i], data[i + 1], 0); }
  }

  method Encode(data: seq<byte>) returns (out: string)
    ensures out == Text(data)
  {
    hide CharOf, Sextets24, OfBytes, GroupChars, Regroup, Chars;
    out := "";
    var i := 0;
    assert data[0..] == data;
    while i + 3 <= |data|
      invariant i <= |data|
      invariant out + Chars(Regroup(data[i..])) == Text(data)
    {
      EncodeGroup(data, i);
      out := out + GroupChars(OfBytes(data[i], data[i + 1], data[i + 2]), 4);
      i := i + 3;
    }
    EncodeRest(data, i);
    var rem := |data| - i;
    if rem == 1 {
      out := out + GroupChars(OfBytes(data[i], 0, 0), 2);
    } else if rem == 2 {
      out := out + GroupChars(OfBytes(data[i], data[i + 1], 0), 3);
    }
  }

  /** The sextets of the group under way, as a number. */
  ghost function GroupValue(vs: seq<sextet>): nat {
    if |vs| >= 4 then GroupValue(vs[4..])
    else if |vs| == 3 then (vs[0] as int * 64 + vs[1] as int) * 64 + vs[2] as int
    else if |vs| == 2 then vs[0] as int * 64 + vs[1] as int
    else if |vs| == 1 then vs[0] as int
    else 0
  }

  /** The byte that completes when `k` sextets of a group are in, from their number. */
  function Completed(k: nat, x: nat): seq<byte> {
    if k == 2 then [x / 16 % 0x100]
    else if k == 3 then [x / 4 % 0x100]
    else if k == 4 then [x % 0x100]
    else []
  }

  lemma CompletedGroup(a: sextet, b: sextet, c: sextet, d: sextet)
    ensures Bytes24(OfSextets(a, b, c, d)) ==
      Completed(2, a * 64 + b) + Completed(3, (a * 64 + b) * 64 + c) + Completed(4, ((a * 64 + b) * 64 + c) * 64 + d)
  {
    SharedByte(a, b, c * 64 + d);
    assert OfSextets(a, b, c, d) / 0x100 == ((a * 64 + b) * 64 + c) / 4;
  }

  lemma SharedByte(a: nat, b: nat, r: nat)
    requires r < 0x1000
    ensures (a * 0x40000 + b * 0x1000 + r) / 0x10000 == (a * 64 + b) / 16
  {
  }

  /** The bytes of a whole group. */
  ghost function GroupBytes(vs: seq<sextet>): seq<byte>
    requires |vs| >= 4
  {
    Bytes24(OfSextets(vs[0], vs[1], vs[2], vs[3]))
  }

  lemma UngroupLong(vs: seq<sextet>)
    requires |vs| >= 4
    ensures Ungroup(vs) == GroupBytes(vs) + Ungroup(vs[4..]) && GroupValue(vs) == GroupValue(vs[4..])
  {
    hide Bytes24, OfSextets;
  }

  lemma ModFour(n: nat)
    requires n >= 4
    ensures n % 4 == (n - 4) % 4
  {
  }

  lemma SnocFirst(v: sextet)
    ensures Ungroup([v]) == Ungroup([]) + Completed(1, v as nat) && GroupValue([]) == 0 && GroupValue([v]) == v as nat
  {
  }

  lemma CompletedIsOne(x: nat, y: nat)
    ensures |Completed(2, x)| == 1 && |Completed(3, y)| == 1
  {
  }

  lemma SnocSecond(vs: seq<sextet>, v: sextet)
    requires |vs| == 1
    ensures Ungroup(vs + [v]) == Ungroup(vs) + Completed(2, GroupValue(vs) * 64 + v)
    ensures GroupValue(vs + [v]) == GroupValue(vs) * 64 + v
  {
    hide Completed, Bytes24, OfSextets;
    FirstCompleted(vs[0], v);
  }

  lemma FirstCompleted(a: sextet, b: sextet)
    ensures Bytes24(OfSextets(a, b, 0, 0))[..1] == Completed(2, a as nat * 64 + b as nat)
  {
    hide Completed, Bytes24, OfSextets;
    CompletedGroup(a, b, 0, 0);
    CompletedIsOne(a as nat * 64 + b as nat, 0);
  }

  lemma SnocThird(vs: seq<sextet>, v: sextet)
    requires |vs| == 2
    ensures Ungroup(vs + [v]) == Ungroup(vs) + Completed(3, GroupValue(vs) * 64 + v)
    ensures GroupValue(vs + [v]) == GroupValue(vs) * 64 + v
  {
    hide Completed, Bytes24, OfSextets;
    var a, b := vs[0], vs[1];
    CompletedGroup(a, b, v, 0);
    CompletedGroup(a, b, 0, 0);
    CompletedIsOne(a as nat * 64 + b as nat, (a as nat * 64 + b as nat) * 64 + v as nat);
  }

  lemma SnocFourth(vs: seq<sextet>, v: sextet)
    requires |vs| == 3
    ensures Ungroup(vs + [v]) == Ungroup(vs) + Completed(4, GroupValue(vs) * 64 + v)
    ensures GroupValue(vs + [v]) == 0
  {
    hide Completed, Bytes24, OfSextets;
    var a, b, c := vs[0], vs[1], vs[2];
    CompletedGroup(a, b, c, v);
    CompletedGroup(a, b, c, 0);
    CompletedIsOne(a as nat * 64 + b as nat, (a as nat * 64 + b as nat) * 64 + c as nat);
    assert (vs + [v])[4..] == [] && Ungroup([]) == [] && GroupValue([]) == 0;
  }

  lemma SnocShort(vs: seq<sextet>, v: sextet)
    requires |vs| < 4
    ensures Ungroup(vs + [v]) == Ungroup(vs) + Completed(|vs| + 1, GroupValue(vs) * 64 + v)
    ensures GroupValue(vs + [v]) == if |vs| == 3 then 0 else GroupValue(vs) * 64 + v
  {
    hide Completed, Ungroup, GroupValue;
    if |vs| == 0 {
      assert vs + [v] == [v];
      SnocFirst(v);
    } else if |vs| == 1 {
      SnocSecond(vs, v);
    } else if |vs| == 2 {
      SnocThird(vs, v);
    } else {
      SnocFourth(vs, v);
    }
  }

  /** What one more sextet adds to the decoded bytes and to the group under way. */
  lemma {:induction false} UngroupSnoc(vs: seq<sextet>, v: sextet)
    ensures Ungroup(vs + [v]) == Ungroup(vs) + Completed(|vs| % 4 + 1, GroupValue(vs) * 64 + v)
    ensures GroupValue(vs + [v]) == if |vs| % 4 == 3 then 0 else GroupValue(vs) * 64 + v
  {
    hide GroupBytes, Completed, Ungroup, GroupValue;
    if |vs| >= 4 {
      var w, rest := vs + [v], vs[4..];
      UngroupSnoc(rest, v);
      assert w[4..] == rest + [v];
      assert GroupBytes(w) == GroupBytes(vs) by { SameGroup(vs, w); }
      UngroupLong(w);
      UngroupLong(vs);
      ModFour(|vs|);
      Append(GroupBytes(vs), Ungroup(rest), Completed(|vs| % 4 + 1, GroupValue(vs) * 64 + v));
    } else {
      SnocShort(vs, v);
    }
  }

  lemma SameGroup(vs: seq<sextet>, w: seq<sextet>)
    requires |vs| >= 4 && |w| >= 4 && w[..4] == vs[..4]
    ensures GroupBytes(w) == GroupBytes(vs)
  {
    hide Bytes24, OfSextets;
    assert forall k :: 0 <= k < 4 ==> w[..4][k] == w[k] && vs[..4][k] == vs[k];
  }

  lemma Append(a: seq<byte>, b: seq<byte>, c: seq<byte>)
    ensures a + (b + c) == (a + b) + c
  {
  }

  /** Bits pending in the accumulator after `n` characters. */
  function PendingBits(n: nat): nat {
    if n % 4 == 0 then 0 else if n % 4 == 1 then 6 else if n % 4 == 2 then 4 else 2
  }

  /** How much of the accumulator still matters when `k` sextets of a group are in. */
  function GroupSize(k: nat): (size: nat)
    ensures size > 0
  {
    if k == 0 then 1 else if k == 1 then 64 else if k == 2 then 0x1000 else if k == 3 then 0x40000 else 0x1000000
  }

  function ShiftRight(buf: nat, bits: nat): nat {
    if bits == 0 then buf else if bits == 2 then buf / 4 else if bits == 4 then buf / 16 else buf / 64
  }

  /** The 32-bit wrap loses nothing that a group still needs. */
  lemma WrapIsHarmless(buf: nat, v: sextet, k: nat, wrapped: nat)
    requires k < 4 && wrapped == (buf * 64 + v) % 0x1_0000_0000
    ensures wrapped % GroupSize(k + 1) == buf % GroupSize(k) * 64 + v
  {
    if k == 0 { Wrap(buf, v, wrapped, 1, 64, 0x400_0000); }
    else if k == 1 { Wrap(buf, v, wrapped, 64, 0x1000, 0x10_0000); }
    else if k == 2 { Wrap(buf, v, wrapped, 0x1000, 0x40000, 0x4000); }
    else { Wrap(buf, v, wrapped, 0x40000, 0x1000000, 0x100); }
  }

  lemma Wrap(buf: nat, v: nat, wrapped: nat, small: nat, big: nat, m: nat)
    requires v < 64 && small > 0 && big == small * 64 && big * m == 0x1_0000_0000
    requires wrapped == (buf * 64 + v) % 0x1_0000_0000
    ensures wrapped % big == buf % small * 64 + v
  {
    var q, r := buf / small, buf % small;
    var t := (buf * 64 + v) / 0x1_0000_0000;
    assert buf == q * small + r;
    assert wrapped == buf * 64 + v - t * 0x1_0000_0000;
    Widened(q, small, r);
    Regrouped(q, t, m, big);
    ModUnique(q - t * m, r * 64 + v, big, wrapped);
  }

  lemma Widened(q: nat, small: nat, r: nat)
    ensures (q * small + r) * 64 == q * (small * 64) + r * 64
  {
  }

  lemma Regrouped(q: nat, t: nat, m: nat, big: nat)
    ensures q * big - t * (big * m) == (q - t * m) * big
  {
  }

  lemma ModUnique(q: int, r: nat, big: nat, w: nat)
    requires r < big && w == q * big + r
    ensures w % big == r
  {
    Radix.DivModUnique(q, r, big);
  }

  lemma TopByte(buf: nat, k: nat)
    requires 2 <= k <= 4
    ensures [ShiftRight(buf, PendingBits(k)) % 0x100] == Completed(k, buf % GroupSize(k))
  {
    if k == 2 { LowBits16(buf); } else if k == 3 { LowBits4(buf); } else { LowBits1(buf); }
  }

  lemma LowBits16(buf: nat)
    ensures buf / 16 % 0x100 == buf % 0x1000 / 16 % 0x100
  {
    var q, r := buf / 0x1000, buf % 0x1000;
    var s := r / 16;
    assert s < 0x100;
    SplitShift(buf, q, r, 16, 0x100, s);
  }

  lemma LowBits4(buf: nat)
    ensures buf / 4 % 0x100 == buf % 0x40000 / 4 % 0x100
  {
    var q, r := buf / 0x40000, buf % 0x40000;
    var s, u := r / 4, buf / 4;
    assert u == q * 0x10000 + s by { Radix.DivModUnique(q * 0x10000 + s, r % 4, 4); }
    var t, w := s / 0x100, s % 0x100;
    assert u == (q * 0x100 + t) * 0x100 + w;
    Radix.DivModUnique(q * 0x100 + t, w, 0x100);
  }

  lemma LowBits1(buf: nat)
    ensures buf % 0x100 == buf % 0x1000000 % 0x100
  {
    var q, r := buf / 0x1000000, buf % 0x1000000;
    var t, w := r / 0x100, r % 0x100;
    assert buf == (q * 0x10000 + t) * 0x100 + w;
    Radix.DivModUnique(q * 0x10000 + t, w, 0x100);
  }

  /** Shifting by `shift` moves the part above `shift * top` clear of the low `top` values. */
  lemma SplitShift(buf: nat, q: nat, r: nat, shift: nat, top: nat, s: nat)
    requires shift == 16 && top == 0x100 && buf == q * 0x1000 + r && s == r / shift && s < top
    ensures buf / shift % top == s && s % top == s
  {
    Radix.DivModUnique(q * top + s, r % shift, shift);
    Radix.DivModUnique(q, s, top);
  }

  /** One character of the decoding loop, from the accumulator `buf` to `next`. */
  lemma DecodeStep(vs: seq<sextet>, v: sextet, k: nat, buf: nat, next: nat)
    requires k == |vs| % 4 && GroupValue(vs) == buf % GroupSize(k)
    requires next == (buf * 64 + v) % 0x1_0000_0000
    ensures GroupValue(vs + [v]) == next % GroupSize((k + 1) % 4)
    ensures Ungroup(vs + [v]) == Ungroup(vs) +
      if k == 0 then [] else [ShiftRight(next, PendingBits(k + 1)) % 0x100]
  {
    hide Ungroup, GroupValue, ShiftRight, Completed, GroupSize, PendingBits;
    UngroupSnoc(vs, v);
    WrapIsHarmless(buf, v, k, next);
    Boundaries(next);
    if k > 0 { TopByte(next, k + 1); }
  }

  /** At the start of a group nothing is pending and nothing completed. */
  lemma Boundaries(next: nat)
    ensures GroupSize(0) == 1 && next % 1 == 0 && forall x :: Completed(1, x) == []
  {
  }

  method Decode(text: string) returns (r: Result<seq<byte>, string>)
    ensures r.Ok? <==> OverAlphabet(text)
    ensures r.Ok? ==> Some(r.value) == Denoted(text)
  {
    var out: seq<byte> := [];
    var buf: nat := 0;
    var bits := 0;
    ghost var vs: seq<sextet> := [];
    hide ValueOf, Ungroup, GroupValue, GroupSize, ShiftRight, PendingBits, Sextets;
    NothingYet(buf);
    for i := 0 to |text|
      invariant |vs| == i && forall k :: 0 <= k < i ==> vs[k] == ValueOf(text[k])
      invariant bits == PendingBits(i)
      invariant out == Ungroup(vs) && GroupValue(vs) == buf % GroupSize(i % 4)
    {
      var v := ValueOf(text[i]);
      if v < 0 {
        return Err("invalid base64url character");
      }
      ghost var was := buf;
      buf := (buf * 64 + v) % 0x1_0000_0000;
      DecodeStep(vs, v, i % 4, was, buf);
      BitsStep(i, i % 4);
      vs := vs + [v];
      bits := bits + 6;
      if bits >= 8 {
        bits := bits - 8;
        out := out + [ShiftRight(buf, bits) % 0x100];
      }
    }
    AllSextets(text, vs);
    r := Ok(out);
  }

  lemma NothingYet(buf: nat)
    ensures GroupValue([]) == 0 && Ungroup([]) == [] && PendingBits(0) == 0 && buf % GroupSize(0) == 0
  {
  }

  lemma AllSextets(text: string, vs: seq<sextet>)
    requires |vs| == |text| && forall k :: 0 <= k < |text| ==> vs[k] == ValueOf(text[k])
    ensures OverAlphabet(text) && vs == Sextets(text)
  {
    hide ValueOf;
  }

  lemma BitsStep(i: nat, k: nat)
    requires k == i % 4
    ensures (k + 1) % 4 == (i + 1) % 4 && PendingBits(k + 1) == PendingBits(i + 1)
    ensures PendingBits(i + 1) == if k == 0 then PendingBits(i) + 6 else PendingBits(i) + 6 - 8
    ensures PendingBits(i) + 6 >= 8 <==> k != 0
  {
  }
}
