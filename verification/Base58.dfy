/** base58btc of src/crypto/encoding.cpp: bignum conversion with leading zeros kept aside. */
module Base58 {
  import opened Bytes
  import opened Radix

  const B58: string :=
    "123456789" + "ABCDEFGH" + "JKLMN" + "PQRSTUVWXYZ" + "abcdefghijk" + "mnopqrstuvwxyz"

  /** The alphabet in closed form: six runs of consecutive characters. */
  function CodeOf(d: nat): int {
    if d < 9 then '1' as int + d
    else if d < 17 then 'A' as int + (d - 9)
    else if d < 22 then 'J' as int + (d - 17)
    else if d < 33 then 'P' as int + (d - 22)
    else if d < 44 then 'a' as int + (d - 33)
    else 'm' as int + (d - 44)
  }

  function CharOf(d: nat): (c: char)
    requires d < 58
  {
    CodeOf(d) as char
  }

  lemma TableIsClosedForm(d: nat)
    requires d < 58
    ensures |B58| == 58 && B58[d] == CharOf(d)
  {
  }

  lemma CharsDistinct(i: nat, j: nat)
    requires i < 58 && j < 58 && CharOf(i) == CharOf(j)
    ensures i == j
  {
  }

  ghost predicate InAlphabet(c: char) {
    exists d :: 0 <= d < 58 && CharOf(d) == c
  }

  ghost predicate Over58(s: string) {
    forall i :: 0 <= i < |s| ==> InAlphabet(s[i])
  }

  /** The table search: the digit a character stands for, or -1. */
  method DigitOf(c: char) returns (v: int)
    ensures v == -1 <==> !InAlphabet(c)
    ensures v != -1 ==> 0 <= v < 58 && CharOf(v) == c
  {
    for i := 0 to 58
      invariant forall k :: 0 <= k < i ==> CharOf(k) != c
    {
      TableIsClosedForm(i);
      if B58[i] == c {
        return i;
      }
    }
    v := -1;
  }

  ghost function DigitsOf(s: string): (ds: seq<nat>)
    requires Over58(s)
    ensures |ds| == |s| && InBase(ds, 58)
    ensures forall i :: 0 <= i < |s| ==> CharOf(ds[i]) == s[i]
  {
    if s == [] then [] else
      assert forall i :: 0 <= i < |s| - 1 ==> s[1..][i] == s[i + 1];
      var d :| 0 <= d < 58 && CharOf(d) == s[0];
      [d] + DigitsOf(s[1..])
  }

  ghost function CharsOf(ds: seq<nat>): (s: string)
    requires InBase(ds, 58)
    ensures |s| == |ds| && forall i :: 0 <= i < |s| ==> s[i] == CharOf(ds[i])
    ensures Over58(s)
  {
    seq(|ds|, i requires 0 <= i < |ds| => CharOf(ds[i]))
  }

  lemma DigitsOfIs(s: string, ds: seq<nat>)
    requires |ds| == |s| && InBase(ds, 58)
    requires forall i :: 0 <= i < |s| ==> CharOf(ds[i]) == s[i]
    ensures Over58(s) && DigitsOf(s) == ds
  {
    assert Over58(s);
    forall i | 0 <= i < |s| ensures DigitsOf(s)[i] == ds[i] {
      CharsDistinct(DigitsOf(s)[i], ds[i]);
    }
  }

  /** How many elements at the front of `s` equal `z`. */
  ghost function Leading<T>(s: seq<T>, z: T): (n: nat)
    ensures n <= |s| && (n < |s| ==> s[n] != z)
    ensures forall i :: 0 <= i < n ==> s[i] == z
  {
    if s != [] && s[0] == z then 1 + Leading(s[1..], z) else 0
  }

  lemma LeadingIs<T>(s: seq<T>, z: T, n: nat)
    requires n <= |s| && (n < |s| ==> s[n] != z)
    requires forall i :: 0 <= i < n ==> s[i] == z
    ensures Leading(s, z) == n
  {
  }

  /** base58btc: a '1' for each leading zero byte, then the number in base 58. */
  ghost function Text(data: seq<byte>): string {
    var z := Leading(data, 0);
    DigitsSound(Value(data[z..], 256), 58);
    Repeat('1', z) + CharsOf(Digits(Value(data[z..], 256), 58))
  }

  /** What a base58btc text denotes; nothing when a character is outside the alphabet. */
  ghost function Denoted(text: string): Option<seq<nat>> {
    if Over58(text) then
      var z := Leading(text, '1');
      Some(Repeat(0, z) + Digits(Value(DigitsOf(text[z..]), 58), 256))
    else None
  }

  lemma OnlyZeroIsOne(d: nat)
    requires d < 58
    ensures CharOf(d) == '1' <==> d == 0
  {
  }

  /** A text with `z` leading '1's and then the digits `ds` is taken apart again. */
  lemma TextShape(z: nat, ds: seq<nat>, t: string)
    requires InBase(ds, 58) && (ds != [] ==> ds[0] != 0)
    requires t == Repeat('1', z) + CharsOf(ds)
    ensures Over58(t) && Leading(t, '1') == z && DigitsOf(t[z..]) == ds
  {
    hide CharOf;
    OnlyZeroIsOne(0);
    if ds != [] { OnlyZeroIsOne(ds[0]); }
    LeadingIs(t, '1', z);
    assert t[z..] == CharsOf(ds);
    DigitsOfIs(CharsOf(ds), ds);
    JoinedOver58(Repeat('1', z), CharsOf(ds));
  }

  lemma JoinedOver58(a: string, b: string)
    requires (forall i :: 0 <= i < |a| ==> a[i] == '1') && Over58(b)
    ensures Over58(a + b)
  {
    hide CharOf;
    OnlyZeroIsOne(0);
  }

  lemma TextParts(t: string) returns (z: nat, ds: seq<nat>)
    requires Over58(t)
    ensures z == Leading(t, '1') && ds == DigitsOf(t[z..])
    ensures ds != [] ==> ds[0] != 0
    ensures t == Repeat('1', z) + CharsOf(ds)
  {
    hide CharOf;
    z := Leading(t, '1');
    ds := DigitsOf(t[z..]);
    if ds != [] { OnlyZeroIsOne(ds[0]); }
    assert CharsOf(ds) == t[z..];
  }

  /** Decoding undoes encoding on every byte string. */
  lemma DecodeEncode(data: seq<byte>)
    ensures Denoted(Text(data)) == Some(data)
  {
    hide CharOf, Value, Digits;
    var z := Leading(data, 0);
    var v := Value(data[z..], 256);
    DigitsSound(v, 58);
    TextShape(z, Digits(v, 58), Text(data));
    DigitsComplete(data[z..], 256);
    assert Repeat<nat>(0, z) + data[z..] == data;
  }

  /** Encoding undoes decoding on every string over the alphabet. */
  lemma EncodeDecode(text: string)
    requires Over58(text)
    ensures Denoted(text).Some? && InBase(Denoted(text).value, 256)
    ensures Text(Denoted(text).value) == text
  {
    hide CharOf, Value, Digits;
    var z, ds := TextParts(text);
    var bytes := Digits(Value(ds, 58), 256);
    DigitsSound(Value(ds, 58), 256);
    var data := Repeat(0, z) + bytes;
    LeadingIs(data, 0, z);
    assert data[z..] == bytes;
    DigitsComplete(ds, 58);
  }

  /** Writing out the digits, highest first. */
  method Emit(ghost v: nat, digits: seq<nat>, zeros: nat) returns (text: string)
    requires InBase(digits, 58) && digits == LittleDigits(v, 58)
    ensures InBase(Digits(v, 58), 58)
    ensures text == Repeat('1', zeros) + CharsOf(Digits(v, 58))
  {
    hide CharOf, LittleDigits;
    assert InBase(Digits(v, 58), 58);
    ghost var chars := CharsOf(Digits(v, 58));
    text := Repeat('1', zeros);
    for k := |digits| downto 0
      invariant text == Repeat('1', zeros) + chars[..|digits| - k]
    {
      text := text + [CharOf(digits[k])];
    }
    assert chars[..|digits|] == chars;
  }

  method Encode(data: seq<byte>) returns (text: string)
    ensures text == Text(data)
  {
    hide CharOf, LittleDigits;
    var zeros := 0;
    while zeros < |data| && data[zeros] == 0
      invariant zeros <= |data| && forall i :: 0 <= i < zeros ==> data[i] == 0
    {
      zeros := zeros + 1;
    }
    LeadingIs(data, 0, zeros);
    ghost var rest := data[zeros..];
    var digits: seq<nat> := [];
    Empty(58);
    Empty(256);
    assert rest[..0] == [];
    for i := zeros to |data|
      invariant InBase(digits, 58)
      invariant digits == LittleDigits(Value(rest[..i - zeros], 256), 58)
    {
      assert rest[..i + 1 - zeros] == rest[..i - zeros] + [data[i]];
      ValueSnoc(rest[..i - zeros], data[i], 256);
      digits := MulAddDigits(Value(rest[..i - zeros], 256), digits, 256, data[i], 58);
    }
    assert rest[..|data| - zeros] == rest;
    text := Emit(Value(rest, 256), digits, zeros);
  }

  method Decode(text: string) returns (r: Result<seq<byte>, string>)
    ensures r.Ok? <==> Over58(text)
    ensures r.Ok? ==> Some(r.value) == Denoted(text)
  {
    hide CharOf, LittleDigits, Value;
    OnlyZeroIsOne(0);
    var zeros := 0;
    while zeros < |text| && text[zeros] == '1'
      invariant zeros <= |text| && forall i :: 0 <= i < zeros ==> text[i] == '1'
    {
      zeros := zeros + 1;
    }
    LeadingIs(text, '1', zeros);
    ghost var rest := text[zeros..];
    assert text == text[..zeros] + rest;
    var ok, bytes, vals := FoldChars(text, zeros);
    if !ok {
      return Err("invalid base58 character");
    }
    DigitsOfIs(rest, vals);
    JoinedOver58(text[..zeros], rest);
    var out := EmitBytes(Value(vals, 58), bytes, zeros);
    r := Ok(out);
  }

  /** The characters from `from` on folded into base-256 digits, unless one is not in the alphabet. */
  method FoldChars(text: string, from: nat) returns (ok: bool, bytes: seq<nat>, ghost vals: seq<nat>)
    requires from <= |text|
    ensures !ok ==> !Over58(text)
    ensures ok ==> |vals| == |text| - from && InBase(vals, 58) && InBase(bytes, 256)
    ensures ok ==> bytes == LittleDigits(Value(vals, 58), 256)
    ensures ok ==> forall k :: 0 <= k < |vals| ==> CharOf(vals[k]) == text[from..][k]
  {
    hide CharOf, InAlphabet, LittleDigits, Value;
    Empty(58);
    Empty(256);
    vals, bytes := [], [];
    for i := from to |text|
      invariant |vals| == i - from && InBase(vals, 58) && InBase(bytes, 256)
      invariant forall k :: 0 <= k < |vals| ==> CharOf(vals[k]) == text[from + k]
      invariant bytes == LittleDigits(Value(vals, 58), 256)
    {
      var v := DigitOf(text[i]);
      if v < 0 {
        return false, [], [];
      }
      ValueSnoc(vals, v, 58);
      bytes := MulAddDigits(Value(vals, 58), bytes, 58, v, 256);
      vals := vals + [v];
    }
    ok := true;
  }

  method EmitBytes(ghost v: nat, bytes: seq<nat>, zeros: nat) returns (out: seq<byte>)
    requires InBase(bytes, 256) && bytes == LittleDigits(v, 256)
    ensures out == Repeat(0, zeros) + Digits(v, 256)
  {
    hide LittleDigits;
    ghost var number := Digits(v, 256);
    out := Repeat(0, zeros);
    for k := |bytes| downto 0
      invariant out == Repeat(0, zeros) + number[..|bytes| - k]
    {
      out := out + [bytes[k]];
    }
    assert number[..|bytes|] == number;
  }
}
