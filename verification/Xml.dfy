/**
 * A reader for the part of XML 1.0 that consists of elements, attributes, character data and
 * references: what a document must be for a conforming parser to accept it, and what it says.
 * Comments, processing instructions, CDATA sections and doctypes are not read, attribute values are
 * taken as written, and bytes from 0x80 on are letters, whatever they encode.
 */
module Xml {
  import opened Bytes
  import opened Json
  import opened Markup
  import opened Yaml
  import M = Manifest

  /** What a document says, character data byte by byte. */
  datatype Item = Char(c: byte) | Start(name: Text, attrs: seq<Attr>) | Empty(name: Text, attrs: seq<Attr>) | End(name: Text)

  // ------------------------------------------------------------ characters and names

  /** Section 2.2: tab, line feed, carriage return, and everything from the space on. */
  predicate Legal(c: byte) {
    c == 9 || c == 10 || c == 13 || c >= 0x20
  }

  predicate AllLegal(s: Text) {
    forall i :: 0 <= i < |s| ==> Legal(s[i])
  }

  predicate Space(c: byte) {
    c == 0x20 || c == 9 || c == 10 || c == 13
  }

  predicate NameStart(c: byte) {
    0x41 <= c <= 0x5A || 0x61 <= c <= 0x7A || c == 0x5F || c == 0x3A || c >= 0x80
  }

  predicate NameByte(c: byte) {
    NameStart(c) || 0x30 <= c <= 0x39 || c == 0x2D || c == 0x2E
  }

  /** Section 2.3. */
  predicate IsName(n: Text) {
    n != [] && NameStart(n[0]) && forall i :: 0 <= i < |n| ==> NameByte(n[i])
  }

  /** How many name bytes a text begins with. */
  ghost function NameRun(t: Text): (n: nat)
    ensures n <= |t| && (n < |t| ==> !NameByte(t[n])) && forall i :: 0 <= i < n ==> NameByte(t[i])
  {
    if t == [] || !NameByte(t[0]) then 0 else 1 + NameRun(t[1..])
  }

  /** A name, and what stands behind it. */
  ghost function ReadName(t: Text): (r: Option<(Text, Text)>)
    ensures r.Some? ==> |r.value.1| < |t|
  {
    if t == [] || !NameStart(t[0]) then None else Some((t[..NameRun(t)], t[NameRun(t)..]))
  }

  ghost function AfterSpaces(t: Text): (r: Text)
    ensures |r| <= |t|
  {
    if t == [] || !Space(t[0]) then t else AfterSpaces(t[1..])
  }

  // ------------------------------------------------------------ references

  predicate IsHex(c: byte) {
    0x30 <= c <= 0x39 || 0x41 <= c <= 0x46 || 0x61 <= c <= 0x66
  }

  function HexDigit(c: byte): nat
    requires IsHex(c)
  {
    if c <= 0x39 then c - 0x30 else if c <= 0x46 then c - 0x37 else c - 0x57
  }

  function Number(ds: Text, base: nat): nat
    requires forall i :: 0 <= i < |ds| ==> IsHex(ds[i])
  {
    if ds == [] then 0 else Number(ds[..|ds| - 1], base) * base + HexDigit(ds[|ds| - 1])
  }

  /** The code point a character reference names: `#` and digits, or `#x` and hexadecimal digits. */
  function CodePoint(name: Text): Option<nat> {
    if |name| >= 2 && name[1] == 0x78 then
      if |name| > 2 && forall i :: 2 <= i < |name| ==> IsHex(name[i]) then Some(Number(name[2..], 16)) else None
    else if |name| > 1 && forall i :: 1 <= i < |name| ==> 0x30 <= name[i] <= 0x39 then Some(Number(name[1..], 10))
    else None
  }

  predicate LegalCode(c: nat) {
    c == 9 || c == 10 || c == 13 || 0x20 <= c < 0xD800 || 0xE000 <= c <= 0xFFFD || 0x10000 <= c <= 0x10FFFF
  }

  /** Section 4.1: a character reference, to a character there is. */
  predicate IsCharRef(name: Text) {
    name != [] && name[0] == HASH && CodePoint(name).Some? && LegalCode(CodePoint(name).value)
  }

  /** What stands between `&` and `;` means these bytes, or nothing. */
  function Meaning(name: Text): Option<Text> {
    if IsCharRef(name) then Some(Utf8Bytes(CodePoint(name).value))
    else if name == M.Ascii("lt") then Some([LT])
    else if name == M.Ascii("gt") then Some([GT])
    else if name == M.Ascii("amp") then Some([AMP])
    else if name == M.Ascii("quot") then Some([QUOTE])
    else if name == M.Ascii("apos") then Some([APOSTROPHE])
    else None
  }

  /** The place of the first semicolon. */
  ghost function SemiAt(t: Text): (n: nat)
    ensures n <= |t| && (n < |t| ==> t[n] == SEMI) && SEMI !in t[..n]
  {
    if t == [] || t[0] == SEMI then 0
    else
      assert t[..1 + SemiAt(t[1..])] == [t[0]] + t[1..][..SemiAt(t[1..])];
      1 + SemiAt(t[1..])
  }

  /** A reference, from behind its `&`. */
  ghost function ReadRef(t: Text): (r: Option<(Text, Text)>)
    ensures r.Some? ==> |r.value.1| < |t|
  {
    var n := SemiAt(t);
    if n == |t| || Meaning(t[..n]).None? then None else Some((Meaning(t[..n]).value, t[n + 1..]))
  }

  // ------------------------------------------------------------ tags

  /** An attribute value from behind its opening quote. */
  ghost function ReadValue(t: Text, quote: byte): (r: Option<(Text, Text)>)
    ensures r.Some? ==> |r.value.1| < |t|
    decreases |t|
  {
    if t == [] || t[0] == LT || !Legal(t[0]) then None
    else if t[0] == quote then Some(([], t[1..]))
    else
      var one := if t[0] == AMP then ReadRef(t[1..]) else Some(([t[0]], t[1..]));
      if one.None? then None
      else
        var r := ReadValue(one.value.1, quote);
        if r.None? then None else Some((one.value.0 + r.value.0, r.value.1))
  }

  /** `name = "value"`, from the name on. */
  ghost function ReadAttr(t: Text): (r: Option<(Attr, Text)>)
    ensures r.Some? ==> |r.value.1| < |t|
  {
    var n := ReadName(t);
    if n.None? then None
    else
      var eq := AfterSpaces(n.value.1);
      if eq == [] || eq[0] != EQ then None
      else
        var q := AfterSpaces(eq[1..]);
        if q == [] || (q[0] != QUOTE && q[0] != APOSTROPHE) then None
        else
          var v := ReadValue(q[1..], q[0]);
          if v.None? then None else Some((Attr(n.value.0, v.value.0), v.value.1))
  }

  /** Attributes, each behind white space, and what stands behind the white space after the last. */
  ghost function ReadAttrs(t: Text): (r: Option<(seq<Attr>, Text)>)
    ensures r.Some? ==> |r.value.1| <= |t|
    decreases |t|
  {
    var u := AfterSpaces(t);
    if u == t || u == [] || !NameStart(u[0]) then Some(([], u))
    else
      var a := ReadAttr(u);
      if a.None? then None
      else
        var r := ReadAttrs(a.value.1);
        if r.None? then None else Some(([a.value.0] + r.value.0, r.value.1))
  }

  /** No name twice (section 3.1). */
  predicate Distinct(attrs: seq<Attr>) {
    forall i, j :: 0 <= i < j < |attrs| ==> attrs[i].name != attrs[j].name
  }

  /** The end of a tag, from behind its attributes. */
  ghost function ReadTagEnd(name: Text, attrs: seq<Attr>, t: Text): (r: Option<(seq<Item>, Text)>)
    ensures r.Some? ==> |r.value.1| < |t|
  {
    if !Distinct(attrs) || t == [] then None
    else if t[0] == GT then Some(([Start(name, attrs)], t[1..]))
    else if |t| >= 2 && t[0] == SLASH && t[1] == GT then Some(([Empty(name, attrs)], t[2..]))
    else None
  }

  /** A start tag or an empty-element tag, from behind its `<`. */
  ghost function ReadStart(t: Text): (r: Option<(seq<Item>, Text)>)
    ensures r.Some? ==> |r.value.1| < |t|
  {
    var n := ReadName(t);
    if n.None? then None
    else
      var a := ReadAttrs(n.value.1);
      if a.None? then None else ReadTagEnd(n.value.0, a.value.0, a.value.1)
  }

  /** An end tag, from behind its `</`. */
  ghost function ReadEnd(t: Text): (r: Option<(seq<Item>, Text)>)
    ensures r.Some? ==> |r.value.1| < |t|
  {
    var n := ReadName(t);
    if n.None? then None
    else
      var u := AfterSpaces(n.value.1);
      if u == [] || u[0] != GT then None else Some(([End(n.value.0)], u[1..]))
  }

  // ------------------------------------------------------------ documents

  ghost function Chars(s: Text): (r: seq<Item>)
    ensures |r| == |s|
  {
    seq(|s|, i requires 0 <= i < |s| => Char(s[i]))
  }

  /** A tag, a reference or a byte of character data. */
  ghost function ReadOne(t: Text): (r: Option<(seq<Item>, Text)>)
    requires t != []
    ensures r.Some? ==> |r.value.1| < |t|
  {
    if t[0] == LT then
      if |t| >= 2 && t[1] == SLASH then ReadEnd(t[2..]) else ReadStart(t[1..])
    else if t[0] == AMP then
      var r := ReadRef(t[1..]);
      if r.None? then None else Some((Chars(r.value.0), r.value.1))
    else if Legal(t[0]) then Some(([Char(t[0])], t[1..]))
    else None
  }

  ghost function Behind(items: seq<Item>, r: Option<seq<Item>>): Option<seq<Item>> {
    if r.None? then None else Some(items + r.value)
  }

  /** Everything a text says, or nothing when some of it cannot be read. */
  ghost function Read(t: Text): Option<seq<Item>>
    decreases |t|
  {
    if t == [] then Some([])
    else
      var one := ReadOne(t);
      if one.None? then None else Behind(one.value.0, Read(one.value.1))
  }

  /** Inside these open elements, the rest closes each of them in turn, and ends with the outermost. */
  ghost predicate Closes(items: seq<Item>, stack: seq<Text>)
    decreases |items|
  {
    if stack == [] then items == []
    else if items == [] then false
    else match items[0]
      case Char(_) => Closes(items[1..], stack)
      case Empty(_, _) => Closes(items[1..], stack)
      case Start(name, _) => Closes(items[1..], stack + [name])
      case End(name) => stack[|stack| - 1] == name && Closes(items[1..], stack[..|stack| - 1])
  }

  /** One root element around everything, and every element closed where it should be. */
  ghost predicate WellFormed(t: Text) {
    var r := Read(t);
    r.Some? && r.value != [] && r.value[0].Start? && Closes(r.value[1..], [r.value[0].name])
  }

  // ------------------------------------------------------------ reading what was put together

  lemma ReadUnfold(t: Text)
    requires t != []
    ensures var one := ReadOne(t); Read(t) == if one.None? then None else Behind(one.value.0, Read(one.value.1))
  {
    hide ReadOne, Behind;
  }

  lemma {:induction false} NameRunOf(n: Text, rest: Text)
    requires forall i :: 0 <= i < |n| ==> NameByte(n[i])
    requires rest != [] && !NameByte(rest[0])
    ensures NameRun(n + rest) == |n|
  {
    hide NameByte;
    if n != [] {
      assert (n + rest)[1..] == n[1..] + rest;
      NameRunOf(n[1..], rest);
    } else {
      assert n + rest == rest;
    }
  }

  lemma ReadNameOf(n: Text, rest: Text)
    requires IsName(n) && rest != [] && !NameByte(rest[0])
    ensures ReadName(n + rest) == Some((n, rest))
  {
    hide NameRun, NameStart, NameByte;
    NameRunOf(n, rest);
    assert (n + rest)[..|n|] == n && (n + rest)[|n|..] == rest;
  }

  lemma {:induction false} SemiAtOf(n: Text, rest: Text)
    requires SEMI !in n
    ensures SemiAt(n + [SEMI] + rest) == |n|
  {
    var t := n + [SEMI] + rest;
    if n != [] {
      assert t[1..] == n[1..] + [SEMI] + rest;
      SemiAtOf(n[1..], rest);
    }
  }

  lemma ReadRefOf(n: Text, rest: Text)
    requires SEMI !in n
    ensures ReadRef(n + [SEMI] + rest) == if Meaning(n).None? then None else Some((Meaning(n).value, rest))
  {
    hide Meaning, SemiAt;
    SemiAtOf(n, rest);
    var t := n + [SEMI] + rest;
    assert t[..|n|] == n && t[|n| + 1..] == rest;
  }

  lemma BehindTwice(a: seq<Item>, b: seq<Item>, r: Option<seq<Item>>)
    ensures Behind(a, Behind(b, r)) == Behind(a + b, r)
  {
    if r.Some? { assert a + (b + r.value) == (a + b) + r.value; }
  }

  lemma CharsConcat(a: Text, b: Text)
    ensures Chars(a + b) == Chars(a) + Chars(b)
  {
  }

  /** One byte of character data. */
  lemma ReadByte(c: byte, rest: Text)
    requires c != LT && c != AMP
    ensures Read([c] + rest) == if Legal(c) then Behind(Chars([c]), Read(rest)) else None
  {
    hide Read, ReadEnd, ReadStart, ReadRef;
    var t := [c] + rest;
    assert t[1..] == rest && Chars([c]) == [Char(c)];
    ReadUnfold(t);
  }

  /** A reference in character data. */
  lemma ReadReference(n: Text, rest: Text)
    requires SEMI !in n
    ensures Read([AMP] + n + [SEMI] + rest) ==
      if Meaning(n).None? then None else Behind(Chars(Meaning(n).value), Read(rest))
  {
    hide Read, ReadEnd, ReadStart, ReadRef, Meaning, Chars;
    var t := [AMP] + n + [SEMI] + rest;
    assert t[1..] == n + [SEMI] + rest;
    ReadRefOf(n, rest);
    ReadUnfold(t);
  }

  /** Plain character data. */
  ghost predicate Plain(s: Text) {
    forall i :: 0 <= i < |s| ==> Legal(s[i]) && s[i] != LT && s[i] != AMP
  }

  lemma {:induction false} ReadPlain(s: Text, rest: Text)
    requires Plain(s)
    ensures Read(s + rest) == Behind(Chars(s), Read(rest))
  {
    hide Read;
    if s == [] {
      assert s + rest == rest && Chars(s) == [];
      if Read(rest).Some? { assert [] + Read(rest).value == Read(rest).value; }
    } else {
      assert s + rest == [s[0]] + (s[1..] + rest) && s == [s[0]] + s[1..];
      ReadByte(s[0], s[1..] + rest);
      ReadPlain(s[1..], rest);
      CharsConcat([s[0]], s[1..]);
      BehindTwice(Chars([s[0]]), Chars(s[1..]), Read(rest));
    }
  }

  lemma NoSpaces(t: Text)
    requires t == [] || !Space(t[0])
    ensures AfterSpaces(t) == t
  {
  }
}
