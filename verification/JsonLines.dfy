/** What the streaming JSON reader makes of JSON that the writers do not write. */
module JsonLines {
  import opened Bytes
  import opened Json
  import M = Manifest

  // ------------------------------------------------------------ escapes

  /** The two-character escapes; any other letter but `u` is refused. */
  lemma EscapesRead(c: byte, tail: Text)
    ensures FirstPiece([0x5C, 0x22] + tail) == Some(Piece([0x22], 2)) && FirstPiece([0x5C, 0x5C] + tail) == Some(Piece([0x5C], 2))
    ensures FirstPiece([0x5C, 0x2F] + tail) == Some(Piece([0x2F], 2)) && FirstPiece([0x5C, 0x62] + tail) == Some(Piece([0x08], 2))
    ensures FirstPiece([0x5C, 0x66] + tail) == Some(Piece([0x0C], 2)) && FirstPiece([0x5C, 0x6E] + tail) == Some(Piece([0x0A], 2))
    ensures FirstPiece([0x5C, 0x72] + tail) == Some(Piece([0x0D], 2)) && FirstPiece([0x5C, 0x74] + tail) == Some(Piece([0x09], 2))
    ensures c !in [0x22, 0x5C, 0x2F, 0x62, 0x66, 0x6E, 0x72, 0x74, 0x75] ==> FirstPiece([0x5C, c] + tail) == None
  {
  }

  /** `c` is the digit `n`, in either case. */
  predicate DigitIs(c: byte, n: nat) {
    (n < 10 && c == 0x30 + n) || (10 <= n < 16 && (c == 0x61 + (n - 10) || c == 0x41 + (n - 10)))
  }

  /** Four digits, in either case. */
  predicate Spells(d: Text, v: nat) {
    |d| == 4 && v < 0x10000 && DigitIs(d[0], v / 0x1000) && DigitIs(d[1], v / 0x100 % 16) && DigitIs(d[2], v / 16 % 16) && DigitIs(d[3], v % 16)
  }

  lemma FourDigits(d: Text, v: nat, tail: Text)
    requires Spells(d, v)
    ensures Hex4(d + tail) == Some(v)
  {
    var t := d + tail;
    assert t[0] == d[0] && t[1] == d[1] && t[2] == d[2] && t[3] == d[3];
    Sixteens(v);
  }

  lemma Sixteens(v: nat)
    ensures ((v / 0x1000 * 16 + v / 0x100 % 16) * 16 + v / 16 % 16) * 16 + v % 16 == v
  {
    var a := v / 16;
    var b := a / 16;
    SixteenTwice(v);
    assert v == a * 16 + v % 16;
    assert a == b * 16 + a % 16;
    assert b == b / 16 * 16 + b % 16;
  }

  lemma SixteenTwice(v: nat)
    ensures v / 0x100 == v / 16 / 16 && v / 0x1000 == v / 16 / 16 / 16
  {
  }

  /** `\\uHHHH` is that character, unless it is half of a pair. */
  lemma UnicodeReads(d: Text, v: nat, tail: Text)
    requires Spells(d, v)
    ensures v < 0xD800 || v > 0xDFFF ==> FirstPiece([0x5C, 0x75] + d + tail) == Some(Piece(Utf8Bytes(v), 6))
    ensures 0xDC00 <= v <= 0xDFFF ==> FirstPiece([0x5C, 0x75] + d + tail) == None
  {
    hide Utf8Bytes, Hex4, Spells;
    var t := [0x5C, 0x75] + d + tail;
    assert t[2..] == d + tail;
    FourDigits(d, v, tail);
  }

  /** Two of them are one supplementary character. */
  lemma PairReads(hi: Text, lo: Text, cp: nat, tail: Text)
    requires 0x10000 <= cp < 0x110000
    requires Spells(hi, 0xD800 + (cp - 0x10000) / 0x400) && Spells(lo, 0xDC00 + (cp - 0x10000) % 0x400)
    ensures FirstPiece([0x5C, 0x75] + hi + [0x5C, 0x75] + lo + tail) == Some(Piece(Utf8Bytes(cp), 12))
  {
    var h, l := 0xD800 + (cp - 0x10000) / 0x400, 0xDC00 + (cp - 0x10000) % 0x400;
    FourDigits(hi, h, [0x5C, 0x75] + lo + tail);
    FourDigits(lo, l, tail);
    assert |hi| == 4 && |lo| == 4;
    hide Utf8Bytes, Hex4, Spells;
    PairParts(hi, lo, tail);
    Halves(cp);
  }

  lemma PairParts(hi: Text, lo: Text, tail: Text)
    requires |hi| == 4 && |lo| == 4
    ensures var t := [0x5C, 0x75] + hi + [0x5C, 0x75] + lo + tail;
      |t| >= 12 && t[0] == 0x5C && t[1] == 0x75 && t[2..] == hi + ([0x5C, 0x75] + lo + tail) && t[8..] == lo + tail && t[6] == 0x5C && t[7] == 0x75
  {
  }

  lemma Halves(cp: nat)
    requires 0x10000 <= cp < 0x110000
    ensures var h, l := 0xD800 + (cp - 0x10000) / 0x400, 0xDC00 + (cp - 0x10000) % 0x400;
      0xD800 <= h <= 0xDBFF && 0xDC00 <= l <= 0xDFFF && 0x10000 + (h - 0xD800) * 0x400 + (l - 0xDC00) == cp
  {
  }

  // ------------------------------------------------------------ values

  /** A JSON value; the text of a number or of a bare word is as it is spelled. */
  datatype Tree = Bare(text: Text) | Quote(s: Text) | Array(items: seq<Tree>) | Object(props: seq<Prop>)
  datatype Prop = Prop(key: Text, value: Tree)

  ghost predicate BareText(t: Text) {
    t != [] && forall i :: 0 <= i < |t| ==>
      t[i] !in [0x20, 0x09, 0x0A, 0x0D, 0x2C, 0x3A, 0x22, 0x5B, 0x5D, 0x7B, 0x7D]
  }

  ghost function Spell(v: Tree): Text {
    match v
    case Bare(text) => text
    case Quote(s) => Quoted(s)
    case Array(items) => [0x5B] + SpellItems(items) + [0x5D]
    case Object(props) => [0x7B] + SpellProps(props) + [0x7D]
  }

  ghost function SpellItems(items: seq<Tree>): Text {
    if items == [] then []
    else if |items| == 1 then Spell(items[0])
    else Spell(items[0]) + [0x2C] + SpellItems(items[1..])
  }

  ghost function SpellProps(props: seq<Prop>): Text {
    if props == [] then []
    else
      var first := Quoted(props[0].key) + [0x3A] + Spell(props[0].value);
      if |props| == 1 then first else first + [0x2C] + SpellProps(props[1..])
  }

  ghost predicate Sound(v: Tree) {
    match v
    case Bare(text) => BareText(text)
    case Quote(_) => true
    case Array(items) => forall i :: 0 <= i < |items| ==> Sound(items[i])
    case Object(props) => forall i :: 0 <= i < |props| ==> Sound(props[i].value)
  }

  /** What may stand behind a value. */
  predicate Delimits(rest: Text) {
    rest == [] || rest[0] in [0x20, 0x09, 0x0A, 0x0D, 0x2C, 0x5D, 0x7D]
  }

  lemma {:induction false} LiteralEnds(t: Text, rest: Text)
    requires (forall i :: 0 <= i < |t| ==> t[i] !in [0x20, 0x09, 0x0A, 0x0D, 0x2C, 0x5D, 0x7D]) && Delimits(rest)
    ensures AfterLiteral(t + rest) == rest
  {
    if t == [] {
      assert t + rest == rest;
    } else {
      LiteralEnds(t[1..], rest);
      assert (t + rest)[1..] == t[1..] + rest;
    }
  }

  /** What a skip at some depth comes to once a value has been passed. */
  ghost function Past(rest: Text, depth: nat): Option<Text> {
    if depth == 0 then Some(rest) else Skip(rest, depth)
  }

  lemma SkipBare(t: Text, rest: Text, depth: nat)
    requires BareText(t) && Delimits(rest)
    ensures Skip(t + rest, depth) == Past(rest, depth)
  {
    var u := t + rest;
    assert u[0] == t[0] && u[1..] == t[1..] + rest;
    LiteralEnds(t[1..], rest);
    assert AfterSpace(u) == u;
  }

  lemma SkipQuoted(s: Text, rest: Text, depth: nat)
    ensures Skip(Quoted(s) + rest, depth) == Past(rest, depth)
  {
    hide Escape, ReadStr;
    var u := Quoted(s) + rest;
    StrRoundTrip(s, rest);
    assert u[1..] == Escape(s) + [QUOTE] + rest;
    assert AfterSpace(u) == u;
  }

  lemma SkipMark(c: byte, rest: Text, depth: nat)
    ensures c == 0x5B || c == 0x7B ==> Skip([c] + rest, depth) == Skip(rest, depth + 1)
    ensures (c == 0x5D || c == 0x7D) && depth > 0 ==> Skip([c] + rest, depth) == Past(rest, depth - 1)
    ensures (c == 0x2C || c == 0x3A) && depth > 0 ==> Skip([c] + rest, depth) == Skip(rest, depth)
  {
    var u := [c] + rest;
    assert u[1..] == rest;
    if c in [0x5B, 0x7B, 0x5D, 0x7D, 0x2C, 0x3A] { assert AfterSpace(u) == u; }
  }

  /** Whatever a value holds, skipping passes over it and over nothing else. */
  lemma {:induction false} SkipsValue(v: Tree, rest: Text, depth: nat)
    requires Sound(v) && Delimits(rest)
    ensures Skip(Spell(v) + rest, depth) == Past(rest, depth)
    decreases v, 0
  {
    hide Skip, Quoted, BareText;
    match v
    case Bare(text) => SkipBare(text, rest, depth);
    case Quote(s) => SkipQuoted(s, rest, depth);
    case Array(items) =>
      assert Spell(v) + rest == [0x5B] + (SpellItems(items) + ([0x5D] + rest));
      SkipMark(0x5B, SpellItems(items) + ([0x5D] + rest), depth);
      SkipsItems(v, items, [0x5D] + rest, depth + 1);
      SkipMark(0x5D, rest, depth + 1);
    case Object(props) =>
      assert Spell(v) + rest == [0x7B] + (SpellProps(props) + ([0x7D] + rest));
      SkipMark(0x7B, SpellProps(props) + ([0x7D] + rest), depth);
      SkipsProps(v, props, [0x7D] + rest, depth + 1);
      SkipMark(0x7D, rest, depth + 1);
  }

  lemma {:induction false} SkipsItems(v: Tree, items: seq<Tree>, rest: Text, depth: nat)
    requires (forall i :: 0 <= i < |items| ==> Sound(items[i]) && items[i] < v) && Delimits(rest) && depth > 0
    ensures Skip(SpellItems(items) + rest, depth) == Skip(rest, depth)
    decreases v, 0, |items|
  {
    hide Skip, Quoted, Spell;
    if items == [] {
      assert SpellItems(items) + rest == rest;
    } else if |items| == 1 {
      SkipsValue(items[0], rest, depth);
    } else {
      var more := SpellItems(items[1..]) + rest;
      assert SpellItems(items) + rest == Spell(items[0]) + ([0x2C] + more);
      SkipsValue(items[0], [0x2C] + more, depth);
      SkipMark(0x2C, more, depth);
      SkipsItems(v, items[1..], rest, depth);
    }
  }

  lemma {:induction false} SkipsProps(v: Tree, props: seq<Prop>, rest: Text, depth: nat)
    requires (forall i :: 0 <= i < |props| ==> Sound(props[i].value) && props[i].value < v) && Delimits(rest) && depth > 0
    ensures Skip(SpellProps(props) + rest, depth) == Skip(rest, depth)
    decreases v, 0, |props|
  {
    hide Skip, Quoted, Spell;
    if props == [] {
      assert SpellProps(props) + rest == rest;
    } else {
      var key, value := Quoted(props[0].key), Spell(props[0].value);
      var more := if |props| == 1 then rest else [0x2C] + (SpellProps(props[1..]) + rest);
      assert SpellProps(props) + rest == key + ([0x3A] + (value + more));
      SkipQuoted(props[0].key, [0x3A] + (value + more), depth);
      SkipMark(0x3A, value + more, depth);
      SkipsValue(props[0].value, more, depth);
      if |props| > 1 {
        SkipMark(0x2C, SpellProps(props[1..]) + rest, depth);
        SkipsProps(v, props[1..], rest, depth);
      }
    }
  }

  /** White space in front of a value makes no difference. */
  lemma {:induction false} SkipsSpace(space: Text, t: Text, depth: nat)
    requires forall i :: 0 <= i < |space| ==> space[i] in [0x20, 0x09, 0x0A, 0x0D]
    ensures AfterSpace(space + t) == AfterSpace(t) && Skip(space + t, depth) == Skip(t, depth)
  {
    if space == [] {
      assert space + t == t;
    } else {
      SkipsSpace(space[1..], t, depth);
      assert (space + t)[1..] == space[1..] + t;
    }
  }
}
