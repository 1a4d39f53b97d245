/**
 * The YAML scalars the C++ engine writes (src/serialize/writers.cpp) and the line primitives the
 * C reader takes them apart with (micro/src/yaml_min.c).
 */
module Yaml {
  import opened Bytes
  import opened Json
  import opened Index
  import opened Ustar
  import U = UstarFormat
  import M = Manifest
  import Tar

  const LF: byte := 10
  const CR: byte := 13
  const TAB: byte := 9
  const HASH: byte := 0x23
  const APOSTROPHE: byte := 0x27
  const DASH: byte := 0x2D

  // ------------------------------------------------------------ writing a scalar

  function LowerByte(c: byte): byte {
    if 0x41 <= c <= 0x5A then c + 32 else c
  }

  function Lower(s: Text): (r: Text)
    ensures |r| == |s| && forall i :: 0 <= i < |s| ==> r[i] == LowerByte(s[i])
  {
    seq(|s|, i requires 0 <= i < |s| => LowerByte(s[i]))
  }

  const RESERVED: seq<Text> := [
    M.Ascii("true"), M.Ascii("false"), M.Ascii("yes"), M.Ascii("no"),
    M.Ascii("on"), M.Ascii("off"), M.Ascii("null"), M.Ascii("~")]

  predicate IsDigit(c: byte) {
    0x30 <= c <= 0x39
  }

  /** `isspace` in the C locale. */
  predicate IsSpaceByte(c: byte) {
    c == SPACE || 9 <= c <= 13
  }

  const INDICATORS := M.Ascii("-?:,[]{}#&*!|>'\"%@`")

  /** A byte that a plain scalar may hold anywhere. */
  predicate PlainByte(c: byte) {
    c >= 0x20 && c != COLON && c != HASH && c != QUOTE && c != BACKSLASH
  }

  ghost predicate PlainSafe(s: Text) {
    && s != []
    && !IsSpaceByte(s[0]) && !IsSpaceByte(s[|s| - 1])
    && s[0] !in INDICATORS && !IsDigit(s[0])
    && !((s[0] == 0x2B || s[0] == 0x2E) && |s| > 1 && IsDigit(s[1]))
    && (forall i :: 0 <= i < |s| ==> PlainByte(s[i]))
    && Lower(s) !in RESERVED
  }

  function UpperHex(n: nat): byte
    requires n < 16
  {
    if n < 10 then 0x30 + n else 0x41 + (n - 10)
  }

  function QuotedByte(c: byte): (r: Text)
    ensures 1 <= |r| <= 4
  {
    if c == BACKSLASH || c == QUOTE then [BACKSLASH, c]
    else if c == LF then [BACKSLASH, 0x6E]
    else if c == CR then [BACKSLASH, 0x72]
    else if c == TAB then [BACKSLASH, 0x74]
    else if c < 0x20 then [BACKSLASH, 0x78, UpperHex(c / 16), UpperHex(c % 16)]
    else [c]
  }

  ghost function QuotedBytes(s: Text): Text {
    if s == [] then [] else QuotedByte(s[0]) + QuotedBytes(s[1..])
  }

  ghost function DoubleQuoted(s: Text): Text {
    [QUOTE] + QuotedBytes(s) + [QUOTE]
  }

  /** `scalar`. */
  ghost function Scalar(s: Text): Text {
    if PlainSafe(s) then s else DoubleQuoted(s)
  }

  /** The YAML 1.1 words for null, and those for the truth values but `y` and `n`, in any case. */
  ghost predicate Retyped(s: Text) {
    var w := Lower(s);
    w == M.Ascii("null") || w == M.Ascii("~") || w == M.Ascii("true") || w == M.Ascii("false") ||
    w == M.Ascii("yes") || w == M.Ascii("no") || w == M.Ascii("on") || w == M.Ascii("off")
  }

  /** A string that would be read as a truth value or as null is written in quotes. */
  lemma RetypedIsQuoted(s: Text)
    requires Retyped(s)
    ensures Scalar(s) == [0x22] + s + [0x22]
  {
    assert Lower(s) in RESERVED by {
      hide M.Ascii;
      assert RESERVED[0] in RESERVED && RESERVED[1] in RESERVED && RESERVED[2] in RESERVED && RESERVED[3] in RESERVED;
      assert RESERVED[4] in RESERVED && RESERVED[5] in RESERVED && RESERVED[6] in RESERVED && RESERVED[7] in RESERVED;
    }
    LettersOnly(s);
    hide Retyped, PlainSafe;
    QuotedAsIs(s);
    assert !PlainSafe(s) by { NotPlain(s); }
  }

  lemma NotPlain(s: Text)
    requires Lower(s) in RESERVED
    ensures !PlainSafe(s)
  {
  }

  lemma LettersOnly(s: Text)
    requires Retyped(s)
    ensures forall i :: 0 <= i < |s| ==> 0x41 <= s[i]
    ensures BACKSLASH !in s && QUOTE !in s
  {
    var w := Lower(s);
    assert forall i :: 0 <= i < |w| ==> 0x61 <= w[i];
    forall i | 0 <= i < |s| ensures 0x41 <= s[i] && s[i] != BACKSLASH && s[i] != QUOTE { assert w[i] == LowerByte(s[i]); }
  }

  lemma {:induction false} QuotedAsIs(s: Text)
    requires (forall i :: 0 <= i < |s| ==> 0x20 <= s[i]) && BACKSLASH !in s && QUOTE !in s
    ensures QuotedBytes(s) == s
  {
    if s != [] { QuotedAsIs(s[1..]); }
  }

  /** The one-letter truth values of YAML 1.1 are not quoted. */
  lemma OneLetterIsPlain(c: byte)
    requires c == 0x79 || c == 0x59 || c == 0x6E || c == 0x4E
    ensures Scalar([c]) == [c]
  {
    var s: Text := [c];
    var w := Lower(s);
    forall k | 0 <= k < |RESERVED| ensures RESERVED[k] != w {
      if k == 7 { assert RESERVED[7][0] == 0x7E; } else { assert |RESERVED[k]| >= 2; }
    }
    assert forall k :: 0 <= k < |INDICATORS| ==> INDICATORS[k] <= 0x40 || 0x5B <= INDICATORS[k] <= 0x60 || INDICATORS[k] > 0x7A;
  }

  // ------------------------------------------------------------ reading a scalar

  predicate Blank(c: byte) {
    c == SPACE || c == TAB
  }

  ghost function TrimLeft(s: Text): (r: Text)
    ensures |r| <= |s| && (r != [] ==> !Blank(r[0]))
  {
    if s != [] && Blank(s[0]) then TrimLeft(s[1..]) else s
  }

  ghost function TrimRight(s: Text): (r: Text)
    ensures |r| <= |s| && (r != [] ==> !Blank(r[|r| - 1]))
  {
    if s != [] && Blank(s[|s| - 1]) then TrimRight(s[..|s| - 1]) else s
  }

  ghost function Trim(s: Text): Text {
    TrimRight(TrimLeft(s))
  }

  /** The byte an escape stands for; an unknown escape stands for its own letter. */
  function Escaped(c: byte): byte {
    if c == 0x6E then LF else if c == 0x74 then TAB else if c == 0x72 then CR else if c == 0x30 then 0 else c
  }

  /** What follows an opening double quote. */
  ghost function InDouble(s: Text): (r: Text)
    ensures |r| <= |s|
  {
    if s == [] || s[0] == QUOTE then []
    else if s[0] == BACKSLASH && |s| > 1 then [Escaped(s[1])] + InDouble(s[2..])
    else [s[0]] + InDouble(s[1..])
  }

  /** What follows an opening single quote. */
  ghost function InSingle(s: Text): (r: Text)
    ensures |r| <= |s|
  {
    if s == [] then []
    else if s[0] != APOSTROPHE then [s[0]] + InSingle(s[1..])
    else if |s| > 1 && s[1] == APOSTROPHE then [APOSTROPHE] + InSingle(s[2..])
    else []
  }

  /** Where a comment starts, from `i` on: a '#' after a blank. */
  ghost function CommentAt(s: Text, i: nat): (r: nat)
    requires i <= |s|
    ensures i <= r <= |s|
    decreases |s| - i
  {
    if i == |s| || (s[i] == HASH && i > 0 && Blank(s[i - 1])) then i else CommentAt(s, i + 1)
  }

  /** `mm_scalar`. */
  ghost function ReadScalar(v: Text): Text {
    if |v| >= 2 && v[0] == QUOTE then InDouble(v[1..])
    else if |v| >= 2 && v[0] == APOSTROPHE then InSingle(v[1..])
    else TrimRight(v[..CommentAt(v, 0)])
  }

  // ------------------------------------------------------------ the round trip of scalars

  /** A control byte the writer spells as a hexadecimal escape. */
  predicate OddControl(c: byte) {
    c < 0x20 && c != LF && c != CR && c != TAB
  }

  ghost predicate HasOddControl(s: Text) {
    s != [] && (OddControl(s[0]) || HasOddControl(s[1..]))
  }

  /** What the reader makes of one byte as the writer quotes it. */
  function ReadBack(c: byte): (r: Text)
    ensures |r| >= 1
    ensures OddControl(c) ==> |r| == 3
    ensures !OddControl(c) ==> r == [c]
  {
    if OddControl(c) then [0x78, UpperHex(c / 16), UpperHex(c % 16)] else [c]
  }

  ghost function AllReadBack(s: Text): Text {
    if s == [] then [] else ReadBack(s[0]) + AllReadBack(s[1..])
  }

  lemma InDoubleByte(c: byte, t: Text)
    ensures InDouble(QuotedByte(c) + t) == ReadBack(c) + InDouble(t)
  {
    var u := QuotedByte(c) + t;
    if OddControl(c) {
      var a, b := UpperHex(c / 16), UpperHex(c % 16);
      assert u[2..] == [a, b] + t && ([a, b] + t)[1..] == [b] + t && ([b] + t)[1..] == t;
      assert InDouble([b] + t) == [b] + InDouble(t);
      assert InDouble([a, b] + t) == [a] + InDouble([b] + t);
    } else if |QuotedByte(c)| == 2 {
      assert u[2..] == t;
    } else {
      assert u[1..] == t;
    }
  }

  lemma {:induction false} InDoubleReads(s: Text, t: Text)
    ensures InDouble(QuotedBytes(s) + ([QUOTE] + t)) == AllReadBack(s)
  {
    hide QuotedByte, ReadBack;
    var end := [QUOTE] + t;
    if s == [] {
      assert QuotedBytes(s) + end == end;
    } else {
      InDoubleReads(s[1..], t);
      InDoubleByte(s[0], QuotedBytes(s[1..]) + end);
      assert QuotedBytes(s) + end == QuotedByte(s[0]) + (QuotedBytes(s[1..]) + end);
    }
  }

  lemma {:induction false} ReadBackIs(s: Text)
    ensures |AllReadBack(s)| >= |s|
    ensures HasOddControl(s) ==> |AllReadBack(s)| > |s|
    ensures !HasOddControl(s) ==> AllReadBack(s) == s
  {
    hide ReadBack, OddControl;
    if s != [] {
      ReadBackIs(s[1..]);
      assert [s[0]] + s[1..] == s;
    }
  }

  lemma ReadQuoted(s: Text)
    ensures ReadScalar(DoubleQuoted(s)) == AllReadBack(s)
  {
    InDoubleReads(s, []);
    assert DoubleQuoted(s)[1..] == QuotedBytes(s) + ([QUOTE] + []);
  }

  lemma {:induction false} NoComment(s: Text, i: nat)
    requires i <= |s| && forall k :: 0 <= k < |s| ==> PlainByte(s[k])
    ensures CommentAt(s, i) == |s|
    decreases |s| - i
  {
    if i < |s| { NoComment(s, i + 1); }
  }

  lemma QuotesIndicate()
    ensures APOSTROPHE in INDICATORS && QUOTE in INDICATORS && DASH in INDICATORS && LBRACKET in INDICATORS
  {
    assert INDICATORS[0] == DASH && INDICATORS[4] == LBRACKET && INDICATORS[14] == APOSTROPHE && INDICATORS[15] == QUOTE;
  }

  lemma PlainReads(s: Text)
    requires PlainSafe(s)
    ensures ReadScalar(s) == s && !HasOddControl(s)
  {
    QuotesIndicate();
    NoComment(s, 0);
    assert s[..|s|] == s;
    PlainHasNoControl(s);
  }

  lemma {:induction false} PlainHasNoControl(s: Text)
    requires forall k :: 0 <= k < |s| ==> PlainByte(s[k])
    ensures !HasOddControl(s)
  {
    if s != [] { PlainHasNoControl(s[1..]); }
  }

  /** A written scalar reads back as itself exactly when no byte of it needs a hexadecimal escape. */
  lemma ScalarRoundTrip(s: Text)
    ensures ReadScalar(Scalar(s)) == s <==> !HasOddControl(s)
  {
    hide PlainSafe, ReadScalar, DoubleQuoted;
    if PlainSafe(s) {
      PlainReads(s);
    } else {
      ReadQuoted(s);
      ReadBackIs(s);
    }
  }

  /** One that needs it: 0x07 comes back as three letters. */
  lemma ControlByteIsLost()
    ensures ReadScalar(Scalar([7])) == [0x78, 0x30, 0x37]
  {
    assert !PlainByte(7);
    assert !PlainSafe([7]) by { assert [7 as byte][0] == 7; }
    ReadQuoted([7]);
    assert [7 as byte][1..] == [];
    assert AllReadBack([]) == [];
    assert ReadBack(7) == [0x78, 0x30, 0x37];
  }

  // ------------------------------------------------------------ what a written scalar looks like

  /** Text that survives on a line of its own: no line breaks, no blanks around it. */
  ghost predicate Snug(v: Text) {
    v != [] && !Blank(v[0]) && !Blank(v[|v| - 1]) && LF !in v && CR !in v
  }

  lemma {:induction false} QuotedHasNoBreaks(s: Text)
    ensures LF !in QuotedBytes(s) && CR !in QuotedBytes(s)
  {
    if s != [] {
      QuotedHasNoBreaks(s[1..]);
      QuotedByteHasNoBreaks(s[0]);
    }
  }

  lemma QuotedByteHasNoBreaks(c: byte)
    ensures LF !in QuotedByte(c) && CR !in QuotedByte(c)
  {
  }

  lemma ScalarIsSnug(s: Text)
    ensures Snug(Scalar(s))
  {
    if PlainSafe(s) {
      forall i | 0 <= i < |s| ensures s[i] != LF && s[i] != CR { assert PlainByte(s[i]); }
    } else {
      QuotedHasNoBreaks(s);
    }
  }

  // ------------------------------------------------------------ lines

  ghost function LineEnd(t: Text): (n: nat)
    ensures n <= |t| && LF !in t[..n] && (n < |t| ==> t[n] == LF)
  {
    if t == [] || t[0] == LF then 0
    else
      var n := LineEnd(t[1..]);
      assert t[..n + 1] == [t[0]] + t[1..][..n];
      n + 1
  }

  /** A text that ends its last line has a line end. */
  lemma LineBreakIn(a: Text)
    requires a != [] && a[|a| - 1] == LF
    ensures LineEnd(a) < |a|
  {
    var n := LineEnd(a);
    assert LF in a;
    assert a[..|a|] == a;
  }

  function DropCr(s: Text): Text {
    if s != [] && s[|s| - 1] == CR then s[..|s| - 1] else s
  }

  /** One line: its text as far as the buffer holds it, whether it was cut short, and what follows. */
  datatype Line = Line(text: Text, cut: bool, rest: Text)

  ghost function NextLine(t: Text): (l: Line)
    requires t != []
    ensures |l.rest| < |t| && |l.text| < M.LINE_MAX
  {
    var n := LineEnd(t);
    Line(DropCr(if n < M.LINE_MAX then t[..n] else t[..M.LINE_MAX - 1]), n >= M.LINE_MAX,
         if n < |t| then t[n + 1..] else [])
  }

  ghost function JoinLines(ls: seq<Text>): Text {
    if ls == [] then [] else ls[0] + [LF] + JoinLines(ls[1..])
  }

  /** A line the reader sees as it was written, unless it is too long for the buffer. */
  ghost predicate Whole(l: Text) {
    LF !in l && (l != [] ==> l[|l| - 1] != CR)
  }

  ghost predicate AllWhole(ls: seq<Text>) {
    ls == [] || (Whole(ls[0]) && AllWhole(ls[1..]))
  }

  ghost predicate AllFit(ls: seq<Text>) {
    ls == [] || (|ls[0]| < 256 && AllFit(ls[1..]))
  }

  lemma {:induction false} AllWholeConcat(a: seq<Text>, b: seq<Text>)
    ensures AllWhole(a + b) <==> AllWhole(a) && AllWhole(b)
  {
    hide Whole;
    if a == [] {
      assert a + b == b;
    } else {
      assert (a + b)[1..] == a[1..] + b;
      AllWholeConcat(a[1..], b);
    }
  }

  lemma {:induction false} LineEndIs(l: Text, rest: Text)
    requires LF !in l
    ensures LineEnd(l + [LF] + rest) == |l|
  {
    var t := l + [LF] + rest;
    if l != [] {
      assert t[1..] == l[1..] + [LF] + rest;
      LineEndIs(l[1..], rest);
    }
  }

  lemma NextWrittenLine(l: Text, ls: seq<Text>)
    requires Whole(l) && |l| < 256
    ensures JoinLines([l] + ls) != [] && NextLine(JoinLines([l] + ls)) == Line(l, false, JoinLines(ls))
  {
    assert ([l] + ls)[1..] == ls;
    var t := JoinLines([l] + ls);
    LineEndIs(l, JoinLines(ls));
    assert t[..|l|] == l && t[|l| + 1..] == JoinLines(ls);
  }

  lemma NextLongLine(l: Text, ls: seq<Text>)
    requires Whole(l) && |l| >= 256
    ensures JoinLines([l] + ls) != [] && NextLine(JoinLines([l] + ls)).cut
  {
    assert ([l] + ls)[1..] == ls;
    LineEndIs(l, JoinLines(ls));
  }

  // ------------------------------------------------------------ key: value

  /** `mm_split`, looking for the colon from `i` on. */
  ghost function SplitLine(s: Text, i: nat): Option<(Text, Text)>
    decreases |s| - i
  {
    if i >= |s| then None
    else if s[i] == COLON && (i + 1 == |s| || Blank(s[i + 1])) then
      if Trim(s[..i]) == [] then None else Some((Trim(s[..i]), Trim(s[i + 1..])))
    else SplitLine(s, i + 1)
  }

  /** The key names both sides use: letters and underscores. */
  ghost predicate KeyName(k: Text) {
    k != [] && forall i :: 0 <= i < |k| ==> 0x61 <= k[i] <= 0x7A || k[i] == 0x5F
  }

  ghost function Entry(k: Text, v: Text): Text {
    if v == [] then k + [COLON] else k + [COLON, SPACE] + v
  }

  lemma SnugTrims(v: Text)
    requires v == [] || (!Blank(v[0]) && !Blank(v[|v| - 1]))
    ensures Trim(v) == v
    ensures v != [] ==> Trim([SPACE] + v) == v
  {
    assert ([SPACE] + v)[1..] == v;
  }

  lemma {:induction false} SplitSkips(s: Text, i: nat, j: nat)
    requires i <= j < |s| && (forall k :: i <= k < j ==> s[k] != COLON) && s[j] == COLON
    ensures SplitLine(s, i) == SplitLine(s, j)
    decreases j - i
  {
    hide Trim;
    if i < j { SplitSkips(s, i + 1, j); }
  }

  lemma EntrySplits(k: Text, v: Text)
    requires KeyName(k) && (v == [] || Snug(v))
    ensures SplitLine(Entry(k, v), 0) == Some((k, v))
  {
    hide Trim;
    var s := Entry(k, v);
    EntryParts(k, v);
    SplitSkips(s, 0, |k|);
    SnugTrims(k);
    SnugTrims(v);
    TrimNothing();
  }

  lemma EntryParts(k: Text, v: Text)
    requires KeyName(k)
    ensures var s := Entry(k, v);
      |k| < |s| && s[..|k|] == k && s[|k|] == COLON && s[|k| + 1..] == (if v == [] then [] else [SPACE] + v) &&
      forall i :: 0 <= i < |k| ==> s[i] != COLON
  {
  }

  lemma TrimNothing()
    ensures Trim([]) == []
  {
  }

  // ------------------------------------------------------------ the three kinds of written line

  const DASHES: Text := [DASH, DASH, DASH]

  ghost function ItemLine(e: Text): Text {
    [SPACE, SPACE, DASH, SPACE] + e
  }

  ghost function InnerLine(e: Text): Text {
    [SPACE, SPACE, SPACE, SPACE] + e
  }

  /** A line at the margin. */
  lemma TopShape(k: Text, v: Text)
    requires KeyName(k) && (v == [] || Snug(v))
    ensures var l := Entry(k, v);
      l != [] && TrimLeft(l) == l && l[0] != HASH && l[0] != DASH && U.Field(k) == k
    ensures LF !in Entry(k, v) && Entry(k, v)[|Entry(k, v)| - 1] != CR
  {
    M.PlainKey(k);
  }

  lemma ItemShape(e: Text)
    requires e != [] && !Blank(e[0]) && !Blank(e[|e| - 1])
    ensures TrimLeft(ItemLine(e)) == [DASH, SPACE] + e
    ensures Trim(([DASH, SPACE] + e)[1..]) == e
  {
    var l := ItemLine(e);
    assert l[1..] == [SPACE, DASH, SPACE] + e && l[1..][1..] == [DASH, SPACE] + e;
    assert TrimLeft(l[1..]) == [DASH, SPACE] + e;
    assert ([DASH, SPACE] + e)[1..] == [SPACE] + e;
    SnugTrims(e);
  }

  lemma InnerShape(e: Text)
    requires e != [] && !Blank(e[0])
    ensures TrimLeft(InnerLine(e)) == e
  {
    var l := InnerLine(e);
    var a, b, c := [SPACE, SPACE, SPACE] + e, [SPACE, SPACE] + e, [SPACE] + e;
    assert l[1..] == a && a[1..] == b && b[1..] == c && c[1..] == e;
    assert TrimLeft(c) == e && TrimLeft(b) == e && TrimLeft(a) == e;
  }

  /** Any entry may stand in an item. */
  lemma EntryIsSnug(k: Text, v: Text)
    requires KeyName(k) && Snug(v)
    ensures Snug(Entry(k, v))
  {
  }
}
