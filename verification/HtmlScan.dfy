/** The scanning loops of the HTML normaliser and the text it writes (src/core/html_normalize.hpp). */
module HtmlScan {
  import opened Bytes
  import opened Json
  import opened Markup
  import opened Yaml
  import opened Html
  import M = Manifest

  /** The table of named entities. */
  type Named = Text -> Option<Text>

  // ------------------------------------------------------------ finding

  /** `find` of a byte, the end of the text when there is none. */
  ghost function FindByte(t: Text, c: byte, from: nat): (r: nat)
    requires from <= |t|
    ensures from <= r <= |t| && (r < |t| ==> t[r] == c)
    decreases |t| - from
  {
    if from == |t| || t[from] == c then from else FindByte(t, c, from + 1)
  }

  predicate StandsAt(t: Text, pattern: Text, at: nat) {
    at + |pattern| <= |t| && t[at..at + |pattern|] == pattern
  }

  ghost function FindText(t: Text, pattern: Text, from: nat): (r: Option<nat>)
    ensures r.Some? ==> from <= r.value && r.value + |pattern| <= |t|
    decreases if from <= |t| then |t| - from else 0
  {
    if from + |pattern| > |t| then None
    else if StandsAt(t, pattern, from) then Some(from)
    else FindText(t, pattern, from + 1)
  }

  method SeekByte(t: Text, c: byte, from: nat) returns (r: nat)
    requires from <= |t|
    ensures r == FindByte(t, c, from)
  {
    r := from;
    while r < |t| && t[r] != c
      invariant from <= r <= |t| && FindByte(t, c, from) == FindByte(t, c, r)
    {
      r := r + 1;
    }
  }

  method SeekText(t: Text, pattern: Text, from: nat) returns (r: Option<nat>)
    ensures r == FindText(t, pattern, from)
  {
    var at := from;
    while at + |pattern| <= |t|
      invariant FindText(t, pattern, from) == FindText(t, pattern, at)
    {
      if StandsAt(t, pattern, at) {
        return Some(at);
      }
      at := at + 1;
    }
    r := None;
  }

  predicate IsAlpha(c: byte) {
    0x41 <= c <= 0x5A || 0x61 <= c <= 0x7A
  }

  // ------------------------------------------------------------ attributes

  predicate Separates(c: byte) {
    IsSpaceByte(c) || c == SLASH
  }

  predicate InWord(c: byte) {
    !IsSpaceByte(c)
  }

  predicate InName(c: byte) {
    !Separates(c) && c != EQ
  }

  /** Past the bytes of one kind. */
  ghost function Skip(t: Text, a: nat, kind: byte -> bool): (r: nat)
    requires a <= |t|
    ensures a <= r <= |t| && (r < |t| ==> !kind(t[r])) && (a < |t| && kind(t[a]) ==> a < r)
    decreases |t| - a
  {
    if a < |t| && kind(t[a]) then Skip(t, a + 1, kind) else a
  }

  predicate NameByte(c: byte) {
    IsAlpha(c) || IsDigit(c) || c == 0x2D || c == 0x5F || c == 0x2E || c == 0x3A
  }

  /** An attribute name that XML accepts. */
  predicate ValidName(n: Text) {
    n != [] && (IsAlpha(n[0]) || n[0] == 0x5F) && forall i :: 0 <= i < |n| ==> NameByte(n[i])
  }

  /** The value after an `=`, and where it ends. */
  ghost function ValueAt(t: Text, a: nat): (r: (Text, nat))
    requires a <= |t|
    ensures a <= r.1 <= |t|
  {
    var b := Skip(t, a, IsSpaceByte);
    if b < |t| && (t[b] == QUOTE || t[b] == APOSTROPHE) then
      var end := FindByte(t, t[b], b + 1);
      (t[b + 1..end], if end < |t| then end + 1 else end)
    else (t[b..Skip(t, b, InWord)], Skip(t, b, InWord))
  }

  /** One attribute, and where the next may start: always further on. */
  ghost function AttrAt(t: Text, a: nat): (r: (Attr, nat))
    requires a < |t| && !Separates(t[a])
    ensures a < r.1 <= |t|
  {
    var n := Skip(t, a, InName);
    var s := Skip(t, n, IsSpaceByte);
    var name := Lower(t[a..n]);
    if s < |t| && t[s] == EQ then
      var v := ValueAt(t, s + 1);
      (Attr(name, v.0), v.1)
    else (Attr(name, []), s)
  }

  ghost function AttrsFrom(t: Text, from: nat): seq<Attr>
    requires from <= |t|
    decreases |t| - from
  {
    var a := Skip(t, from, Separates);
    if a == |t| then []
    else
      var r := AttrAt(t, a);
      (if ValidName(r.0.name) then [r.0] else []) + AttrsFrom(t, r.1)
  }

  method Pass(t: Text, from: nat, kind: byte -> bool) returns (r: nat)
    requires from <= |t|
    ensures r == Skip(t, from, kind)
  {
    r := from;
    while r < |t| && kind(t[r])
      invariant from <= r <= |t| && Skip(t, from, kind) == Skip(t, r, kind)
    {
      r := r + 1;
    }
  }

  method LowerCase(s: Text) returns (r: Text)
    ensures r == Lower(s)
  {
    r := seq(|s|, i requires 0 <= i < |s| => LowerByte(s[i]));
  }

  method IsValidName(n: Text) returns (r: bool)
    ensures r <==> ValidName(n)
  {
    if n == [] || !(IsAlpha(n[0]) || n[0] == 0x5F) {
      return false;
    }
    for i := 0 to |n|
      invariant forall k :: 0 <= k < i ==> NameByte(n[k])
    {
      if !NameByte(n[i]) {
        return false;
      }
    }
    r := true;
  }

  /** One turn of the attribute loop. */
  method ReadAttr(t: Text, from: nat) returns (attr: Attr, next: nat)
    requires from < |t| && !Separates(t[from])
    ensures (attr, next) == AttrAt(t, from)
  {
    hide Skip, FindByte;
    var a := Pass(t, from, InName);
    var name := LowerCase(t[from..a]);
    var value: Text := [];
    a := Pass(t, a, IsSpaceByte);
    if a < |t| && t[a] == EQ {
      a := Pass(t, a + 1, IsSpaceByte);
      if a < |t| && (t[a] == QUOTE || t[a] == APOSTROPHE) {
        var end := SeekByte(t, t[a], a + 1);
        value := t[a + 1..end];
        a := if end < |t| then end + 1 else end;
      } else {
        var end := Pass(t, a, InWord);
        value := t[a..end];
        a := end;
      }
    }
    attr, next := Attr(name, value), a;
  }

  /** The attribute loop; every turn moves on. */
  method ReadAttrs(t: Text) returns (attrs: seq<Attr>)
    ensures attrs == AttrsFrom(t, 0)
  {
    hide Skip, AttrAt, ValidName;
    attrs := [];
    var a := 0;
    while a < |t|
      invariant a <= |t| && attrs + AttrsFrom(t, a) == AttrsFrom(t, 0)
      decreases |t| - a
    {
      var b := Pass(t, a, Separates);
      if b >= |t| {
        assert attrs + [] == attrs;
        return;
      }
      var attr, next := ReadAttr(t, b);
      ghost var rest := AttrsFrom(t, next);
      var valid := IsValidName(attr.name);
      if valid {
        assert attrs + ([attr] + rest) == (attrs + [attr]) + rest;
        attrs := attrs + [attr];
      } else {
        assert [] + rest == rest;
      }
      a := next;
    }
    NoAttrs(t);
    assert attrs + [] == attrs;
  }

  lemma NoAttrs(t: Text)
    ensures AttrsFrom(t, |t|) == []
  {
  }

  // ------------------------------------------------------------ tokens

  ghost function WithoutSpaces(t: Text): Text {
    if t == [] then [] else (if IsSpaceByte(t[0]) then [] else [t[0]]) + WithoutSpaces(t[1..])
  }

  /** What the scanner does at one place: what it finds, where it goes on, whether it stops for good. */
  datatype Found = Found(tokens: seq<Token>, next: nat, stop: bool)

  function Nothing(next: nat): Found {
    Found([], next, false)
  }

  const COMMENT := M.Ascii("<!--")
  const COMMENT_END := M.Ascii("-->")
  const CLOSER := M.Ascii("</")

  /** Where a text that was looked for ends; the end of the document when it is not there. */
  function PastText(r: Option<nat>, size: nat, all: nat): nat {
    if r.None? then all else r.value + size
  }

  function PastByte(r: nat, all: nat): nat {
    if r == all then all else r + 1
  }

  /** An opening tag; `next` is the place after its `>`. */
  ghost function OpeningTag(t: Text, tag: Text, next: nat): (f: Found)
    requires next <= |t|
    ensures !f.stop ==> next <= f.next <= |t|
  {
    var selfClosing := tag != [] && tag[|tag| - 1] == SLASH;
    var body := if selfClosing then tag[..|tag| - 1] else tag;
    var p := Skip(body, 0, InWord);
    var name := Lower(body[..p]);
    if name == [] || !IsAlpha(name[0]) then Nothing(next)
    else if IsRawText(name) then
      var end := FindText(t, CLOSER + name, next);
      if end.None? then Found([], next, true) else Nothing(PastByte(FindByte(t, GT, end.value), |t|))
    else Found([Start(name, AttrsFrom(body[p..], 0), selfClosing)], next, false)
  }

  ghost function FoundAt(t: Text, i: nat): (f: Found)
    requires i < |t|
    ensures !f.stop ==> i < f.next <= |t|
  {
    if t[i] != LT then Found([Run(t[i..FindByte(t, LT, i)])], FindByte(t, LT, i), false)
    else if StandsAt(t, COMMENT, i) then Nothing(PastText(FindText(t, COMMENT_END, i + 4), 3, |t|))
    else if i + 1 < |t| && (t[i + 1] == BANG || t[i + 1] == QUESTION) then Nothing(PastByte(FindByte(t, GT, i), |t|))
    else
      var gt := FindByte(t, GT, i);
      if gt == |t| then Found([Run(t[i..])], gt, true)
      else
        var tag := t[i + 1..gt];
        if tag == [] then Nothing(gt + 1)
        else if tag[0] == SLASH then
          var name := Lower(WithoutSpaces(tag[1..]));
          Found(if name == [] then [] else [End(name)], gt + 1, false)
        else OpeningTag(t, tag, gt + 1)
  }

  ghost function Tokens(t: Text, i: nat): seq<Token>
    requires i <= |t|
    decreases |t| - i
  {
    if i == |t| then []
    else
      var f := FoundAt(t, i);
      f.tokens + if f.stop then [] else Tokens(t, f.next)
  }

  /** The whole transformation: whatever the input, what is written nests. */
  ghost function Normal(html: Text): seq<Event> {
    Build(Tokens(html, 0), [])
  }

  lemma NormalNests(html: Text)
    ensures After(Normal(html), []) == Some([]) && WellPlaced(Normal(html), [])
    ensures CharsOf(Normal(html)) == RunsOf(Tokens(html, 0))
  {
    BuildNests(Tokens(html, 0), []);
    TextIsKept(Tokens(html, 0), []);
  }

  // ------------------------------------------------------------ what is written

  const LT_TEXT := M.Ascii("&lt;")
  const GT_TEXT := M.Ascii("&gt;")
  const AMP_TEXT := M.Ascii("&amp;")
  const QUOT_TEXT := M.Ascii("&quot;")

  /** The reference that starts at `i`, when there is one: what it is written as, and its semicolon. */
  ghost function Reference(t: Text, i: nat, named: Named): (r: Option<(Text, nat)>)
    requires i < |t| && t[i] == AMP
    ensures r.Some? ==> i < r.value.1 < |t|
  {
    var semi := FindByte(t, SEMI, i + 1);
    if semi == |t| || semi - i > 12 then None
    else
      var name := t[i + 1..semi];
      if IsNumeric(name) then Some(([AMP] + name + [SEMI], semi))
      else if named(name).Some? then Some((named(name).value, semi))
      else None
  }

  predicate IsNumeric(name: Text) {
    name != [] && name[0] == HASH
  }

  /** What the byte at `i`, or the reference there, is written as, and where the text goes on. */
  ghost function PieceAt(t: Text, i: nat, named: Named): (r: (Text, nat))
    requires i < |t|
    ensures i < r.1 <= |t|
  {
    if t[i] == LT then (LT_TEXT, i + 1)
    else if t[i] == GT then (GT_TEXT, i + 1)
    else if t[i] == AMP then
      var r := Reference(t, i, named);
      if r.Some? then (r.value.0, r.value.1 + 1) else (AMP_TEXT, i + 1)
    else ([t[i]], i + 1)
  }

  ghost function Escaped(t: Text, i: nat, named: Named): Text
    requires i <= |t|
    decreases |t| - i
  {
    if i == |t| then []
    else
      var p := PieceAt(t, i, named);
      p.0 + Escaped(t, p.1, named)
  }

  function EscapedValueByte(c: byte): Text {
    if c == AMP then AMP_TEXT else if c == LT then LT_TEXT else if c == GT then GT_TEXT else if c == QUOTE then QUOT_TEXT else [c]
  }

  ghost function EscapedValue(v: Text): Text {
    if v == [] then [] else EscapedValueByte(v[0]) + EscapedValue(v[1..])
  }

  ghost function AttrsText(attrs: seq<Attr>): Text {
    if attrs == [] then []
    else [SPACE] + attrs[0].name + [EQ, QUOTE] + EscapedValue(attrs[0].value) + [QUOTE] + AttrsText(attrs[1..])
  }

  ghost function EventText(e: Event, named: Named): Text {
    match e
    case Chars(text) => Escaped(text, 0, named)
    case Open(name, attrs) => [LT] + name + AttrsText(attrs) + [GT]
    case Empty(name, attrs) => [LT] + name + AttrsText(attrs) + [SLASH, GT]
    case Close(name) => [LT, SLASH] + name + [GT]
  }

  ghost function Written(es: seq<Event>, named: Named): Text {
    if es == [] then [] else EventText(es[0], named) + Written(es[1..], named)
  }

  /** Attribute values can neither end their quotes nor open a tag. */
  lemma {:induction false} ValueIsClean(v: Text)
    ensures LT !in EscapedValue(v) && GT !in EscapedValue(v) && QUOTE !in EscapedValue(v)
  {
    if v != [] {
      ValueIsClean(v[1..]);
      assert LT !in EscapedValueByte(v[0]) && GT !in EscapedValueByte(v[0]) && QUOTE !in EscapedValueByte(v[0]);
    }
  }

  /** The numeric reference that is copied at `i`, if there is one: what stands between its `&` and `;`. */
  ghost function RefsAt(t: Text, i: nat, named: Named): seq<Text>
    requires i < |t|
  {
    if t[i] == AMP && Reference(t, i, named).Some? then
      var name := t[i + 1..Reference(t, i, named).value.1];
      if IsNumeric(name) then [name] else []
    else []
  }

  /** All of them, from `i` on. */
  ghost function NumericRefs(t: Text, i: nat, named: Named): seq<Text>
    requires i <= |t|
    decreases |t| - i
  {
    if i == |t| then [] else RefsAt(t, i, named) + NumericRefs(t, PieceAt(t, i, named).1, named)
  }

  ghost predicate NoMarkup(t: Text) {
    LT !in t && GT !in t
  }

  lemma FixedTexts(c: byte)
    ensures NoMarkup(LT_TEXT) && NoMarkup(GT_TEXT) && NoMarkup(AMP_TEXT)
    ensures c != LT && c != GT ==> NoMarkup([c])
  {
  }

  lemma NoMarkupSplit(a: Text, b: Text)
    ensures NoMarkup(a + b) <==> NoMarkup(a) && NoMarkup(b)
  {
  }

  lemma CopiedMarkup(name: Text)
    ensures NoMarkup([AMP] + name + [SEMI]) <==> NoMarkup(name)
  {
  }

  /** Text is written without markup exactly when no numeric reference in it holds any. */
  lemma {:induction false} TextIsClean(t: Text, i: nat, named: Named)
    requires i <= |t| && forall n :: named(n).Some? ==> NoMarkup(named(n).value)
    ensures NoMarkup(Escaped(t, i, named)) <==> forall r :: r in NumericRefs(t, i, named) ==> NoMarkup(r)
    decreases |t| - i
  {
    hide NoMarkup, PieceAt, RefsAt;
    if i < |t| {
      var p := PieceAt(t, i, named);
      TextIsClean(t, p.1, named);
      NoMarkupSplit(p.0, Escaped(t, p.1, named));
      PieceIsClean(t, i, named);
    } else {
      NothingClean();
    }
  }

  /** One piece is written without markup exactly when it copies none. */
  lemma PieceIsClean(t: Text, i: nat, named: Named)
    requires i < |t| && forall n :: named(n).Some? ==> NoMarkup(named(n).value)
    ensures NoMarkup(PieceAt(t, i, named).0) <==> forall r :: r in RefsAt(t, i, named) ==> NoMarkup(r)
  {
    hide FindByte, NoMarkup, M.Ascii;
    FixedTexts(t[i]);
    if t[i] == AMP && Reference(t, i, named).Some? {
      CopiedMarkup(t[i + 1..Reference(t, i, named).value.1]);
    }
  }

  lemma NothingClean()
    ensures NoMarkup([])
  {
  }

  /** A tag's name is whatever stands before the first space, markup included. */
  lemma NamesAreNotChecked()
    ensures Normal([LT, 0x61, LT, 0x62, GT]) == [Open([0x61, LT, 0x62], []), Close([0x61, LT, 0x62])]
  {
    var t: Text := [LT, 0x61, LT, 0x62, GT];
    var tag: Text := [0x61, LT, 0x62];
    OddTag(t, tag);
    assert VoidFree(tag) by { VoidNames(tag); }
    hide IsVoid, ClosesImplicitly, Tokens;
    var ts := [Start(tag, [], false)];
    assert ts[1..] == [];
    assert Closing([], 0) == [] && Surviving([], tag) == 0;
    assert Closing([tag], 0) == [Close(tag)] + Closing([tag][..0], 0);
    var none: seq<Text> := [];
    assert none[..0] + [tag] == [tag];
    assert Build(ts[1..], [tag]) == [Close(tag)];
  }

  ghost predicate VoidFree(name: Text) {
    !IsVoid(name)
  }

  lemma OddTag(t: Text, tag: Text)
    requires t == [LT, 0x61, LT, 0x62, GT] && tag == [0x61, LT, 0x62]
    ensures Tokens(t, 0) == [Start(tag, [], false)]
  {
    assert FindByte(t, GT, 4) == 4 && FindByte(t, GT, 3) == 4 && FindByte(t, GT, 2) == 4 && FindByte(t, GT, 1) == 4;
    assert t[1..4] == tag;
    TagName(tag);
    assert OpeningTag(t, tag, 5) == Found([Start(tag, [], false)], 5, false);
    hide OpeningTag;
    assert FoundAt(t, 0) == OpeningTag(t, tag, 5);
    assert Tokens(t, 5) == [];
  }

  lemma TagName(tag: Text)
    requires tag == [0x61, LT, 0x62]
    ensures Skip(tag, 0, InWord) == 3 && Lower(tag[..3]) == tag && AttrsFrom(tag[3..], 0) == [] && !IsRawText(tag)
  {
    assert Skip(tag, 3, InWord) == 3 && Skip(tag, 2, InWord) == 3 && Skip(tag, 1, InWord) == 3;
    assert tag[..3] == tag;
    NoAttrs(tag[3..]);
    assert |tag[3..]| == 0;
  }

  lemma VoidNames(tag: Text)
    requires tag == [0x61, LT, 0x62]
    ensures forall i :: 0 <= i < |VOID| ==> VOID[i] != tag
  {
    assert forall i :: 0 <= i < |VOID| ==> |VOID[i]| < 2 || VOID[i][1] != LT;
  }

  // ------------------------------------------------------------ the code

  /** `append_escaped_text`. */
  method EscapeText(t: Text, named: Named) returns (out: Text)
    ensures out == Escaped(t, 0, named)
  {
    hide Reference, M.Ascii;
    out := [];
    var i := 0;
    while i < |t|
      invariant i <= |t| && out + Escaped(t, i, named) == Escaped(t, 0, named)
      decreases |t| - i
    {
      var piece, next := [t[i]], i + 1;
      if t[i] == LT {
        piece := LT_TEXT;
      } else if t[i] == GT {
        piece := GT_TEXT;
      } else if t[i] == AMP {
        var r := FindReference(t, i, named);
        piece := AMP_TEXT;
        if r.Some? {
          piece, next := r.value.0, r.value.1 + 1;
        }
      }
      EscapedStep(out, piece, t, i, next, named);
      out := out + piece;
      i := next;
    }
    EscapedEnd(t, named);
    assert out + [] == out;
  }

  lemma EscapedStep(out: Text, piece: Text, t: Text, i: nat, next: nat, named: Named)
    requires i < next <= |t| && Escaped(t, i, named) == piece + Escaped(t, next, named)
    ensures (out + piece) + Escaped(t, next, named) == out + Escaped(t, i, named)
  {
    hide Escaped;
  }

  lemma EscapedEnd(t: Text, named: Named)
    ensures Escaped(t, |t|, named) == [] && NumericRefs(t, |t|, named) == []
  {
  }

  method FindReference(t: Text, i: nat, named: Named) returns (r: Option<(Text, nat)>)
    requires i < |t| && t[i] == AMP
    ensures r == Reference(t, i, named)
  {
    hide FindByte;
    var semi := SeekByte(t, SEMI, i + 1);
    if semi == |t| || semi - i > 12 {
      return None;
    }
    var name := t[i + 1..semi];
    if name != [] && name[0] == HASH {
      return Some(([AMP] + name + [SEMI], semi));
    }
    var text := named(name);
    r := if text.Some? then Some((text.value, semi)) else None;
  }

  method EscapeValue(v: Text) returns (out: Text)
    ensures out == EscapedValue(v)
  {
    hide EscapedValueByte;
    out := [];
    assert v[0..] == v;
    for i := 0 to |v|
      invariant out + EscapedValue(v[i..]) == EscapedValue(v)
    {
      assert v[i..][1..] == v[i + 1..];
      assert out + (EscapedValueByte(v[i]) + EscapedValue(v[i + 1..])) == (out + EscapedValueByte(v[i])) + EscapedValue(v[i + 1..]);
      out := out + EscapedValueByte(v[i]);
    }
    assert out + [] == out;
  }

  method WriteAttrs(attrs: seq<Attr>) returns (out: Text)
    ensures out == AttrsText(attrs)
  {
    hide EscapedValue;
    out := [];
    assert attrs[0..] == attrs;
    for i := 0 to |attrs|
      invariant out + AttrsText(attrs[i..]) == AttrsText(attrs)
    {
      assert attrs[i..][1..] == attrs[i + 1..];
      var v := EscapeValue(attrs[i].value);
      var one := [SPACE] + attrs[i].name + [EQ, QUOTE] + v + [QUOTE];
      assert out + (one + AttrsText(attrs[i + 1..])) == (out + one) + AttrsText(attrs[i + 1..]);
      out := out + one;
    }
    assert out + [] == out;
  }

  lemma {:induction false} WrittenConcat(a: seq<Event>, b: seq<Event>, named: Named)
    ensures Written(a + b, named) == Written(a, named) + Written(b, named)
  {
    hide EventText;
    if a == [] {
      assert a + b == b;
    } else {
      assert (a + b)[1..] == a[1..] + b;
      WrittenConcat(a[1..], b, named);
    }
  }

  lemma WrittenOne(e: Event, named: Named)
    ensures Written([e], named) == EventText(e, named)
  {
    hide EventText;
    assert [e][1..] == [];
    assert Written([], named) == [];
  }

  /** The text so far, and the events still to be written for what is left. */
  ghost predicate Pending(out: Text, es: seq<Event>, all: Text, named: Named) {
    out + Written(es, named) == all
  }

  lemma WriteOne(out: Text, e: Event, es: seq<Event>, all: Text, named: Named)
    requires Pending(out, [e] + es, all, named)
    ensures Pending(out + EventText(e, named), es, all, named)
  {
    hide EventText, Written;
    WrittenConcat([e], es, named);
    WrittenOne(e, named);
    assert out + (EventText(e, named) + Written(es, named)) == (out + EventText(e, named)) + Written(es, named);
  }

  lemma WriteNone(out: Text, es: seq<Event>, all: Text, named: Named)
    requires Pending(out, [] + es, all, named)
    ensures Pending(out, es, all, named)
  {
    assert [] + es == es;
  }

  /** `close_element` on the innermost open element. */
  method CloseTop(out: Text, stack: seq<Text>, ghost n: nat, ghost es: seq<Event>, ghost all: Text, named: Named)
    returns (more: Text, rest: seq<Text>)
    requires n < |stack| && Pending(out, Closing(stack, n) + es, all, named)
    ensures rest == stack[..|stack| - 1] && Pending(more, Closing(rest, n) + es, all, named)
  {
    hide Pending;
    var top := stack[|stack| - 1];
    rest := stack[..|stack| - 1];
    ghost var e := Close(top);
    assert Closing(stack, n) + es == [e] + (Closing(rest, n) + es);
    WriteOne(out, e, Closing(rest, n) + es, all, named);
    assert EventText(e, named) == [LT, SLASH] + top + [GT];
    more := out + ([LT, SLASH] + top + [GT]);
  }

  /** A closing tag: everything down to the element it names, or nothing when that is not open. */
  method CloseNamed(out: Text, stack: seq<Text>, name: Text, ghost es: seq<Event>, ghost all: Text, named: Named)
    returns (more: Text, rest: seq<Text>)
    requires Pending(out, Closing(stack, Below(stack, name)) + es, all, named)
    ensures rest == stack[..Below(stack, name)] && Pending(more, es, all, named)
  {
    hide Pending, Closing, Below;
    ghost var n := Below(stack, name);
    more, rest := out, stack;
    if name !in stack {
      NotOpen(stack, name);
      WriteNone(out, es, all, named);
      return;
    }
    InnermostIs(stack, name);
    while true
      invariant n < |rest| <= |stack| && rest == stack[..|rest|]
      invariant Pending(more, Closing(rest, n) + es, all, named)
      decreases |rest|
    {
      var top := rest[|rest| - 1];
      more, rest := CloseTop(more, rest, n, es, all, named);
      if top == name {
        break;
      }
    }
    NoneLeft(rest, n);
    WriteNone(more, es, all, named);
  }

  lemma NotOpen(stack: seq<Text>, name: Text)
    requires name !in stack
    ensures Below(stack, name) == |stack| && Closing(stack, |stack|) == [] && stack[..|stack|] == stack
  {
  }

  lemma {:induction false} InnermostIs(stack: seq<Text>, name: Text)
    requires name in stack
    ensures Below(stack, name) < |stack| && stack[Below(stack, name)] == name
    ensures forall k :: Below(stack, name) < k < |stack| ==> stack[k] != name
  {
    var init := stack[..|stack| - 1];
    if stack[|stack| - 1] != name {
      assert name in init;
      InnermostIs(init, name);
    }
  }

  lemma NoneLeft(stack: seq<Text>, n: nat)
    requires |stack| <= n
    ensures Closing(stack, n) == []
  {
  }

  /** The implicit closes of an opening tag. */
  method CloseImplied(out: Text, stack: seq<Text>, name: Text, ghost es: seq<Event>, ghost all: Text, named: Named)
    returns (more: Text, rest: seq<Text>)
    requires Pending(out, Closing(stack, Surviving(stack, name)) + es, all, named)
    ensures rest == stack[..Surviving(stack, name)] && Pending(more, es, all, named)
  {
    hide Pending, Closing, ClosesImplicitly;
    ghost var n := Surviving(stack, name);
    more, rest := out, stack;
    while rest != [] && ClosesImplicitly(rest[|rest| - 1], name)
      invariant |rest| <= |stack| && rest == stack[..|rest|] && n == Surviving(rest, name)
      invariant Pending(more, Closing(rest, n) + es, all, named)
      decreases |rest|
    {
      more, rest := CloseTop(more, rest, n, es, all, named);
      assert rest == stack[..|rest|];
    }
    NoneLeft(rest, n);
    WriteNone(more, es, all, named);
  }

  /** Reading an opening tag; the content of a raw-text element is passed over. */
  method ReadOpening(t: Text, tag: Text, next: nat) returns (f: Found)
    requires next <= |t|
    ensures f == OpeningTag(t, tag, next)
  {
    hide Skip, FindText, FindByte, AttrsFrom, IsRawText, M.Ascii;
    var selfClosing := tag != [] && tag[|tag| - 1] == SLASH;
    var body := if selfClosing then tag[..|tag| - 1] else tag;
    var p := Pass(body, 0, InWord);
    var name := LowerCase(body[..p]);
    if name == [] || !IsAlpha(name[0]) {
      return Nothing(next);
    }
    if IsRawText(name) {
      var end := SeekText(t, CLOSER + name, next);
      if end.None? {
        return Found([], next, true);
      }
      var after := SeekByte(t, GT, end.value);
      return Nothing(if after == |t| then |t| else after + 1);
    }
    var attrs := ReadAttrs(body[p..]);
    f := Found([Start(name, attrs, selfClosing)], next, false);
  }

  method DropSpaces(t: Text) returns (r: Text)
    ensures r == WithoutSpaces(t)
  {
    r := [];
    assert t[0..] == t;
    for i := 0 to |t|
      invariant r + WithoutSpaces(t[i..]) == WithoutSpaces(t)
    {
      assert t[i..][1..] == t[i + 1..];
      ghost var rest := WithoutSpaces(t[i + 1..]);
      if !IsSpaceByte(t[i]) {
        assert r + ([t[i]] + rest) == (r + [t[i]]) + rest;
        r := r + [t[i]];
      } else {
        assert [] + rest == rest;
      }
    }
    assert r + [] == r;
  }

  /** One turn of the scanning loop. */
  method Scan(t: Text, i: nat) returns (f: Found)
    requires i < |t|
    ensures f == FoundAt(t, i)
  {
    hide FindByte, FindText, StandsAt, OpeningTag, WithoutSpaces, M.Ascii;
    if t[i] != LT {
      var end := SeekByte(t, LT, i);
      return Found([Run(t[i..end])], end, false);
    }
    if StandsAt(t, COMMENT, i) {
      var end := SeekText(t, COMMENT_END, i + 4);
      return Nothing(PastText(end, 3, |t|));
    }
    if i + 1 < |t| && (t[i + 1] == BANG || t[i + 1] == QUESTION) {
      var end := SeekByte(t, GT, i);
      return Nothing(PastByte(end, |t|));
    }
    var gt := SeekByte(t, GT, i);
    if gt == |t| {
      return Found([Run(t[i..])], gt, true);
    }
    var tag := t[i + 1..gt];
    if tag == [] {
      return Nothing(gt + 1);
    }
    if tag[0] == SLASH {
      var squeezed := DropSpaces(tag[1..]);
      var name := LowerCase(squeezed);
      return Found(if name == [] then [] else [End(name)], gt + 1, false);
    }
    f := ReadOpening(t, tag, gt + 1);
  }

  lemma TokensUnfold(t: Text, i: nat)
    requires i < |t|
    ensures Tokens(t, i) == FoundAt(t, i).tokens + if FoundAt(t, i).stop then [] else Tokens(t, FoundAt(t, i).next)
  {
    hide FoundAt;
  }

  lemma FoundAtMostOne(t: Text, i: nat)
    requires i < |t|
    ensures |FoundAt(t, i).tokens| <= 1
  {
    hide FindByte, FindText, StandsAt, Skip, AttrsFrom, IsRawText, M.Ascii;
  }

  /** What one token adds to the events. */
  ghost function BuildFirst(tok: Token, ts: seq<Token>, stack: seq<Text>): seq<Event> {
    if tok.Run? then [Chars(tok.text)] + Build(ts, stack)
    else if tok.End? then
      if IsVoid(tok.name) then Build(ts, stack)
      else Closing(stack, Below(stack, tok.name)) + Build(ts, stack[..Below(stack, tok.name)])
    else
      Closing(stack, Surviving(stack, tok.name)) +
      (if tok.selfClosing || IsVoid(tok.name) then [Empty(tok.name, tok.attrs)] + Build(ts, stack[..Surviving(stack, tok.name)])
       else [Open(tok.name, tok.attrs)] + Build(ts, stack[..Surviving(stack, tok.name)] + [tok.name]))
  }

  lemma BuildOne(tok: Token, ts: seq<Token>, stack: seq<Text>)
    ensures Build([tok] + ts, stack) == BuildFirst(tok, ts, stack)
  {
    hide IsVoid, ClosesImplicitly, Below, Surviving, Closing;
    assert ([tok] + ts)[1..] == ts;
  }

  /** Writing what one token asks for. */
  method Take(out: Text, stack: seq<Text>, tok: Token, ghost ts: seq<Token>, ghost all: Text, named: Named)
    returns (more: Text, rest: seq<Text>)
    requires Pending(out, Build([tok] + ts, stack), all, named)
    ensures Pending(more, Build(ts, rest), all, named)
  {
    hide Pending, Build, IsVoid, Below, Surviving, Closing, Escaped, AttrsText;
    BuildOne(tok, ts, stack);
    match tok
    case Run(text) =>
      var escaped := EscapeText(text, named);
      WriteOne(out, Chars(text), Build(ts, stack), all, named);
      more, rest := out + escaped, stack;
    case End(name) =>
      if IsVoid(name) {
        return out, stack;
      }
      more, rest := CloseNamed(out, stack, name, Build(ts, stack[..Below(stack, name)]), all, named);
    case Start(name, attrs, selfClosing) =>
      more, rest := TakeStart(out, stack, name, attrs, selfClosing || IsVoid(name), ts, all, named);
  }

  method TakeStart(out: Text, stack: seq<Text>, name: Text, attrs: seq<Attr>, empty: bool,
                   ghost ts: seq<Token>, ghost all: Text, named: Named)
    returns (more: Text, rest: seq<Text>)
    requires Pending(out, Closing(stack, Surviving(stack, name)) +
      (if empty then [Empty(name, attrs)] + Build(ts, stack[..Surviving(stack, name)])
       else [Open(name, attrs)] + Build(ts, stack[..Surviving(stack, name)] + [name])), all, named)
    ensures Pending(more, Build(ts, rest), all, named)
  {
    hide Pending, Build, Surviving, Closing, AttrsText;
    ghost var kept := stack[..Surviving(stack, name)];
    ghost var e := if empty then Empty(name, attrs) else Open(name, attrs);
    ghost var after := if empty then kept else kept + [name];
    more, rest := CloseImplied(out, stack, name, [e] + Build(ts, after), all, named);
    var written := WriteAttrs(attrs);
    WriteOne(more, e, Build(ts, after), all, named);
    if empty {
      more := more + ([LT] + name + written + [SLASH, GT]);
    } else {
      more := more + ([LT] + name + written + [GT]);
      rest := rest + [name];
    }
  }

  const OPEN_ROOT := M.Ascii("<html>")
  const CLOSE_ROOT := M.Ascii("</html>")

  /** `normalize_html`. */
  method Normalize(html: Text, named: Named) returns (out: Text)
    ensures out == OPEN_ROOT + Written(Normal(html), named) + CLOSE_ROOT
  {
    hide Pending, Build, Tokens, FoundAt, M.Ascii, Written;
    ghost var all := OPEN_ROOT + Written(Normal(html), named);
    out := OPEN_ROOT;
    var stack: seq<Text> := [];
    var i := 0;
    PendingIs(out, Normal(html), all, named);
    while i < |html|
      invariant i <= |html| && Pending(out, Build(Tokens(html, i), stack), all, named)
      decreases |html| - i
    {
      var f := Scan(html, i);
      TokensUnfold(html, i);
      FoundAtMostOne(html, i);
      ghost var ts := if f.stop then [] else Tokens(html, f.next);
      if f.tokens != [] {
        assert f.tokens == [f.tokens[0]];
        out, stack := Take(out, stack, f.tokens[0], ts, all, named);
      } else {
        assert [] + ts == ts;
      }
      if f.stop {
        i := |html|;
        NoTokens(html);
        break;
      }
      i := f.next;
    }
    NoTokens(html);
    NothingMore(stack);
    while stack != []
      invariant Pending(out, Closing(stack, 0) + [], all, named)
      decreases |stack|
    {
      out, stack := CloseTop(out, stack, 0, [], all, named);
    }
    NoneLeft(stack, 0);
    PendingEnds(out, all, named);
    out := out + CLOSE_ROOT;
  }

  lemma PendingIs(out: Text, es: seq<Event>, all: Text, named: Named)
    requires all == out + Written(es, named)
    ensures Pending(out, es, all, named)
  {
  }

  lemma NoTokens(t: Text)
    ensures Tokens(t, |t|) == []
  {
  }

  lemma NothingMore(stack: seq<Text>)
    ensures Build([], stack) == Closing(stack, 0) + []
  {
    assert Closing(stack, 0) + [] == Closing(stack, 0);
  }

  lemma PendingEnds(out: Text, all: Text, named: Named)
    requires Pending(out, [] + [], all, named)
    ensures out == all
  {
    var none: seq<Event> := [];
    assert none + none == none && Written(none, named) == [];
    assert out + [] == out;
  }
}
