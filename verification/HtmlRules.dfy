/** What the HTML normaliser does with the elements the standard names, spelled out. */
module HtmlRules {
  import opened Bytes
  import opened Json
  import opened Markup
  import opened Yaml
  import opened Html
  import opened HtmlScan
  import M = Manifest

  // ------------------------------------------------------------ implied ends

  /** The sixteen elements that end a paragraph. */
  ghost predicate EndsParagraph(x: Text) {
    x == M.Ascii("p") || x == M.Ascii("div") || x == M.Ascii("ul") || x == M.Ascii("ol") || x == M.Ascii("table") ||
    x == M.Ascii("blockquote") || x == M.Ascii("pre") || x == M.Ascii("hr") || x == M.Ascii("section") ||
    x == M.Ascii("article") || x == M.Ascii("h1") || x == M.Ascii("h2") || x == M.Ascii("h3") || x == M.Ascii("h4") ||
    x == M.Ascii("h5") || x == M.Ascii("h6")
  }

  ghost predicate IsTerm(x: Text) {
    x == M.Ascii("dt") || x == M.Ascii("dd")
  }

  ghost predicate IsCell(x: Text) {
    x == M.Ascii("td") || x == M.Ascii("th")
  }

  /** An opening `x` ends an open `top`. */
  ghost predicate Ends(top: Text, x: Text) {
    || (top == M.Ascii("p") && EndsParagraph(x))
    || (top == M.Ascii("li") && x == M.Ascii("li"))
    || (IsTerm(top) && IsTerm(x))
    || (IsCell(top) && (IsCell(x) || x == M.Ascii("tr")))
    || (top == M.Ascii("tr") && x == M.Ascii("tr"))
    || (top == M.Ascii("option") && x == M.Ascii("option"))
  }

  lemma NamesDiffer()
    ensures |M.Ascii("p")| == 1 && |M.Ascii("option")| == 6
    ensures M.Ascii("li") == [0x6C, 0x69] && M.Ascii("dt") == [0x64, 0x74] && M.Ascii("dd") == [0x64, 0x64]
    ensures M.Ascii("td") == [0x74, 0x64] && M.Ascii("th") == [0x74, 0x68] && M.Ascii("tr") == [0x74, 0x72]
  {
  }

  lemma BlocksAre(x: Text)
    ensures x in BLOCKS <==> EndsParagraph(x)
  {
    hide M.Ascii;
    if EndsParagraph(x) {
      assert BLOCKS[0] in BLOCKS && BLOCKS[1] in BLOCKS && BLOCKS[2] in BLOCKS && BLOCKS[3] in BLOCKS;
      assert BLOCKS[4] in BLOCKS && BLOCKS[5] in BLOCKS && BLOCKS[6] in BLOCKS && BLOCKS[7] in BLOCKS;
      assert BLOCKS[8] in BLOCKS && BLOCKS[9] in BLOCKS && BLOCKS[10] in BLOCKS && BLOCKS[11] in BLOCKS;
      assert BLOCKS[12] in BLOCKS && BLOCKS[13] in BLOCKS && BLOCKS[14] in BLOCKS && BLOCKS[15] in BLOCKS;
    }
  }

  lemma EndsExactly(top: Text, x: Text)
    ensures ClosesImplicitly(top, x) <==> Ends(top, x)
  {
    NamesDiffer();
    BlocksAre(x);
    hide M.Ascii, EndsParagraph, BLOCKS;
  }

  /** Somewhere `x` opens, or stands empty, directly inside an open `top`. */
  ghost predicate StandsIn(es: seq<Event>, top: Text, x: Text) {
    exists k :: 0 <= k < |es| && (es[k].Open? || es[k].Empty?) && es[k].name == x && TopIs(After(es[..k], []), top)
  }

  predicate TopIs(stack: Option<seq<Text>>, top: Text) {
    stack.Some? && stack.value != [] && stack.value[|stack.value| - 1] == top
  }

  lemma {:induction false} PlacedAt(es: seq<Event>, stack: seq<Text>, k: nat)
    requires WellPlaced(es, stack) && k < |es|
    ensures After(es[..k], stack).Some? && Placed(es[k], After(es[..k], stack).value)
    decreases k
  {
    hide Placed, StackAfter;
    if k == 0 {
      assert es[..0] == [];
    } else {
      PlacedAt(es[1..], StackAfter(es[0], stack).value, k - 1);
      assert es[..k][1..] == es[1..][..k - 1] && es[..k][0] == es[0];
    }
  }

  /** Whatever the document, no element stands directly inside one that its opening tag ends. */
  lemma NeverInside(html: Text, top: Text, x: Text)
    requires Ends(top, x)
    ensures !StandsIn(Normal(html), top, x)
  {
    hide Ends, ClosesImplicitly, M.Ascii, Normal;
    NormalNests(html);
    EndsExactly(top, x);
    var es := Normal(html);
    forall k | 0 <= k < |es| && (es[k].Open? || es[k].Empty?) && es[k].name == x
      ensures !TopIs(After(es[..k], []), top)
    {
      PlacedAt(es, [], k);
    }
  }

  /** An opening tag ends the element it stands in exactly by these rules; otherwise it closes nothing. */
  lemma OpensOrEnds(ts: seq<Token>, stack: seq<Text>, top: Text, x: Text, attrs: seq<Attr>, selfClosing: bool)
    ensures var all, more := stack + [top], [Start(x, attrs, selfClosing)] + ts;
      if Ends(top, x) then Build(more, all) == [Close(top)] + Build(more, stack)
      else if selfClosing || IsVoid(x) then Build(more, all) == [Empty(x, attrs)] + Build(ts, all)
      else Build(more, all) == [Open(x, attrs)] + Build(ts, all + [x])
  {
    hide Ends, ClosesImplicitly, IsVoid, M.Ascii;
    EndsExactly(top, x);
    var all, more := stack + [top], [Start(x, attrs, selfClosing)] + ts;
    assert more[1..] == ts && all[..|all| - 1] == stack;
    if Ends(top, x) {
      var n := Surviving(stack, x);
      assert Surviving(all, x) == n;
      assert Closing(all, n) == [Close(top)] + Closing(stack, n);
      assert all[..n] == stack[..n];
      Front(Close(top), Closing(stack, n), if selfClosing || IsVoid(x)
        then [Empty(x, attrs)] + Build(ts, stack[..n]) else [Open(x, attrs)] + Build(ts, stack[..n] + [x]));
    } else {
      assert Surviving(all, x) == |all| && Closing(all, |all|) == [] && all[..|all|] == all;
    }
  }

  lemma Front(e: Event, a: seq<Event>, b: seq<Event>)
    ensures ([e] + a) + b == [e] + (a + b)
  {
  }

  // ------------------------------------------------------------ void and raw text elements

  /** The fourteen elements without content. */
  ghost predicate HasNoContent(x: Text) {
    x == M.Ascii("area") || x == M.Ascii("base") || x == M.Ascii("br") || x == M.Ascii("col") || x == M.Ascii("embed") ||
    x == M.Ascii("hr") || x == M.Ascii("img") || x == M.Ascii("input") || x == M.Ascii("link") || x == M.Ascii("meta") ||
    x == M.Ascii("param") || x == M.Ascii("source") || x == M.Ascii("track") || x == M.Ascii("wbr")
  }

  lemma VoidExactly(x: Text)
    ensures IsVoid(x) <==> HasNoContent(x)
  {
    hide M.Ascii;
    if HasNoContent(x) {
      assert VOID[0] in VOID && VOID[1] in VOID && VOID[2] in VOID && VOID[3] in VOID && VOID[4] in VOID;
      assert VOID[5] in VOID && VOID[6] in VOID && VOID[7] in VOID && VOID[8] in VOID && VOID[9] in VOID;
      assert VOID[10] in VOID && VOID[11] in VOID && VOID[12] in VOID && VOID[13] in VOID;
    }
  }

  /** The scanner found an opening tag of that name. */
  ghost predicate Started(ts: seq<Token>, x: Text) {
    exists i :: 0 <= i < |ts| && ts[i].Start? && ts[i].name == x
  }

  /** An event's name was that of an opening tag; only elements with content are opened and closed. */
  ghost predicate Sourced(e: Event, ts: seq<Token>, stack: seq<Text>) {
    match e
    case Chars(_) => true
    case Open(x, _) => !IsVoid(x) && Started(ts, x)
    case Empty(x, _) => Started(ts, x)
    case Close(x) => x in stack || (!IsVoid(x) && Started(ts, x))
  }

  lemma {:induction false} ClosingSourced(stack: seq<Text>, n: nat, e: Event)
    requires e in Closing(stack, n)
    ensures e.Close? && e.name in stack
    decreases |stack|
  {
    if |stack| > n {
      var init := stack[..|stack| - 1];
      if e != Close(stack[|stack| - 1]) {
        ClosingSourced(init, n, e);
        assert forall x :: x in init ==> x in stack;
      }
    }
  }

  lemma StartedBehind(t: Token, ts: seq<Token>)
    ensures forall x :: Started(ts, x) ==> Started([t] + ts, x)
    ensures t.Start? ==> Started([t] + ts, t.name)
  {
    var all := [t] + ts;
    assert all[0] == t;
    forall x | Started(ts, x) ensures Started(all, x) {
      var i :| 0 <= i < |ts| && ts[i].Start? && ts[i].name == x;
      assert all[i + 1] == ts[i];
    }
  }

  lemma {:induction false} EventsAreSourced(ts: seq<Token>, stack: seq<Text>, e: Event)
    requires e in Build(ts, stack)
    ensures Sourced(e, ts, stack)
    decreases |ts|
  {
    hide IsVoid, ClosesImplicitly, Started;
    if ts == [] {
      ClosingSourced(stack, 0, e);
    } else {
      var rest := ts[1..];
      assert ts == [ts[0]] + rest;
      StartedBehind(ts[0], rest);
      match ts[0]
      case Run(text) => if e in Build(rest, stack) { EventsAreSourced(rest, stack, e); }
      case End(name) =>
        var n := if IsVoid(name) then |stack| else Below(stack, name);
        assert stack[..|stack|] == stack && forall x :: x in stack[..n] ==> x in stack;
        if e in Build(rest, stack[..n]) { EventsAreSourced(rest, stack[..n], e); } else { ClosingSourced(stack, n, e); }
      case Start(name, attrs, selfClosing) =>
        var n := Surviving(stack, name);
        var empty := selfClosing || IsVoid(name);
        var next := if empty then stack[..n] else stack[..n] + [name];
        assert forall x :: x in stack[..n] ==> x in stack;
        if e in Build(rest, next) { EventsAreSourced(rest, next, e); }
        else if e in Closing(stack, n) { ClosingSourced(stack, n, e); }
    }
  }

  /** An element without content is never opened or closed, only written empty. */
  lemma VoidStaysEmpty(html: Text, x: Text, e: Event)
    requires HasNoContent(x) && e in Normal(html) && !e.Chars? && e.name == x
    ensures e.Empty?
  {
    hide HasNoContent, Started;
    VoidExactly(x);
    EventsAreSourced(Tokens(html, 0), [], e);
  }

  lemma {:induction false} RawIsNotStarted(t: Text, i: nat, x: Text)
    requires i <= |t| && (x == M.Ascii("script") || x == M.Ascii("style"))
    ensures !Started(Tokens(t, i), x)
    decreases |t| - i
  {
    hide FoundAt, M.Ascii;
    if i < |t| {
      var f := FoundAt(t, i);
      RawIsNotFound(t, i, x);
      if !f.stop { RawIsNotStarted(t, f.next, x); }
    }
  }

  lemma RawIsNotFound(t: Text, i: nat, x: Text)
    requires i < |t| && (x == M.Ascii("script") || x == M.Ascii("style"))
    ensures !Started(FoundAt(t, i).tokens, x)
  {
    hide M.Ascii, FindByte, FindText, HtmlScan.Skip, AttrsFrom, StandsAt, WithoutSpaces;
  }

  /** Scripts and style sheets are dropped. */
  lemma RawIsDropped(html: Text, x: Text, e: Event)
    requires (x == M.Ascii("script") || x == M.Ascii("style")) && e in Normal(html) && !e.Chars?
    ensures e.name != x
  {
    hide M.Ascii;
    RawIsNotStarted(html, 0, x);
    EventsAreSourced(Tokens(html, 0), [], e);
  }

  // ------------------------------------------------------------ what the scanner sees

  lemma {:induction false} FirstByteIs(t: Text, c: byte, from: nat, g: nat)
    requires from <= g <= |t| && c !in t[from..g] && (g < |t| ==> t[g] == c)
    ensures FindByte(t, c, from) == g
    decreases g - from
  {
    if from < g {
      assert t[from..g] == [t[from]] + t[from + 1..g];
      FirstByteIs(t, c, from + 1, g);
    }
  }

  lemma {:induction false} FirstTextIs(t: Text, pattern: Text, from: nat, j: nat)
    requires from <= j && StandsAt(t, pattern, j) && forall k :: from <= k < j ==> !StandsAt(t, pattern, k)
    ensures FindText(t, pattern, from) == Some(j)
    decreases j - from
  {
    if from < j { FirstTextIs(t, pattern, from + 1, j); }
  }

  lemma {:induction false} NoTextIs(t: Text, pattern: Text, from: nat)
    requires forall k :: from <= k ==> !StandsAt(t, pattern, k)
    ensures FindText(t, pattern, from) == None
    decreases if from <= |t| then |t| + 1 - from else 0
  {
    if from + |pattern| <= |t| { NoTextIs(t, pattern, from + 1); }
  }

  lemma {:induction false} SkipIs(t: Text, a: nat, kind: byte -> bool, b: nat)
    requires a <= b <= |t| && (forall k :: a <= k < b ==> kind(t[k])) && (b < |t| ==> !kind(t[b]))
    ensures HtmlScan.Skip(t, a, kind) == b
    decreases b - a
  {
    if a < b { SkipIs(t, a + 1, kind, b); }
  }

  /** Text up to the next `<` is one run. */
  lemma ScansText(t: Text, i: nat, g: nat)
    requires i < g <= |t| && 0x3C !in t[i..g] && (g < |t| ==> t[g] == 0x3C)
    ensures FoundAt(t, i) == Found([Run(t[i..g])], g, false)
  {
    assert t[i] in t[i..g];
    FirstByteIs(t, 0x3C, i, g);
  }

  lemma Openers()
    ensures COMMENT == [0x3C, 0x21, 0x2D, 0x2D] && COMMENT_END == [0x2D, 0x2D, 0x3E] && CLOSER == [0x3C, 0x2F]
  {
  }

  /** A comment, up to the first `-->` behind it, is passed over; an open one swallows the rest. */
  lemma ScansComment(t: Text, i: nat, j: nat)
    requires StandsAt(t, [0x3C, 0x21, 0x2D, 0x2D], i)
    ensures i + 4 <= j && StandsAt(t, [0x2D, 0x2D, 0x3E], j) && (forall k :: i + 4 <= k < j ==> !StandsAt(t, [0x2D, 0x2D, 0x3E], k)) ==>
      FoundAt(t, i) == Found([], j + 3, false)
    ensures (forall k :: i + 4 <= k ==> !StandsAt(t, [0x2D, 0x2D, 0x3E], k)) ==> FoundAt(t, i) == Found([], |t|, false)
  {
    Openers();
    hide M.Ascii;
    assert t[i] == t[i..i + 4][0];
    if i + 4 <= j && StandsAt(t, [0x2D, 0x2D, 0x3E], j) && forall k :: i + 4 <= k < j ==> !StandsAt(t, [0x2D, 0x2D, 0x3E], k) {
      FirstTextIs(t, COMMENT_END, i + 4, j);
    }
    if forall k :: i + 4 <= k ==> !StandsAt(t, [0x2D, 0x2D, 0x3E], k) { NoTextIs(t, COMMENT_END, i + 4); }
  }

  /** A declaration or a processing instruction is passed over to its `>`, or to the end of the document. */
  lemma ScansDeclaration(t: Text, i: nat, g: nat)
    requires i + 1 < g <= |t| && t[i] == 0x3C && (t[i + 1] == 0x21 || t[i + 1] == 0x3F) && !StandsAt(t, [0x3C, 0x21, 0x2D, 0x2D], i)
    requires 0x3E !in t[i..g] && (g < |t| ==> t[g] == 0x3E)
    ensures FoundAt(t, i) == Found([], if g < |t| then g + 1 else |t|, false)
  {
    Openers();
    hide M.Ascii;
    FirstByteIs(t, 0x3E, i, g);
  }

  /** A tag without its `>` is text to the end. */
  lemma ScansStrayTail(t: Text, i: nat)
    requires i < |t| && t[i] == 0x3C && !StandsAt(t, [0x3C, 0x21, 0x2D, 0x2D], i)
    requires i + 1 < |t| ==> t[i + 1] != 0x21 && t[i + 1] != 0x3F
    requires 0x3E !in t[i..]
    ensures FoundAt(t, i) == Found([Run(t[i..])], |t|, true)
  {
    Openers();
    hide M.Ascii;
    assert t[i..|t|] == t[i..];
    FirstByteIs(t, 0x3E, i, |t|);
  }

  /** `</name>`, in any case and with blanks anywhere, ends that element. */
  lemma ScansEndTag(t: Text, i: nat, g: nat)
    requires i + 1 < g < |t| && t[i] == 0x3C && t[i + 1] == 0x2F && 0x3E !in t[i..g] && t[g] == 0x3E
    ensures var name := Lower(WithoutSpaces(t[i + 2..g]));
      FoundAt(t, i) == Found(if name == [] then [] else [End(name)], g + 1, false)
  {
    Openers();
    hide M.Ascii;
    FirstByteIs(t, 0x3E, i, g);
    assert i + 4 <= |t| ==> t[i..i + 4][1] == 0x2F;
    assert t[i + 1..g][1..] == t[i + 2..g] && t[i + 1..g][0] == 0x2F;
  }

  /** What stands behind a tag's name: nothing, or a blank first. */
  predicate BehindName(rest: Text) {
    rest == [] || IsSpaceByte(rest[0])
  }

  /** A tag's name begins with a letter and holds no blank. */
  ghost predicate TagName(name: Text) {
    name != [] && IsAlpha(name[0]) && forall k :: 0 <= k < |name| ==> !IsSpaceByte(name[k])
  }

  /** `<name attributes>` and `<name attributes/>`, in any case, open that element. */
  lemma ScansStartTag(t: Text, i: nat, name: Text, rest: Text, selfClosing: bool)
    requires TagName(name) && BehindName(rest) && 0x3E !in name && 0x3E !in rest
    requires selfClosing || (name + rest)[|name + rest| - 1] != 0x2F
    requires Lower(name) != M.Ascii("script") && Lower(name) != M.Ascii("style")
    requires StandsAt(t, [0x3C] + name + rest + (if selfClosing then [0x2F, 0x3E] else [0x3E]), i)
    ensures var next := i + |[0x3C] + name + rest + (if selfClosing then [0x2F, 0x3E] else [0x3E])|;
      FoundAt(t, i) == Found([Start(Lower(name), AttrsFrom(rest, 0), selfClosing)], next, false)
  {
    Openers();
    hide M.Ascii, OpeningTag, COMMENT, FindByte, StandsAt, AttrsFrom, FoundAt;
    var tag := name + rest + (if selfClosing then [0x2F] else []);
    TagIs(t, i, name, rest, selfClosing);
    assert tag[0] == name[0] && 0x3E !in tag;
    TagAt(t, i, tag);
    FoundTag(t, i, tag);
    ReadsTag(t, tag, i + 2 + |tag|, name, rest, selfClosing);
  }

  lemma FoundTag(t: Text, i: nat, tag: Text)
    requires i + |tag| + 1 < |t| && t[i] == 0x3C && t[i + 1..i + 1 + |tag|] == tag && FindByte(t, 0x3E, i) == i + 1 + |tag|
    requires !StandsAt(t, COMMENT, i) && tag != [] && t[i + 1] == tag[0] && IsAlpha(tag[0])
    ensures FoundAt(t, i) == OpeningTag(t, tag, i + 2 + |tag|)
  {
    hide OpeningTag, COMMENT, FindByte, StandsAt;
  }

  lemma TagIs(t: Text, i: nat, name: Text, rest: Text, selfClosing: bool)
    requires StandsAt(t, [0x3C] + name + rest + (if selfClosing then [0x2F, 0x3E] else [0x3E]), i)
    ensures var tag := name + rest + (if selfClosing then [0x2F] else []);
      i + |tag| + 2 <= |t| && t[i..i + |tag| + 2] == [0x3C] + tag + [0x3E] &&
      |[0x3C] + name + rest + (if selfClosing then [0x2F, 0x3E] else [0x3E])| == |tag| + 2
  {
    var tag := name + rest + (if selfClosing then [0x2F] else []);
    assert [0x3C] + name + rest + (if selfClosing then [0x2F, 0x3E] else [0x3E]) == [0x3C] + tag + [0x3E];
  }

  lemma ReadsTag(t: Text, tag: Text, next: nat, name: Text, rest: Text, selfClosing: bool)
    requires next <= |t| && TagName(name) && BehindName(rest) && tag == name + rest + (if selfClosing then [0x2F] else [])
    requires selfClosing || (name + rest)[|name + rest| - 1] != 0x2F
    requires Lower(name) != M.Ascii("script") && Lower(name) != M.Ascii("style")
    ensures OpeningTag(t, tag, next) == Found([Start(Lower(name), AttrsFrom(rest, 0), selfClosing)], next, false)
  {
    hide M.Ascii, AttrsFrom, HtmlScan.Skip;
    var body := name + rest;
    NameEnds(name, rest);
    assert selfClosing ==> tag[..|tag| - 1] == body && tag[|tag| - 1] == 0x2F;
    assert !selfClosing ==> tag == body;
    assert body[..|name|] == name && body[|name|..] == rest;
    LowerLetter(name);
  }

  lemma LowerLetter(name: Text)
    requires TagName(name)
    ensures Lower(name) != [] && IsAlpha(Lower(name)[0])
  {
  }

  lemma NameEnds(name: Text, rest: Text)
    requires TagName(name) && BehindName(rest)
    ensures HtmlScan.Skip(name + rest, 0, InWord) == |name|
  {
    SkipIs(name + rest, 0, InWord, |name|);
  }

  lemma TagAt(t: Text, i: nat, tag: Text)
    requires i + |tag| + 2 <= |t| && t[i..i + |tag| + 2] == [0x3C] + tag + [0x3E] && 0x3E !in tag && tag != [] && IsAlpha(tag[0])
    ensures var g := i + 1 + |tag|;
      t[i] == 0x3C && t[i + 1] == tag[0] && t[i + 1..g] == tag && FindByte(t, 0x3E, i) == g && g < |t| && !StandsAt(t, COMMENT, i)
  {
    Openers();
    var g, all := i + 1 + |tag|, t[i..i + |tag| + 2];
    assert all[0] == t[i] && all[1] == t[i + 1] && all[1 + |tag|] == t[g];
    assert t[i..g] == all[..1 + |tag|] == [0x3C] + tag;
    assert t[i + 1..g] == all[1..1 + |tag|] == tag;
    FirstByteIs(t, 0x3E, i, g);
    if i + 4 <= |t| { assert t[i..i + 4][1] == tag[0]; }
  }

  // ------------------------------------------------------------ attributes

  /** An attribute name: a letter or `_`, then letters, digits, `-`, `_`, `.` and `:`; here in lower case. */
  ghost predicate AttrName(n: Text) {
    n != [] && (0x61 <= n[0] <= 0x7A || n[0] == 0x5F) &&
    forall k :: 0 <= k < |n| ==>
      0x61 <= n[k] <= 0x7A || 0x30 <= n[k] <= 0x39 || n[k] == 0x2D || n[k] == 0x5F || n[k] == 0x2E || n[k] == 0x3A
  }

  /** Attributes as a document spells them: ` name="value"` one after the other. */
  ghost function AttrSource(attrs: seq<Attr>): Text {
    if attrs == [] then []
    else [0x20] + attrs[0].name + [0x3D, 0x22] + attrs[0].value + [0x22] + AttrSource(attrs[1..])
  }

  ghost predicate Spellable(attrs: seq<Attr>) {
    forall i :: 0 <= i < |attrs| ==> AttrName(attrs[i].name) && 0x22 !in attrs[i].value
  }

  lemma NameIsName(n: Text)
    requires AttrName(n)
    ensures ValidName(n) && Lower(n) == n && forall k :: 0 <= k < |n| ==> InName(n[k]) && !Separates(n[k])
  {
    assert forall k :: 0 <= k < |n| ==> Lower(n)[k] == n[k];
  }

  /** `name="value"` or `name='value'` at `a`, and where the next attribute starts. */
  lemma QuotedAttr(t: Text, a: nat, x: Attr, q: byte)
    requires AttrName(x.name) && (q == 0x22 || q == 0x27) && q !in x.value
    requires StandsAt(t, x.name + [0x3D, q] + x.value + [q], a)
    ensures a < |t| && !Separates(t[a]) && AttrAt(t, a) == (x, a + |x.name| + |x.value| + 3)
  {
    hide HtmlScan.Skip, FindByte, ValidName, AttrName;
    var n := a + |x.name|;
    var end := n + 2 + |x.value|;
    ValueParts(t, a, x.name, [0x3D, q], x.value, [q]);
    NameRead(t, a, x.name);
    assert t[n..n + 2][0] == 0x3D && t[n..n + 2][1] == q && t[end..end + 1][0] == q;
    SkipIs(t, n, IsSpaceByte, n);
    SkipIs(t, n + 1, IsSpaceByte, n + 1);
    FirstByteIs(t, q, n + 2, end);
  }

  /** `name=value`, up to the next blank. */
  lemma BareAttr(t: Text, a: nat, x: Attr, rest: Text)
    requires AttrName(x.name) && x.value != [] && x.value[0] != 0x22 && x.value[0] != 0x27 && BehindName(rest)
    requires forall k :: 0 <= k < |x.value| ==> !IsSpaceByte(x.value[k])
    requires a <= |t| && t[a..] == x.name + [0x3D] + x.value + rest
    ensures a < |t| && !Separates(t[a]) && AttrAt(t, a) == (x, a + |x.name| + 1 + |x.value|)
  {
    hide HtmlScan.Skip, FindByte, ValidName, AttrName;
    var n := a + |x.name|;
    var end := n + 1 + |x.value|;
    ValueParts(t, a, x.name, [0x3D], x.value, rest);
    NameRead(t, a, x.name);
    assert t[n..n + 1][0] == 0x3D && t[n + 1] == x.value[0];
    forall k | n + 1 <= k < end ensures InWord(t[k]) { assert t[k] == t[n + 1..end][k - (n + 1)]; }
    assert end < |t| ==> t[end] == t[end..end + |rest|][0];
    SkipIs(t, n, IsSpaceByte, n);
    SkipIs(t, n + 1, IsSpaceByte, n + 1);
    SkipIs(t, n + 1, InWord, end);
  }

  /** A name alone has an empty value. */
  lemma NameAloneAttr(t: Text, a: nat, name: Text)
    requires AttrName(name) && a <= |t| && t[a..] == name
    ensures a < |t| && !Separates(t[a]) && AttrAt(t, a) == (Attr(name, []), |t|)
  {
    hide HtmlScan.Skip, FindByte, ValidName, AttrName;
    assert t[a..a + |name|] == name;
    NameRead(t, a, name);
    SkipIs(t, |t|, IsSpaceByte, |t|);
  }

  /** The bytes of a name, and where it ends. */
  lemma NameRead(t: Text, a: nat, name: Text)
    requires AttrName(name) && a + |name| <= |t| && t[a..a + |name|] == name
    requires a + |name| < |t| ==> t[a + |name|] == 0x3D
    ensures a < |t| && !Separates(t[a]) && HtmlScan.Skip(t, a, InName) == a + |name| && Lower(t[a..a + |name|]) == name
  {
    hide HtmlScan.Skip, ValidName;
    NameIsName(name);
    var n := a + |name|;
    forall k | a <= k < n ensures InName(t[k]) { assert t[k] == t[a..n][k - a]; }
    assert t[a] == t[a..n][0];
    SkipIs(t, a, InName, n);
  }

  lemma ValueParts(t: Text, a: nat, name: Text, mid: Text, value: Text, rest: Text)
    requires a <= |t| && name + mid + value + rest <= t[a..]
    ensures var n := a + |name|;
      var v := n + |mid|;
      var end := v + |value|;
      end + |rest| <= |t| && t[a..n] == name && t[n..v] == mid && t[v..end] == value && t[end..end + |rest|] == rest
  {
    var all := name + mid + value + rest;
    var i, j, k := |name|, |name| + |mid|, |name| + |mid| + |value|;
    assert t[a..][..|all|] == all;
    assert all[..i] == name && all[i..j] == mid && all[j..k] == value && all[k..] == rest;
    SliceOfRest(t, a, 0, i);
    SliceOfRest(t, a, i, j);
    SliceOfRest(t, a, j, k);
    SliceOfRest(t, a, k, |all|);
    SamePart(t[a..], all, 0, i);
    SamePart(t[a..], all, i, j);
    SamePart(t[a..], all, j, k);
    SamePart(t[a..], all, k, |all|);
    assert all[0..i] == all[..i] && all[k..|all|] == all[k..];
  }

  lemma SamePart(s: Text, all: Text, i: nat, j: nat)
    requires all <= s && i <= j <= |all|
    ensures s[i..j] == all[i..j]
  {
    assert forall k :: 0 <= k < |all| ==> s[k] == all[k];
  }

  /** Spelled attributes are read as they are, in order. */
  lemma {:induction false} AttrsAsSpelled(t: Text, from: nat, attrs: seq<Attr>)
    requires from <= |t| && Spellable(attrs) && t[from..] == AttrSource(attrs)
    ensures AttrsFrom(t, from) == attrs
    decreases |attrs|
  {
    hide HtmlScan.Skip, AttrAt, ValidName, AttrName, AttrsFrom;
    if attrs == [] {
      SkipIs(t, from, Separates, |t|);
      AttrsEnd(t, from);
    } else {
      var x, rest := attrs[0], attrs[1..];
      var one := x.name + [0x3D, 0x22] + x.value + [0x22];
      var next := from + 1 + |one|;
      assert t[from..] == [0x20] + one + AttrSource(rest);
      Slices(t, from, one, AttrSource(rest));
      QuotedAttr(t, from + 1, x, 0x22);
      NameIsName(x.name);
      SkipIs(t, from, Separates, from + 1);
      AttrsStep(t, from, from + 1);
      AttrsAsSpelled(t, next, rest);
      assert attrs == [x] + rest;
    }
  }

  lemma AttrsEnd(t: Text, from: nat)
    requires from <= |t| && HtmlScan.Skip(t, from, Separates) == |t|
    ensures AttrsFrom(t, from) == []
  {
  }

  lemma AttrsStep(t: Text, from: nat, a: nat)
    requires from <= a < |t| && HtmlScan.Skip(t, from, Separates) == a && !Separates(t[a])
    ensures AttrsFrom(t, from) ==
      (if ValidName(AttrAt(t, a).0.name) then [AttrAt(t, a).0] else []) + AttrsFrom(t, AttrAt(t, a).1)
  {
    hide AttrAt, ValidName;
  }

  lemma Slices(t: Text, from: nat, one: Text, rest: Text)
    requires from <= |t| && t[from..] == [0x20] + one + rest
    ensures from + 1 + |one| <= |t| && t[from] == 0x20 && StandsAt(t, one, from + 1) && t[from + 1 + |one|..] == rest
  {
    var s := t[from..];
    assert s[0] == t[from] && s[1..1 + |one|] == one && s[1 + |one|..] == rest;
    assert t[from + 1..from + 1 + |one|] == s[1..1 + |one|];
    assert t[from + 1 + |one|..] == s[1 + |one|..];
  }

  // ------------------------------------------------------------ references

  /** `&name;`: numeric references of at most eleven characters are copied, known names resolved, all else left alone. */
  lemma ReferencesSpelled(t: Text, i: nat, name: Text, named: Named)
    requires StandsAt(t, [0x26] + name + [0x3B], i) && 0x3B !in name
    ensures t[i] == 0x26
    ensures Reference(t, i, named) ==
      if |name| > 11 then None
      else if name != [] && name[0] == 0x23 then Some(([0x26] + name + [0x3B], i + 1 + |name|))
      else if named(name).Some? then Some((named(name).value, i + 1 + |name|))
      else None
  {
    var all, semi := [0x26] + name + [0x3B], i + 1 + |name|;
    assert t[i..semi + 1] == all;
    assert t[i] == all[0] && t[semi] == all[|all| - 1];
    assert all[1..1 + |name|] == name;
    SliceOfSlice(t, i, semi + 1, 1, 1 + |name|);
    FirstByteIs(t, 0x3B, i + 1, semi);
  }

  ghost predicate FirstAt(t: Text, pattern: Text, from: nat, j: nat) {
    from <= j && StandsAt(t, pattern, j) && forall k :: from <= k < j ==> !StandsAt(t, pattern, k)
  }

  /** A script or a style sheet is passed over, to the `>` of its end tag; an open one ends the document. */
  lemma ReadsRawTag(t: Text, tag: Text, next: nat, name: Text, rest: Text, j: nat, g: nat)
    requires next <= |t| && TagName(name) && BehindName(rest) && tag == name + rest && tag[|tag| - 1] != 0x2F
    requires Lower(name) == M.Ascii("script") || Lower(name) == M.Ascii("style")
    ensures FirstAt(t, [0x3C, 0x2F] + Lower(name), next, j) && j <= g < |t| && 0x3E !in t[j..g] && t[g] == 0x3E ==>
      OpeningTag(t, tag, next) == Found([], g + 1, false)
    ensures (forall k :: next <= k ==> !StandsAt(t, [0x3C, 0x2F] + Lower(name), k)) ==>
      OpeningTag(t, tag, next) == Found([], next, true)
  {
    Openers();
    hide M.Ascii, AttrsFrom, HtmlScan.Skip;
    NameEnds(name, rest);
    assert tag[..|name|] == name;
    LowerLetter(name);
    var pattern := [0x3C, 0x2F] + Lower(name);
    if FirstAt(t, pattern, next, j) && j <= g < |t| && 0x3E !in t[j..g] && t[g] == 0x3E {
      FirstTextIs(t, pattern, next, j);
      FirstByteIs(t, 0x3E, j, g);
    }
    if forall k :: next <= k ==> !StandsAt(t, pattern, k) { NoTextIs(t, pattern, next); }
  }
}
