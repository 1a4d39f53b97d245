/**
 * The HTML normaliser (src/core/html_normalize.hpp): a scanner that turns any text into tags and
 * runs of characters, and a stack that makes the tags nest.
 */
module Html {
  import opened Bytes
  import opened Json
  import opened Markup
  import opened Yaml
  import M = Manifest

  const BANG: byte := 0x21
  const QUESTION: byte := 0x3F

  /** What the scanner finds. */
  datatype Token = Run(text: Text) | Start(name: Text, attrs: seq<Attr>, selfClosing: bool) | End(name: Text)

  /** What is written. */
  datatype Event = Chars(text: Text) | Open(name: Text, attrs: seq<Attr>) | Empty(name: Text, attrs: seq<Attr>) | Close(name: Text)

  // ------------------------------------------------------------ element classes

  const VOID: seq<Text> := [
    M.Ascii("area"), M.Ascii("base"), M.Ascii("br"), M.Ascii("col"), M.Ascii("embed"), M.Ascii("hr"), M.Ascii("img"),
    M.Ascii("input"), M.Ascii("link"), M.Ascii("meta"), M.Ascii("param"), M.Ascii("source"), M.Ascii("track"), M.Ascii("wbr")]

  const BLOCKS: seq<Text> := [
    M.Ascii("p"), M.Ascii("div"), M.Ascii("ul"), M.Ascii("ol"), M.Ascii("table"), M.Ascii("blockquote"), M.Ascii("pre"),
    M.Ascii("hr"), M.Ascii("section"), M.Ascii("article"), M.Ascii("h1"), M.Ascii("h2"), M.Ascii("h3"), M.Ascii("h4"),
    M.Ascii("h5"), M.Ascii("h6")]

  predicate IsVoid(name: Text) {
    name in VOID
  }

  predicate IsRawText(name: Text) {
    name == M.Ascii("script") || name == M.Ascii("style")
  }

  /** `closes_implicitly`. */
  predicate ClosesImplicitly(open: Text, opening: Text) {
    if open == M.Ascii("p") then opening in BLOCKS
    else if open == M.Ascii("li") then opening == M.Ascii("li")
    else if open == M.Ascii("dt") || open == M.Ascii("dd") then opening == M.Ascii("dt") || opening == M.Ascii("dd")
    else if open == M.Ascii("td") || open == M.Ascii("th") then
      opening == M.Ascii("td") || opening == M.Ascii("th") || opening == M.Ascii("tr")
    else if open == M.Ascii("tr") then opening == M.Ascii("tr")
    else open == M.Ascii("option") && opening == M.Ascii("option")
  }

  // ------------------------------------------------------------ nesting

  /** Closing tags for everything above the first `n` open elements, innermost first. */
  ghost function Closing(stack: seq<Text>, n: nat): seq<Event>
    decreases |stack|
  {
    if |stack| <= n then [] else [Close(stack[|stack| - 1])] + Closing(stack[..|stack| - 1], n)
  }

  /** The open elements that survive an opening tag. */
  ghost function Surviving(stack: seq<Text>, opening: Text): (n: nat)
    ensures n <= |stack| && (n > 0 ==> !ClosesImplicitly(stack[n - 1], opening))
    decreases |stack|
  {
    if stack != [] && ClosesImplicitly(stack[|stack| - 1], opening) then Surviving(stack[..|stack| - 1], opening) else |stack|
  }

  /** Below the innermost open element of that name; everything, when there is none. */
  ghost function Below(stack: seq<Text>, name: Text): (n: nat)
    ensures n <= |stack| && (n < |stack| ==> stack[n] == name) && (n == |stack| ==> name !in stack)
    decreases |stack|
  {
    if stack == [] then 0
    else if stack[|stack| - 1] == name then |stack| - 1
    else
      var n := Below(stack[..|stack| - 1], name);
      if n == |stack| - 1 then |stack| else n
  }

  /** The tags that are written for what was found, given the open elements. */
  ghost function Build(ts: seq<Token>, stack: seq<Text>): seq<Event>
    decreases |ts|
  {
    if ts == [] then Closing(stack, 0)
    else match ts[0]
      case Run(text) => [Chars(text)] + Build(ts[1..], stack)
      case End(name) =>
        if IsVoid(name) then Build(ts[1..], stack)
        else
          var n := Below(stack, name);
          Closing(stack, n) + Build(ts[1..], stack[..n])
      case Start(name, attrs, selfClosing) =>
        var n := Surviving(stack, name);
        Closing(stack, n) +
        (if selfClosing || IsVoid(name) then [Empty(name, attrs)] + Build(ts[1..], stack[..n])
         else [Open(name, attrs)] + Build(ts[1..], stack[..n] + [name]))
  }

  /** The open elements after one event; none at all when a closing tag meets another element. */
  ghost function StackAfter(e: Event, stack: seq<Text>): Option<seq<Text>> {
    match e
    case Chars(_) => Some(stack)
    case Empty(_, _) => Some(stack)
    case Open(name, _) => Some(stack + [name])
    case Close(name) => if stack == [] || stack[|stack| - 1] != name then None else Some(stack[..|stack| - 1])
  }

  /** An element does not stand directly inside one that its opening tag would have closed. */
  ghost predicate Placed(e: Event, stack: seq<Text>) {
    (e.Open? || e.Empty?) && stack != [] ==> !ClosesImplicitly(stack[|stack| - 1], e.name)
  }

  /** The open elements after some events, if every closing tag met its opening tag. */
  ghost function After(es: seq<Event>, stack: seq<Text>): Option<seq<Text>>
    decreases |es|
  {
    if es == [] then Some(stack)
    else if StackAfter(es[0], stack).None? then None
    else After(es[1..], StackAfter(es[0], stack).value)
  }

  ghost predicate WellPlaced(es: seq<Event>, stack: seq<Text>)
    decreases |es|
  {
    es == [] ||
    (Placed(es[0], stack) && StackAfter(es[0], stack).Some? && WellPlaced(es[1..], StackAfter(es[0], stack).value))
  }

  lemma {:induction false} AfterConcat(a: seq<Event>, b: seq<Event>, stack: seq<Text>)
    ensures After(a + b, stack) == if After(a, stack).None? then None else After(b, After(a, stack).value)
    ensures After(a, stack).Some? && WellPlaced(a, stack) && WellPlaced(b, After(a, stack).value) ==> WellPlaced(a + b, stack)
    decreases |a|
  {
    hide StackAfter, Placed;
    if a == [] {
      assert a + b == b;
    } else {
      assert (a + b)[1..] == a[1..] + b && (a + b)[0] == a[0];
      if StackAfter(a[0], stack).Some? { AfterConcat(a[1..], b, StackAfter(a[0], stack).value); }
    }
  }

  lemma {:induction false} ClosingCloses(stack: seq<Text>, n: nat)
    requires n <= |stack|
    ensures After(Closing(stack, n), stack) == Some(stack[..n]) && WellPlaced(Closing(stack, n), stack)
    decreases |stack|
  {
    if n < |stack| {
      var init := stack[..|stack| - 1];
      ClosingCloses(init, n);
      assert Closing(stack, n)[1..] == Closing(init, n);
      assert init[..n] == stack[..n];
    } else {
      assert stack[..n] == stack;
    }
  }

  lemma FirstEvent(e: Event, es: seq<Event>, stack: seq<Text>)
    requires StackAfter(e, stack).Some?
    ensures After([e] + es, stack) == After(es, StackAfter(e, stack).value)
    ensures WellPlaced([e] + es, stack) <==> Placed(e, stack) && WellPlaced(es, StackAfter(e, stack).value)
  {
    hide StackAfter, Placed;
    assert ([e] + es)[1..] == es;
  }

  /**
   * Whatever was scanned, the tags written nest: every opened element is closed exactly once, in
   * last-in first-out order, and none stands directly inside one its opening tag ends.
   */
  lemma {:induction false} BuildNests(ts: seq<Token>, stack: seq<Text>)
    ensures After(Build(ts, stack), stack) == Some([]) && WellPlaced(Build(ts, stack), stack)
    decreases |ts|
  {
    hide ClosesImplicitly, IsVoid, After, WellPlaced, Closing;
    if ts == [] {
      ClosingCloses(stack, 0);
    } else {
      var rest := ts[1..];
      match ts[0]
      case Run(text) =>
        BuildNests(rest, stack);
        FirstEvent(Chars(text), Build(rest, stack), stack);
      case End(name) =>
        if IsVoid(name) {
          BuildNests(rest, stack);
        } else {
          var n := Below(stack, name);
          BuildNests(rest, stack[..n]);
          ClosingCloses(stack, n);
          AfterConcat(Closing(stack, n), Build(rest, stack[..n]), stack);
        }
      case Start(name, attrs, selfClosing) =>
        var n := Surviving(stack, name);
        var kept := stack[..n];
        ClosingCloses(stack, n);
        if selfClosing || IsVoid(name) {
          BuildNests(rest, kept);
          FirstEvent(Empty(name, attrs), Build(rest, kept), kept);
          AfterConcat(Closing(stack, n), [Empty(name, attrs)] + Build(rest, kept), stack);
        } else {
          BuildNests(rest, kept + [name]);
          FirstEvent(Open(name, attrs), Build(rest, kept + [name]), kept);
          AfterConcat(Closing(stack, n), [Open(name, attrs)] + Build(rest, kept + [name]), stack);
        }
    }
  }

  // ------------------------------------------------------------ what is kept

  ghost function RunsOf(ts: seq<Token>): seq<Text> {
    if ts == [] then [] else (if ts[0].Run? then [ts[0].text] else []) + RunsOf(ts[1..])
  }

  ghost function CharsOf(es: seq<Event>): seq<Text> {
    if es == [] then [] else (if es[0].Chars? then [es[0].text] else []) + CharsOf(es[1..])
  }

  lemma {:induction false} CharsConcat(a: seq<Event>, b: seq<Event>)
    ensures CharsOf(a + b) == CharsOf(a) + CharsOf(b)
  {
    if a == [] {
      assert a + b == b;
    } else {
      assert (a + b)[1..] == a[1..] + b;
      CharsConcat(a[1..], b);
    }
  }

  lemma {:induction false} ClosingHasNoChars(stack: seq<Text>, n: nat)
    ensures CharsOf(Closing(stack, n)) == []
    decreases |stack|
  {
    if |stack| > n {
      ClosingHasNoChars(stack[..|stack| - 1], n);
      assert Closing(stack, n)[1..] == Closing(stack[..|stack| - 1], n);
    }
  }

  lemma OneChars(e: Event, es: seq<Event>)
    ensures CharsOf([e] + es) == (if e.Chars? then [e.text] else []) + CharsOf(es)
  {
    assert ([e] + es)[1..] == es;
  }

  /** All text survives, in order, whatever happens to the tags around it. */
  lemma {:induction false} TextIsKept(ts: seq<Token>, stack: seq<Text>)
    ensures CharsOf(Build(ts, stack)) == RunsOf(ts)
    decreases |ts|
  {
    hide ClosesImplicitly, IsVoid, Closing, CharsOf;
    if ts == [] {
      ClosingHasNoChars(stack, 0);
    } else {
      var rest := ts[1..];
      match ts[0]
      case Run(text) =>
        TextIsKept(rest, stack);
        OneChars(Chars(text), Build(rest, stack));
      case End(name) =>
        var n := if IsVoid(name) then |stack| else Below(stack, name);
        assert stack[..|stack|] == stack;
        TextIsKept(rest, stack[..n]);
        ClosingHasNoChars(stack, n);
        CharsConcat(Closing(stack, n), Build(rest, stack[..n]));
        assert [] + RunsOf(rest) == RunsOf(rest);
      case Start(name, attrs, selfClosing) =>
        var n := Surviving(stack, name);
        var empty := selfClosing || IsVoid(name);
        var e := if empty then Empty(name, attrs) else Open(name, attrs);
        var more := Build(rest, if empty then stack[..n] else stack[..n] + [name]);
        TextIsKept(rest, if empty then stack[..n] else stack[..n] + [name]);
        ClosingHasNoChars(stack, n);
        OneChars(e, more);
        CharsConcat(Closing(stack, n), [e] + more);
        assert [] + RunsOf(rest) == RunsOf(rest);
    }
  }

  /** A document read back as the tags it is made of. */
  ghost function AsTokens(es: seq<Event>): seq<Token> {
    if es == [] then []
    else
      [match es[0]
       case Chars(text) => Run(text)
       case Open(name, attrs) => Start(name, attrs, false)
       case Empty(name, attrs) => Start(name, attrs, true)
       case Close(name) => End(name)] + AsTokens(es[1..])
  }

  ghost predicate NoVoidContent(es: seq<Event>) {
    es == [] || ((es[0].Open? || es[0].Close? ==> !IsVoid(es[0].name)) && NoVoidContent(es[1..]))
  }

  /** A document that nests already is kept tag by tag. */
  lemma {:induction false} NestedIsKept(es: seq<Event>, stack: seq<Text>)
    requires After(es, stack) == Some([]) && WellPlaced(es, stack) && NoVoidContent(es)
    ensures Build(AsTokens(es), stack) == es
    decreases |es|
  {
    hide ClosesImplicitly, IsVoid;
    if es != [] {
      var rest := es[1..];
      assert AsTokens(es)[1..] == AsTokens(rest);
      match es[0]
      case Chars(_) => NestedIsKept(rest, stack);
      case Empty(name, _) =>
        NestedIsKept(rest, stack);
        Stays(stack, name);
      case Open(name, _) =>
        NestedIsKept(rest, stack + [name]);
        Stays(stack, name);
      case Close(name) =>
        NestedIsKept(rest, stack[..|stack| - 1]);
        ClosesTop(stack);
    }
  }

  lemma Stays(stack: seq<Text>, name: Text)
    requires stack == [] || !ClosesImplicitly(stack[|stack| - 1], name)
    ensures Surviving(stack, name) == |stack| && Closing(stack, |stack|) == [] && stack[..|stack|] == stack
  {
    hide ClosesImplicitly;
  }

  lemma ClosesTop(stack: seq<Text>)
    requires stack != []
    ensures Below(stack, stack[|stack| - 1]) == |stack| - 1
    ensures Closing(stack, |stack| - 1) == [Close(stack[|stack| - 1])]
  {
    assert Closing(stack[..|stack| - 1], |stack| - 1) == [];
  }
}
