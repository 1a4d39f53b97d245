/**
 * metadata.yaml: written by `metadata_to_yaml` (src/serialize/writers.cpp), read back line by line by
 * `mm_meta_walk` (micro/src/yaml_min.c).
 */
module Metadata {
  import opened Bytes
  import opened Json
  import opened Layout
  import opened Index
  import opened Ustar
  import opened Yaml
  import opened YamlCode
  import U = UstarFormat
  import M = Manifest
  import Tar

  datatype Author = Author(name: Text, id: Text)

  datatype Meta = Meta(title: Text, version: Text, authors: seq<Author>, createdAt: Text,
                       classification: Text, language: Text, generatedBy: Option<Text>)

  const TITLE := M.Ascii("title")
  const VERSION := M.Ascii("version")
  const AUTHORS := M.Ascii("authors")
  const CREATED := M.Ascii("created_at")
  const CLASSIFICATION := M.Ascii("classification")
  const LANGUAGE := M.Ascii("language")
  const GENERATED := M.Ascii("generated_by")
  const NAME := M.Ascii("name")
  const ID := M.Ascii("id")
  const NOTHING := M.Ascii("[]")

  // ------------------------------------------------------------ what is written

  /** A top-level key with its value as it is spelled; an empty spelling opens a block. */
  datatype Top = Top(key: Text, value: Text)

  ghost function TopLines(ps: seq<Top>): seq<Text> {
    if ps == [] then [] else [Entry(ps[0].key, ps[0].value)] + TopLines(ps[1..])
  }

  ghost function AuthorLines(authors: seq<Author>): seq<Text> {
    if authors == [] then []
    else
      [ItemLine(Entry(NAME, Scalar(authors[0].name))), InnerLine(Entry(ID, Scalar(authors[0].id)))]
      + AuthorLines(authors[1..])
  }

  ghost function Before(m: Meta): seq<Top> {
    [Top(TITLE, Scalar(m.title)), Top(VERSION, Scalar(m.version)),
     Top(AUTHORS, if m.authors == [] then NOTHING else [])]
  }

  ghost function After(m: Meta): seq<Top> {
    [Top(CREATED, Scalar(m.createdAt)), Top(CLASSIFICATION, Scalar(m.classification)),
     Top(LANGUAGE, Scalar(m.language))]
    + match m.generatedBy case None => [] case Some(g) => [Top(GENERATED, Scalar(g))]
  }

  /** The lines of metadata.yaml. */
  ghost function MetaLines(m: Meta): seq<Text> {
    TopLines(Before(m)) + (AuthorLines(m.authors) + TopLines(After(m)))
  }

  // ------------------------------------------------------------ the walk

  datatype Want = Key(key: Text) | NthAuthor(index: nat)

  datatype State = State(inAuthors: bool, seen: nat)

  datatype Step = Go(next: State) | Take(value: Text)

  /** What one line does to the walk. */
  ghost function LineStep(line: Text, want: Want, st: State): Step {
    var body := TrimLeft(line);
    if body == [] || body[0] == HASH || DASHES <= body then Go(st)
    else if |body| == |line| then TopStep(body, want, st)
    else if !st.inAuthors || want.Key? then Go(st)
    else ItemStep(body, want.index, st)
  }

  ghost function TopStep(body: Text, want: Want, st: State): Step {
    var kv := SplitLine(body, 0);
    if kv.None? then Go(State(false, st.seen))
    else match want
      case Key(k) => if U.Field(kv.value.0) == k then Take(ReadScalar(kv.value.1)) else Go(State(false, st.seen))
      case NthAuthor(_) => Go(State(U.Field(kv.value.0) == AUTHORS && kv.value.1 == [], st.seen))
  }

  ghost function ItemStep(body: Text, index: nat, st: State): Step
    requires body != []
  {
    var dashed := body[0] == DASH;
    var item := if dashed then Trim(body[1..]) else body;
    var next := State(true, if dashed then st.seen + 1 else st.seen);
    if item == [] || next.seen == 0 then Go(next)
    else
      var kv := SplitLine(item, 0);
      var here := next.seen - 1 == index;
      if kv.Some? then
        if U.Field(kv.value.0) == NAME && here then Take(ReadScalar(kv.value.1)) else Go(next)
      else if dashed && here then Take(ReadScalar(item)) else Go(next)
  }

  /** `mm_meta_walk` over what is left of the member. */
  ghost function WalkFrom(t: Text, want: Want, st: State, dst: Option<nat>): M.Looked
    decreases |t|
  {
    if t == [] then M.Looked(E_NOT_FOUND, [])
    else
      var l := NextLine(t);
      if l.cut then M.Looked(E_RANGE, [])
      else match LineStep(l.text, want, st)
        case Take(v) => M.EmitTo(v, dst)
        case Go(next) => WalkFrom(l.rest, want, next, dst)
  }

  const START := State(false, 0)

  // ------------------------------------------------------------ reading back what was written

  /** The walk over a list of lines, none of them too long for the buffer. */
  ghost function OverLines(ls: seq<Text>, want: Want, st: State, dst: Option<nat>): M.Looked {
    if ls == [] then M.Looked(E_NOT_FOUND, [])
    else match LineStep(ls[0], want, st)
      case Take(v) => M.EmitTo(v, dst)
      case Go(next) => OverLines(ls[1..], want, next, dst)
  }

  /** A value is either right or refused: lines that do not fit the buffer make the walk give up. */
  lemma {:induction false} RightOrRefused(ls: seq<Text>, want: Want, st: State, dst: Option<nat>)
    requires AllWhole(ls)
    ensures var r := WalkFrom(JoinLines(ls), want, st, dst);
      r == OverLines(ls, want, st, dst) || (r == M.Looked(E_RANGE, []) && !AllFit(ls))
    decreases |ls|
  {
    hide LineStep, NextLine, Whole, JoinLines;
    if ls != [] {
      var l, more := ls[0], ls[1..];
      assert [l] + more == ls;
      if |l| < M.LINE_MAX {
        NextWrittenLine(l, more);
        var step := LineStep(l, want, st);
        if step.Go? { RightOrRefused(more, want, step.next, dst); }
      } else {
        NextLongLine(l, more);
      }
    } else {
      NothingLeft(want, st, dst);
    }
  }

  lemma EndOfLines(want: Want, st: State, dst: Option<nat>)
    ensures OverLines([], want, st, dst) == M.Looked(E_NOT_FOUND, [])
  {
  }

  lemma NothingLeft(want: Want, st: State, dst: Option<nat>)
    ensures WalkFrom(JoinLines([]), want, st, dst) == M.Looked(E_NOT_FOUND, [])
  {
  }

  lemma WalkGo(l: Text, ls: seq<Text>, want: Want, st: State, next: State, dst: Option<nat>)
    requires LineStep(l, want, st) == Go(next)
    ensures OverLines([l] + ls, want, st, dst) == OverLines(ls, want, next, dst)
  {
    hide LineStep;
    assert ([l] + ls)[1..] == ls;
  }

  lemma WalkTake(l: Text, ls: seq<Text>, want: Want, st: State, value: Text, dst: Option<nat>)
    requires LineStep(l, want, st) == Take(value)
    ensures OverLines([l] + ls, want, st, dst) == M.EmitTo(value, dst)
  {
    hide LineStep;
  }

  ghost predicate Spelled(p: Top) {
    KeyName(p.key) && (p.value == [] || Snug(p.value))
  }

  ghost predicate AllSpelled(ps: seq<Top>) {
    ps == [] || (Spelled(ps[0]) && AllSpelled(ps[1..]))
  }

  /** A top-level line as the walk sees it. */
  lemma TopLineStep(p: Top, want: Want, st: State)
    requires Spelled(p)
    ensures LineStep(Entry(p.key, p.value), want, st) ==
      match want
      case Key(k) => if p.key == k then Take(ReadScalar(p.value)) else Go(State(false, st.seen))
      case NthAuthor(_) => Go(State(p.key == AUTHORS && p.value == [], st.seen))
  {
    hide Entry, ReadScalar, SplitLine, TrimLeft, Snug, KeyName, U.Field;
    TopShape(p.key, p.value);
    EntrySplits(p.key, p.value);
  }

  /** The first pair with a key. */
  ghost function Lookup(ps: seq<Top>, key: Text): Option<Text> {
    if ps == [] then None else if ps[0].key == key then Some(ps[0].value) else Lookup(ps[1..], key)
  }

  /** Looking for a key through a run of top-level lines. */
  lemma {:induction false} KeyThroughTop(ps: seq<Top>, rest: seq<Text>, key: Text, st: State, dst: Option<nat>)
    requires AllSpelled(ps)
    ensures Lookup(ps, key).Some? ==>
      OverLines(TopLines(ps) + rest, Key(key), st, dst) == M.EmitTo(ReadScalar(Lookup(ps, key).value), dst)
    ensures Lookup(ps, key).None? ==>
      OverLines(TopLines(ps) + rest, Key(key), st, dst)
        == OverLines(rest, Key(key), if ps == [] then st else State(false, st.seen), dst)
    decreases |ps|
  {
    hide LineStep, OverLines, Entry, ReadScalar, Spelled;
    if ps == [] {
      assert TopLines(ps) + rest == rest;
    } else {
      var l, more := Entry(ps[0].key, ps[0].value), TopLines(ps[1..]) + rest;
      assert TopLines(ps) + rest == [l] + more;
      assert TopLines(ps)[1..] == TopLines(ps[1..]);
      TopLineStep(ps[0], Key(key), st);
      if ps[0].key == key {
        WalkTake(l, more, Key(key), st, ReadScalar(ps[0].value), dst);
      } else {
        WalkGo(l, more, Key(key), st, State(false, st.seen), dst);
        KeyThroughTop(ps[1..], rest, key, State(false, st.seen), dst);
      }
    }
  }

  /** Looking for an author through top-level lines: only a bare `authors:` opens the block. */
  lemma {:induction false} AuthorThroughTop(ps: seq<Top>, rest: seq<Text>, index: nat, st: State, dst: Option<nat>)
    requires AllSpelled(ps) && ps != []
    ensures var last := ps[|ps| - 1];
      OverLines(TopLines(ps) + rest, NthAuthor(index), st, dst)
        == OverLines(rest, NthAuthor(index), State(last.key == AUTHORS && last.value == [], st.seen), dst)
    decreases |ps|
  {
    hide LineStep, OverLines, Entry, ReadScalar, Spelled;
    var l, more := Entry(ps[0].key, ps[0].value), TopLines(ps[1..]) + rest;
    assert TopLines(ps) + rest == [l] + more;
    assert TopLines(ps)[1..] == TopLines(ps[1..]);
    TopLineStep(ps[0], NthAuthor(index), st);
    var next := State(ps[0].key == AUTHORS && ps[0].value == [], st.seen);
    WalkGo(l, more, NthAuthor(index), st, next, dst);
    if |ps| == 1 {
      assert TopLines(ps[1..]) + rest == rest;
    } else {
      AuthorThroughTop(ps[1..], rest, index, next, dst);
    }
  }

  lemma InnerNames()
    ensures KeyName(NAME) && KeyName(ID) && NAME != ID
    ensures U.Field(NAME) == NAME && U.Field(ID) == ID
  {
    M.PlainKey(NAME);
    M.PlainKey(ID);
  }

  /** The two lines of one author, when a key is looked for: passed over. */
  lemma IndentedIsSkipped(e: Text, st: State, key: Text)
    requires Snug(e) && e[0] != HASH && e[0] != DASH
    ensures LineStep(ItemLine(e), Key(key), st) == Go(st) && LineStep(InnerLine(e), Key(key), st) == Go(st)
  {
    ItemShape(e);
    InnerShape(e);
    hide TrimLeft, TopStep, ItemStep;
  }

  lemma ItemEntry(k: Text, v: Text)
    requires KeyName(k) && Snug(v)
    ensures var e := Entry(k, v);
      Snug(e) && e[0] != HASH && e[0] != DASH && SplitLine(e, 0) == Some((k, v)) && U.Field(k) == k
  {
    EntrySplits(k, v);
    TopShape(k, v);
    EntryIsSnug(k, v);
  }

  /** The name line of an author: it starts the next item. */
  lemma NameLineStep(v: Text, index: nat, seen: nat)
    requires Snug(v)
    ensures LineStep(ItemLine(Entry(NAME, v)), NthAuthor(index), State(true, seen)) ==
      if seen == index then Take(ReadScalar(v)) else Go(State(true, seen + 1))
  {
    var e := Entry(NAME, v);
    InnerNames();
    ItemEntry(NAME, v);
    ItemShape(e);
    assert !(DASHES <= [DASH, SPACE] + e) by { assert ([DASH, SPACE] + e)[1] == SPACE; }
    hide Entry, SplitLine, Trim, TrimLeft, Snug, KeyName, U.Field, ReadScalar, M.Ascii;
  }

  lemma IdLineStep(v: Text, index: nat, seen: nat)
    requires Snug(v) && seen > 0
    ensures LineStep(InnerLine(Entry(ID, v)), NthAuthor(index), State(true, seen)) == Go(State(true, seen))
  {
    var e := Entry(ID, v);
    InnerNames();
    ItemEntry(ID, v);
    InnerShape(e);
    assert !(DASHES <= e);
    hide Entry, SplitLine, Trim, TrimLeft, Snug, KeyName, U.Field, ReadScalar, M.Ascii;
  }

  /** The author block, looking for an author by index. */
  lemma {:induction false} AuthorThroughBlock(authors: seq<Author>, rest: seq<Text>, index: nat, seen: nat, dst: Option<nat>)
    requires seen <= index
    ensures OverLines(AuthorLines(authors) + rest, NthAuthor(index), State(true, seen), dst) ==
      if index - seen < |authors| then M.EmitTo(ReadScalar(Scalar(authors[index - seen].name)), dst)
      else OverLines(rest, NthAuthor(index), State(true, seen + |authors|), dst)
    decreases |authors|
  {
    hide LineStep, OverLines, Entry, ReadScalar, Scalar, ItemLine, InnerLine, Snug, M.Ascii;
    if authors == [] {
      assert AuthorLines(authors) + rest == rest;
    } else {
      var name, id := Scalar(authors[0].name), Scalar(authors[0].id);
      var l1, l2 := ItemLine(Entry(NAME, name)), InnerLine(Entry(ID, id));
      var more := AuthorLines(authors[1..]) + rest;
      BlockLines(authors, rest);
      ScalarIsSnug(authors[0].name);
      ScalarIsSnug(authors[0].id);
      NameLineStep(name, index, seen);
      if seen == index {
        WalkTake(l1, [l2] + more, NthAuthor(index), State(true, seen), ReadScalar(name), dst);
      } else {
        IdLineStep(id, index, seen + 1);
        WalkGo(l1, [l2] + more, NthAuthor(index), State(true, seen), State(true, seen + 1), dst);
        WalkGo(l2, more, NthAuthor(index), State(true, seen + 1), State(true, seen + 1), dst);
        AuthorThroughBlock(authors[1..], rest, index, seen + 1, dst);
      }
    }
  }

  lemma BlockLines(authors: seq<Author>, rest: seq<Text>)
    requires authors != []
    ensures AuthorLines(authors) + rest ==
      [ItemLine(Entry(NAME, Scalar(authors[0].name)))]
      + ([InnerLine(Entry(ID, Scalar(authors[0].id)))] + (AuthorLines(authors[1..]) + rest))
  {
    hide Entry, Scalar, ItemLine, InnerLine, M.Ascii;
    var l1 := ItemLine(Entry(NAME, Scalar(authors[0].name)));
    var l2 := InnerLine(Entry(ID, Scalar(authors[0].id)));
    assert [l1, l2] + AuthorLines(authors[1..]) + rest == [l1] + ([l2] + (AuthorLines(authors[1..]) + rest));
  }

  lemma {:induction false} KeyThroughBlock(authors: seq<Author>, rest: seq<Text>, key: Text, st: State, dst: Option<nat>)
    ensures OverLines(AuthorLines(authors) + rest, Key(key), st, dst) == OverLines(rest, Key(key), st, dst)
    decreases |authors|
  {
    hide LineStep, OverLines, Entry, ReadScalar, Scalar, ItemLine, InnerLine, Snug, M.Ascii;
    if authors == [] {
      assert AuthorLines(authors) + rest == rest;
    } else {
      var name, id := Scalar(authors[0].name), Scalar(authors[0].id);
      var l1, l2 := ItemLine(Entry(NAME, name)), InnerLine(Entry(ID, id));
      var more := AuthorLines(authors[1..]) + rest;
      BlockLines(authors, rest);
      ScalarIsSnug(authors[0].name);
      ScalarIsSnug(authors[0].id);
      InnerNames();
      ItemEntry(NAME, name);
      ItemEntry(ID, id);
      IndentedIsSkipped(Entry(NAME, name), st, key);
      IndentedIsSkipped(Entry(ID, id), st, key);
      WalkGo(l1, [l2] + more, Key(key), st, st, dst);
      WalkGo(l2, more, Key(key), st, st, dst);
      KeyThroughBlock(authors[1..], rest, key, st, dst);
    }
  }

  // ------------------------------------------------------------ the whole document

  lemma WrittenNames()
    ensures KeyName(TITLE) && KeyName(VERSION) && KeyName(AUTHORS)
    ensures KeyName(CREATED) && KeyName(CLASSIFICATION) && KeyName(LANGUAGE) && KeyName(GENERATED)
    ensures Snug(NOTHING) && NOTHING != []
  {
    assert NOTHING == [LBRACKET, RBRACKET];
  }

  lemma AllSpelledConcat(a: seq<Top>, b: seq<Top>)
    ensures AllSpelled(a) && AllSpelled(b) ==> AllSpelled(a + b)
  {
    hide Spelled;
    if a == [] {
      assert a + b == b;
    } else {
      assert (a + b)[1..] == a[1..] + b;
      AllSpelledConcat(a[1..], b);
    }
  }

  lemma OneSpelled(key: Text, s: Text)
    requires KeyName(key)
    ensures AllSpelled([Top(key, Scalar(s))])
  {
    hide Scalar, KeyName, Snug;
    ScalarIsSnug(s);
    assert [Top(key, Scalar(s))][1..] == [];
  }

  lemma MetaIsSpelled(m: Meta)
    ensures AllSpelled(Before(m)) && AllSpelled(After(m))
  {
    hide Scalar, KeyName, Snug, AllSpelled, M.Ascii;
    WrittenNames();
    OneSpelled(TITLE, m.title);
    OneSpelled(VERSION, m.version);
    OneSpelled(CREATED, m.createdAt);
    OneSpelled(CLASSIFICATION, m.classification);
    OneSpelled(LANGUAGE, m.language);
    var a := Top(AUTHORS, if m.authors == [] then NOTHING else []);
    BareSpelled(a);
    AllSpelledConcat([Top(TITLE, Scalar(m.title))], [Top(VERSION, Scalar(m.version))]);
    AllSpelledConcat([Top(TITLE, Scalar(m.title))] + [Top(VERSION, Scalar(m.version))], [a]);
    var c, d, e := Top(CREATED, Scalar(m.createdAt)), Top(CLASSIFICATION, Scalar(m.classification)), Top(LANGUAGE, Scalar(m.language));
    AllSpelledConcat([c], [d]);
    AllSpelledConcat([c] + [d], [e]);
    assert Before(m) == [Top(TITLE, Scalar(m.title))] + [Top(VERSION, Scalar(m.version))] + [a];
    assert [c, d, e] == [c] + [d] + [e];
    if m.generatedBy.Some? {
      OneSpelled(GENERATED, m.generatedBy.value);
      AllSpelledConcat([c, d, e], [Top(GENERATED, Scalar(m.generatedBy.value))]);
    } else {
      assert After(m) == [c, d, e];
    }
  }

  lemma BareSpelled(p: Top)
    requires Spelled(p)
    ensures AllSpelled([p])
  {
    hide Spelled;
    assert [p][1..] == [];
  }

  /** Every top-level key of a written document, and no other, is found with its value. */
  lemma KeysReadBack(m: Meta, key: Text, dst: Option<nat>)
    ensures var v := Lookup(Before(m) + After(m), key);
      OverLines(MetaLines(m), Key(key), START, dst) ==
      if v.None? then M.Looked(E_NOT_FOUND, []) else M.EmitTo(ReadScalar(v.value), dst)
  {
    hide OverLines, Entry, ReadScalar, Scalar, Before, After, M.Ascii, AllSpelled, TopLines, AuthorLines;
    var block, after := AuthorLines(m.authors), TopLines(After(m));
    MetaIsSpelled(m);
    LookupConcat(Before(m), After(m), key);
    KeyThroughTop(Before(m), block + after, key, START, dst);
    if Lookup(Before(m), key).None? {
      var st := if Before(m) == [] then START else State(false, START.seen);
      KeyThroughBlock(m.authors, after, key, st, dst);
      KeyThroughTop(After(m), [], key, st, dst);
      assert after + [] == after;
      EndOfLines(Key(key), if After(m) == [] then st else State(false, st.seen), dst);
      
    }
  }

  lemma {:induction false} LookupConcat(a: seq<Top>, b: seq<Top>, key: Text)
    ensures Lookup(a + b, key) == if Lookup(a, key).Some? then Lookup(a, key) else Lookup(b, key)
  {
    if a == [] {
      assert a + b == b;
    } else {
      assert (a + b)[1..] == a[1..] + b;
      LookupConcat(a[1..], b, key);
    }
  }

  /** Every author is found by index, and none past the last. */
  lemma AuthorsReadBack(m: Meta, index: nat, dst: Option<nat>)
    ensures OverLines(MetaLines(m), NthAuthor(index), START, dst) ==
      if index < |m.authors| then M.EmitTo(ReadScalar(Scalar(m.authors[index].name)), dst) else M.Looked(E_NOT_FOUND, [])
  {
    hide OverLines, Entry, ReadScalar, Scalar, M.Ascii, AllSpelled, TopLines, AuthorLines;
    var block, after := AuthorLines(m.authors), TopLines(After(m));
    MetaIsSpelled(m);
    WrittenNames();
    AuthorThroughTop(Before(m), block + after, index, START, dst);
    var st := State(m.authors != [], 0);
    if m.authors == [] {
      NoAuthorLines(after);
    } else {
      AuthorThroughBlock(m.authors, after, index, 0, dst);
    }
    if index >= |m.authors| {
      var past := State(m.authors != [], |m.authors|);
      AuthorThroughTop(After(m), [], index, past, dst);
      assert after + [] == after;
      LastIsNotAuthors(m);
      EndOfLines(NthAuthor(index), State(false, |m.authors|), dst);
      
    }
  }

  lemma NoAuthorLines(rest: seq<Text>)
    ensures AuthorLines([]) + rest == rest
  {
  }

  lemma LastIsNotAuthors(m: Meta)
    ensures After(m) != [] && After(m)[|After(m)| - 1].value != []
  {
    hide Scalar;
    ScalarIsSnug(m.language);
    if m.generatedBy.Some? { ScalarIsSnug(m.generatedBy.value); }
  }

  // ------------------------------------------------------------ written lines are whole

  lemma TopIsWhole(ps: seq<Top>)
    requires AllSpelled(ps)
    ensures AllWhole(TopLines(ps))
  {
    hide Entry, KeyName, Snug, Whole;
    if ps != [] {
      TopShape(ps[0].key, ps[0].value);
      WholeIs(Entry(ps[0].key, ps[0].value));
      TopIsWhole(ps[1..]);
    }
  }

  lemma WholeIs(l: Text)
    requires LF !in l && (l != [] ==> l[|l| - 1] != CR)
    ensures Whole(l)
  {
  }

  lemma {:induction false} AuthorsAreWhole(authors: seq<Author>)
    ensures AllWhole(AuthorLines(authors))
  {
    hide Entry, Scalar, Whole, AllWhole, ItemLine, InnerLine, M.Ascii;
    if authors == [] {
      NoneWhole();
    } else {
      ScalarIsSnug(authors[0].name);
      ScalarIsSnug(authors[0].id);
      InnerNames();
      EntryIsSnug(NAME, Scalar(authors[0].name));
      EntryIsSnug(ID, Scalar(authors[0].id));
      var l1, l2 := ItemLine(Entry(NAME, Scalar(authors[0].name))), InnerLine(Entry(ID, Scalar(authors[0].id)));
      IndentedIsWhole(Entry(NAME, Scalar(authors[0].name)));
      IndentedIsWhole(Entry(ID, Scalar(authors[0].id)));
      AuthorsAreWhole(authors[1..]);
      TwoWhole(l1, l2, AuthorLines(authors[1..]));
    }
  }

  lemma NoneWhole()
    ensures AllWhole(AuthorLines([]))
  {
  }

  lemma IndentedIsWhole(e: Text)
    requires Snug(e)
    ensures Whole(ItemLine(e)) && Whole(InnerLine(e))
  {
    assert ItemLine(e)[|ItemLine(e)| - 1] == e[|e| - 1] && InnerLine(e)[|InnerLine(e)| - 1] == e[|e| - 1];
  }

  lemma TwoWhole(l1: Text, l2: Text, more: seq<Text>)
    requires Whole(l1) && Whole(l2) && AllWhole(more)
    ensures AllWhole([l1, l2] + more)
  {
    hide Whole;
    var all := [l1, l2] + more;
    assert all[1..] == [l2] + more && ([l2] + more)[1..] == more;
    assert AllWhole([l2] + more);
  }

  lemma MetaIsWhole(m: Meta)
    ensures AllWhole(MetaLines(m))
  {
    hide AllWhole, TopLines, AuthorLines, Before, After;
    MetaIsSpelled(m);
    TopIsWhole(Before(m));
    TopIsWhole(After(m));
    AuthorsAreWhole(m.authors);
    AllWholeConcat(AuthorLines(m.authors), TopLines(After(m)));
    AllWholeConcat(TopLines(Before(m)), AuthorLines(m.authors) + TopLines(After(m)));
  }

  ghost predicate Clean(m: Meta) {
    && !HasOddControl(m.title) && !HasOddControl(m.version) && !HasOddControl(m.createdAt)
    && !HasOddControl(m.classification) && !HasOddControl(m.language)
    && (m.generatedBy.Some? ==> !HasOddControl(m.generatedBy.value))
    && forall i :: 0 <= i < |m.authors| ==> !HasOddControl(m.authors[i].name)
  }

  lemma LookupAt(ps: seq<Top>, i: nat)
    requires i < |ps| && forall k :: 0 <= k < i ==> ps[k].key != ps[i].key
    ensures Lookup(ps, ps[i].key) == Some(ps[i].value)
  {
    if i > 0 { LookupAt(ps[1..], i - 1); }
  }

  lemma KeysDiffer()
    ensures TITLE != VERSION && TITLE != CREATED && TITLE != CLASSIFICATION && TITLE != LANGUAGE && TITLE != AUTHORS
    ensures VERSION != CREATED && VERSION != CLASSIFICATION && VERSION != LANGUAGE && VERSION != AUTHORS
    ensures AUTHORS != CREATED && AUTHORS != CLASSIFICATION && AUTHORS != LANGUAGE && AUTHORS != GENERATED
    ensures CREATED != CLASSIFICATION && CREATED != LANGUAGE && CLASSIFICATION != LANGUAGE
    ensures GENERATED != TITLE && GENERATED != VERSION && GENERATED != CREATED
    ensures GENERATED != CLASSIFICATION && GENERATED != LANGUAGE
  {
    assert TITLE[0] == 0x74 && VERSION[0] == 0x76 && AUTHORS[0] == 0x61 && CREATED[1] == 0x72;
    assert CLASSIFICATION[1] == 0x6C && LANGUAGE[0] == 0x6C && GENERATED[0] == 0x67;
    assert CREATED[0] == 0x63 && CLASSIFICATION[0] == 0x63;
  }

  /**
   * Over the bytes of the written document: what a lookup returns is the written value, or E_RANGE
   * when some line of it does not fit the reader's buffer.
   */
  lemma WrittenIsReadOrRefused(m: Meta, want: Want, dst: Option<nat>)
    ensures var r := WalkFrom(JoinLines(MetaLines(m)), want, START, dst);
      r == OverLines(MetaLines(m), want, START, dst) || (r == M.Looked(E_RANGE, []) && !AllFit(MetaLines(m)))
  {
    hide WalkFrom, JoinLines, MetaLines, AllWhole, AllFit;
    MetaIsWhole(m);
    RightOrRefused(MetaLines(m), want, START, dst);
  }

  function Emitted(answer: Option<Text>, dst: Option<nat>): M.Looked {
    if answer.None? then M.Looked(E_NOT_FOUND, []) else M.EmitTo(answer.value, dst)
  }

  /** Every lookup answers this, or refuses because a line is too long. */
  ghost predicate Returns(m: Meta, want: Want, answer: Option<Text>) {
    forall dst ::
      var r := WalkFrom(JoinLines(MetaLines(m)), want, START, dst);
      r == Emitted(answer, dst) || (r == M.Looked(E_RANGE, []) && !AllFit(MetaLines(m)))
  }

  lemma ReturnsWhat(m: Meta, want: Want, answer: Option<Text>)
    requires forall dst :: OverLines(MetaLines(m), want, START, dst) == Emitted(answer, dst)
    ensures Returns(m, want, answer)
  {
    hide OverLines, MetaLines, WalkFrom, JoinLines, AllFit;
    forall dst ensures
      var r := WalkFrom(JoinLines(MetaLines(m)), want, START, dst);
      r == OverLines(MetaLines(m), want, START, dst) || (r == M.Looked(E_RANGE, []) && !AllFit(MetaLines(m)))
    {
      WrittenIsReadOrRefused(m, want, dst);
    }
  }

  lemma FieldReadsBack(m: Meta, i: nat, key: Text, value: Text)
    requires !HasOddControl(value)
    requires var ps := Before(m) + After(m);
      i < |ps| && ps[i] == Top(key, Scalar(value)) && forall k :: 0 <= k < i ==> ps[k].key != key
    ensures Returns(m, Key(key), Some(value))
  {
    hide OverLines, MetaLines, Before, After, Scalar, ReadScalar, Lookup, Returns;
    LookupAt(Before(m) + After(m), i);
    ScalarRoundTrip(value);
    forall dst ensures OverLines(MetaLines(m), Key(key), START, dst) == M.EmitTo(value, dst) {
      KeysReadBack(m, key, dst);
    }
    ReturnsWhat(m, Key(key), Some(value));
  }

  /** The C reader returns every scalar and every author name the C++ writer wrote. */
  lemma MetadataRoundTrip(m: Meta)
    requires Clean(m)
    ensures Returns(m, Key(TITLE), Some(m.title)) && Returns(m, Key(VERSION), Some(m.version))
    ensures Returns(m, Key(CREATED), Some(m.createdAt)) && Returns(m, Key(LANGUAGE), Some(m.language))
    ensures Returns(m, Key(CLASSIFICATION), Some(m.classification)) && Returns(m, Key(GENERATED), m.generatedBy)
    ensures forall i :: 0 <= i < |m.authors| ==> Returns(m, NthAuthor(i), Some(m.authors[i].name))
    ensures forall i: nat :: i >= |m.authors| ==> Returns(m, NthAuthor(i), None)
  {
    hide OverLines, MetaLines, Scalar, ReadScalar, Returns, M.Ascii, HasOddControl;
    KeysDiffer();
    FieldReadsBack(m, 0, TITLE, m.title);
    FieldReadsBack(m, 1, VERSION, m.version);
    FieldReadsBack(m, 3, CREATED, m.createdAt);
    FieldReadsBack(m, 4, CLASSIFICATION, m.classification);
    FieldReadsBack(m, 5, LANGUAGE, m.language);
    if m.generatedBy.Some? {
      FieldReadsBack(m, 6, GENERATED, m.generatedBy.value);
    } else {
      NotWritten(m);
      forall dst ensures OverLines(MetaLines(m), Key(GENERATED), START, dst) == M.Looked(E_NOT_FOUND, []) {
        KeysReadBack(m, GENERATED, dst);
      }
      ReturnsWhat(m, Key(GENERATED), None);
    }
    forall i: nat ensures Returns(m, NthAuthor(i), if i < |m.authors| then Some(m.authors[i].name) else None) {
      AuthorReturns(m, i);
    }
  }

  lemma AuthorReturns(m: Meta, i: nat)
    requires Clean(m)
    ensures Returns(m, NthAuthor(i), if i < |m.authors| then Some(m.authors[i].name) else None)
  {
    hide OverLines, MetaLines, Scalar, ReadScalar, Returns, M.Ascii, HasOddControl;
    var answer := if i < |m.authors| then Some(m.authors[i].name) else None;
    if i < |m.authors| { ScalarRoundTrip(m.authors[i].name); }
    forall dst ensures OverLines(MetaLines(m), NthAuthor(i), START, dst) == Emitted(answer, dst) {
      AuthorsReadBack(m, i, dst);
    }
    ReturnsWhat(m, NthAuthor(i), answer);
  }

  lemma NotWritten(m: Meta)
    requires m.generatedBy.None?
    ensures Lookup(Before(m) + After(m), GENERATED) == None
  {
    hide Scalar, M.Ascii;
    KeysDiffer();
    LookupMissing(Before(m) + After(m), GENERATED);
  }

  lemma {:induction false} LookupMissing(ps: seq<Top>, key: Text)
    requires forall i :: 0 <= i < |ps| ==> ps[i].key != key
    ensures Lookup(ps, key) == None
  {
    if ps != [] { LookupMissing(ps[1..], key); }
  }

  // ------------------------------------------------------------ the code

  lemma JoinConcat(a: seq<Text>, b: seq<Text>)
    ensures JoinLines(a + b) == JoinLines(a) + JoinLines(b)
  {
    if a == [] {
      assert a + b == b && JoinLines(a) + JoinLines(b) == JoinLines(b);
    } else {
      assert (a + b)[1..] == a[1..] + b;
      JoinConcat(a[1..], b);
    }
  }

  lemma JoinOne(l: Text)
    ensures JoinLines([l]) == l + [LF]
  {
    assert [l][1..] == [];
  }

  /** One `key: value` line. */
  method WritePair(key: Text, s: Text) returns (out: Text)
    ensures out == JoinLines(TopLines([Top(key, Scalar(s))]))
  {
    hide Scalar, Snug;
    var v := WriteScalar(s);
    out := key + [COLON, SPACE] + v + [LF];
    ScalarIsSnug(s);
    NotEmpty(v);
    var p := Top(key, v);
    assert [p][1..] == [];
    assert TopLines([p]) == [Entry(key, v)];
    JoinOne(Entry(key, v));
  }

  lemma NotEmpty(v: Text)
    requires Snug(v)
    ensures v != []
  {
  }

  /** The author block of `metadata_to_yaml`. */
  method WriteAuthors(authors: seq<Author>) returns (out: Text)
    ensures out == JoinLines(AuthorLines(authors))
  {
    hide Scalar, AuthorLines, JoinLines, M.Ascii;
    out := [];
    assert authors[..0] == [];
    NoAuthors();
    for i := 0 to |authors|
      invariant out == JoinLines(AuthorLines(authors[..i]))
    {
      var name := WriteScalar(authors[i].name);
      var id := WriteScalar(authors[i].id);
      AuthorLinesSnoc(authors[..i], authors[i]);
      assert authors[..i + 1] == authors[..i] + [authors[i]];
      TwoWritten(AuthorLines(authors[..i]), name, id);
      out := out + ([SPACE, SPACE, DASH, SPACE] + NAME + [COLON, SPACE] + name + [LF])
        + ([SPACE, SPACE, SPACE, SPACE] + ID + [COLON, SPACE] + id + [LF]);
    }
    assert authors[..|authors|] == authors;
  }

  lemma NoAuthors()
    ensures JoinLines(AuthorLines([])) == []
  {
  }

  lemma {:induction false} AuthorLinesSnoc(authors: seq<Author>, a: Author)
    ensures AuthorLines(authors + [a]) == AuthorLines(authors)
      + [ItemLine(Entry(NAME, Scalar(a.name))), InnerLine(Entry(ID, Scalar(a.id)))]
    ensures Scalar(a.name) != [] && Scalar(a.id) != []
  {
    hide Entry, ItemLine, InnerLine, M.Ascii;
    ScalarIsSnug(a.name);
    ScalarIsSnug(a.id);
    hide Scalar;
    if authors == [] {
      assert [a][1..] == [] && authors + [a] == [a];
    } else {
      assert (authors + [a])[1..] == authors[1..] + [a];
      AuthorLinesSnoc(authors[1..], a);
    }
  }

  lemma TwoWritten(before: seq<Text>, name: Text, id: Text)
    requires name != [] && id != []
    ensures JoinLines(before + [ItemLine(Entry(NAME, name)), InnerLine(Entry(ID, id))]) ==
      JoinLines(before) + ([SPACE, SPACE, DASH, SPACE] + NAME + [COLON, SPACE] + name + [LF])
        + ([SPACE, SPACE, SPACE, SPACE] + ID + [COLON, SPACE] + id + [LF])
  {
    hide JoinLines, M.Ascii;
    var l1, l2 := ItemLine(Entry(NAME, name)), InnerLine(Entry(ID, id));
    JoinConcat(before, [l1, l2]);
    assert [l1, l2] == [l1] + [l2];
    JoinConcat([l1], [l2]);
    JoinOne(l1);
    JoinOne(l2);
  }

  lemma OneBlock(u: Text, c: Text, d: Text, e: Text, g: Text)
    ensures u + c + d + e + g == u + (c + d + e + g)
    ensures u + c + d + e == u + c + d + e + []
  {
  }

  /** `metadata_to_yaml`. */
  method WriteMetadata(m: Meta) returns (out: Text)
    ensures out == JoinLines(MetaLines(m))
  {
    hide Scalar, AuthorLines, TopLines, JoinLines, M.Ascii;
    var a := WritePair(TITLE, m.title);
    var b := WritePair(VERSION, m.version);
    out := a + b;
    WrittenBefore(m);
    if m.authors == [] {
      out := out + AUTHORS + [COLON, SPACE, LBRACKET, RBRACKET, LF];
      NoAuthors();
    } else {
      out := out + AUTHORS + [COLON, LF];
      var block := WriteAuthors(m.authors);
      out := out + block;
    }
    ghost var upTo, g := out, [];
    var c := WritePair(CREATED, m.createdAt);
    var d := WritePair(CLASSIFICATION, m.classification);
    var e := WritePair(LANGUAGE, m.language);
    out := out + c + d + e;
    if m.generatedBy.Some? {
      var made := WritePair(GENERATED, m.generatedBy.value);
      g := made;
      out := out + made;
    }
    WrittenAfter(m);
    OneBlock(upTo, c, d, e, g);
    JoinConcat(AuthorLines(m.authors), TopLines(After(m)));
    JoinConcat(TopLines(Before(m)), AuthorLines(m.authors) + TopLines(After(m)));
  }

  lemma TopLinesConcat(a: seq<Top>, b: seq<Top>)
    ensures TopLines(a + b) == TopLines(a) + TopLines(b)
  {
    if a == [] {
      assert a + b == b;
    } else {
      assert (a + b)[1..] == a[1..] + b;
      TopLinesConcat(a[1..], b);
    }
  }

  lemma TopConcat(a: seq<Top>, b: seq<Top>)
    ensures JoinLines(TopLines(a + b)) == JoinLines(TopLines(a)) + JoinLines(TopLines(b))
  {
    hide JoinLines, TopLines;
    TopLinesConcat(a, b);
    JoinConcat(TopLines(a), TopLines(b));
  }

  lemma WrittenBefore(m: Meta)
    ensures JoinLines(TopLines(Before(m))) ==
      JoinLines(TopLines([Top(TITLE, Scalar(m.title))])) + JoinLines(TopLines([Top(VERSION, Scalar(m.version))]))
      + AUTHORS + (if m.authors == [] then [COLON, SPACE, LBRACKET, RBRACKET, LF] else [COLON, LF])
  {
    hide Scalar, JoinLines, TopLines, M.Ascii;
    var t, v := Top(TITLE, Scalar(m.title)), Top(VERSION, Scalar(m.version));
    var a := Top(AUTHORS, if m.authors == [] then NOTHING else []);
    assert Before(m) == ([t] + [v]) + [a];
    TopConcat([t] + [v], [a]);
    TopConcat([t], [v]);
    BareLine(a);
    WrittenNames();
    NothingIs();
  }

  lemma NothingIs()
    ensures NOTHING == [LBRACKET, RBRACKET]
  {
  }

  lemma BareLine(p: Top)
    ensures JoinLines(TopLines([p])) == Entry(p.key, p.value) + [LF]
  {
    assert [p][1..] == [] && TopLines([p]) == [Entry(p.key, p.value)];
    JoinOne(Entry(p.key, p.value));
  }

  lemma WrittenAfter(m: Meta)
    ensures JoinLines(TopLines(After(m))) ==
      JoinLines(TopLines([Top(CREATED, Scalar(m.createdAt))]))
      + JoinLines(TopLines([Top(CLASSIFICATION, Scalar(m.classification))]))
      + JoinLines(TopLines([Top(LANGUAGE, Scalar(m.language))]))
      + match m.generatedBy case None => [] case Some(g) => JoinLines(TopLines([Top(GENERATED, Scalar(g))]))
  {
    hide Scalar, JoinLines, TopLines, M.Ascii;
    var c, d, e := Top(CREATED, Scalar(m.createdAt)), Top(CLASSIFICATION, Scalar(m.classification)), Top(LANGUAGE, Scalar(m.language));
    TopConcat([c], [d]);
    TopConcat([c] + [d], [e]);
    assert [c, d, e] == ([c] + [d]) + [e];
    if m.generatedBy.Some? {
      TopConcat([c, d, e], [Top(GENERATED, Scalar(m.generatedBy.value))]);
    } else {
      assert After(m) == [c, d, e];
    }
  }

  /** One line of `mm_meta_walk`. */
  method DoLine(line: array<byte>, len: nat, want: Want, st: State) returns (done: bool, next: State, value: Text)
    requires len <= line.Length
    modifies line
    ensures match LineStep(old(line[..len]), want, st)
      case Go(n) => !done && next == n
      case Take(v) => done && value == v
  {
    hide SplitLine, ReadScalar, TrimLeft, Trim, U.Field, M.Ascii;
    var indent := IndentOf(line, len);
    ghost var body := TrimLeft(line[..len]);
    var idle := IsIdle(line, indent, len - indent);
    done, next, value := false, st, [];
    if idle {
      return;
    }
    if indent == 0 {
      done, next, value := DoTop(line, len, want, st);
      return;
    }
    if !st.inAuthors || want.Key? {
      return;
    }
    done, next, value := DoItem(line, indent, len - indent, want.index, st);
  }

  method DoTop(line: array<byte>, len: nat, want: Want, st: State) returns (done: bool, next: State, value: Text)
    requires len <= line.Length
    modifies line
    ensures match TopStep(old(line[0..len]), want, st)
      case Go(n) => !done && next == n
      case Take(v) => done && value == v
  {
    hide SplitLine, ReadScalar, U.Field, M.Ascii;
    done, next, value := false, State(false, st.seen), [];
    var found, key, keyLen, val, valLen := SplitRange(line, 0, len);
    if !found {
      return;
    }
    if want.NthAuthor? {
      var same := KeyIs(line, key, keyLen, AUTHORS);
      next := State(same && valLen == 0, st.seen);
      return;
    }
    var hit := KeyIs(line, key, keyLen, want.key);
    if hit {
      var n := ResolveScalar(line, val, valLen);
      done, value := true, line[val..val + n];
    }
  }

  method DoItem(line: array<byte>, at: nat, len: nat, index: nat, st: State) returns (done: bool, next: State, value: Text)
    requires at + len <= line.Length && len > 0
    modifies line
    ensures match ItemStep(old(line[at..at + len]), index, st)
      case Go(n) => !done && next == n
      case Take(v) => done && value == v
  {
    hide SplitLine, ReadScalar, Trim, U.Field, M.Ascii;
    var body, size, dashed := at, len, line[at] == DASH;
    done, next, value := false, State(true, st.seen), [];
    if dashed {
      next := State(true, st.seen + 1);
      body, size := AfterDash(line, at, len);
      if size == 0 {
        return;
      }
    }
    if next.seen == 0 {
      return;
    }
    var found, key, keyLen, val, valLen := SplitRange(line, body, size);
    if found {
      var isName := KeyIs(line, key, keyLen, NAME);
      if isName && next.seen - 1 == index {
        var n := ResolveScalar(line, val, valLen);
        done, value := true, line[val..val + n];
      }
    } else if dashed && next.seen - 1 == index {
      var n := ResolveScalar(line, body, size);
      done, value := true, line[body..body + n];
    }
  }

  /** The line loop of `mm_meta_walk`. */
  method WalkLines(c: Cursor, want: Want, dst: Option<nat>) returns (r: M.Looked)
    requires c.Valid()
    modifies c, c.buf
    ensures r == WalkFrom(old(c.Rest()), want, START, dst)
  {
    hide LineStep, NextLine, Cursor.Valid, Cursor.Rest;
    var line := new byte[M.LINE_MAX];
    var st := START;
    ghost var t := c.Rest();
    while true
      invariant c.Valid() && WalkFrom(c.Rest(), want, st, dst) == WalkFrom(t, want, START, dst)
      decreases |c.Rest()|
    {
      var status, len, cut := ReadLine(c, line);
      if status == E_NOT_FOUND {
        return M.Looked(E_NOT_FOUND, []);
      }
      if cut {
        return M.Looked(E_RANGE, []);
      }
      var done, next, value := DoLine(line, len, want, st);
      if done {
        return M.EmitTo(value, dst);
      }
      st := next;
    }
  }

  /** `mcdf_micro_meta` and `mcdf_micro_meta_author`. */
  method ReadMeta(r: Reader, want: Want, dst: Option<nat>) returns (out: M.Looked)
    requires r.Valid()
    ensures out == match FirstWith(r.index, METADATA, 0)
      case None => M.Looked(E_NOT_FOUND, [])
      case Some(i) => WalkFrom(Contents(r.src, r.index)[i].data, want, START, dst)
  {
    hide WalkFrom, M.Ascii;
    var c := OpenCursor(r, METADATA);
    if c == null {
      return M.Looked(E_NOT_FOUND, []);
    }
    out := WalkLines(c, want, dst);
  }
}
