/**
 * schema.yaml: written by `schema_to_yaml` (src/serialize/writers.cpp), read back by
 * `mm_schema_walk` (micro/src/schema.c).
 */
module Schema {
  import opened Bytes
  import opened Json
  import opened Layout
  import opened Index
  import opened Ustar
  import opened Yaml
  import opened YamlCode
  import D = Metadata
  import U = UstarFormat
  import M = Manifest

  const ID_MAX: nat := 128
  const TYPE := M.Ascii("document_type")
  const SECTIONS := M.Ascii("sections")
  const REQUIRED := M.Ascii("required")
  const YES := M.Ascii("true")
  const NO := M.Ascii("false")

  datatype Section = Section(id: Text, title: Text, required: bool)

  datatype Document = Document(documentType: Text, sections: seq<Section>)

  // ------------------------------------------------------------ what is written

  ghost function IdLine(s: Section): Text { ItemLine(Entry(D.ID, Scalar(s.id))) }
  ghost function TitleLine(s: Section): Text { InnerLine(Entry(D.TITLE, Scalar(s.title))) }
  ghost function RequiredLine(s: Section): Text { InnerLine(Entry(REQUIRED, if s.required then YES else NO)) }

  ghost function SectionLines(ss: seq<Section>): seq<Text> {
    if ss == [] then []
    else [IdLine(ss[0])] + ([TitleLine(ss[0])] + ([RequiredLine(ss[0])] + SectionLines(ss[1..])))
  }

  ghost function TypeLines(d: Document): seq<Text> {
    if d.documentType == [] then [] else [Entry(TYPE, Scalar(d.documentType))]
  }

  /** The lines of schema.yaml. */
  ghost function SchemaLines(d: Document): seq<Text> {
    TypeLines(d) +
    ([Entry(SECTIONS, if d.sections == [] then D.NOTHING else [])] + SectionLines(d.sections))
  }

  // ------------------------------------------------------------ the walk

  datatype Want = Count | At(index: nat)

  /** What the walk knows of the section it is in. */
  datatype State = State(inSections: bool, seen: nat, id: Text, required: bool)

  datatype Answer = Answer(status: Status, count: nat, id: Text, required: bool)

  datatype Step = Go(next: State) | Stop | Close | Refuse

  const START := State(false, 0, [], false)
  const REFUSED := Answer(E_RANGE, 0, [], false)
  const TRUTHS: seq<Text> := [YES, M.Ascii("yes"), M.Ascii("on"), M.Ascii("y"), M.Ascii("1")]

  ghost predicate Truthy(v: Text) {
    Lower(v) in TRUTHS
  }

  ghost function LineStep(line: Text, want: Want, st: State): Step {
    var body := TrimLeft(line);
    if body == [] || body[0] == HASH || DASHES <= body then Go(st)
    else if |body| == |line| then TopStep(body, st)
    else if !st.inSections then Go(st)
    else if body[0] != DASH then FieldStep(body, st)
    else if Here(want, st) then Close
    else
      var item := Trim(body[1..]);
      var next := State(true, st.seen + 1, [], false);
      if item == [] then Go(next) else FieldStep(item, next)
  }

  /** The wanted section is the one just read. */
  predicate Here(want: Want, st: State) {
    want.At? && st.seen > 0 && st.seen - 1 == want.index
  }

  ghost function TopStep(body: Text, st: State): Step {
    var kv := SplitLine(body, 0);
    if st.inSections then Stop
    else if kv.None? then Go(st)
    else Go(st.(inSections := U.Field(kv.value.0) == SECTIONS && kv.value.1 == []))
  }

  ghost function FieldStep(item: Text, st: State): Step {
    var kv := SplitLine(item, 0);
    if st.seen == 0 || kv.None? then Go(st)
    else
      var key, v := U.Field(kv.value.0), ReadScalar(kv.value.1);
      if key == D.ID then if |v| + 1 > ID_MAX then Refuse else Go(st.(id := v))
      else if key == REQUIRED then Go(st.(required := Truthy(v)))
      else Go(st)
  }

  /** The section is complete: emit it. */
  function Emitted(st: State, dst: Option<nat>): Answer {
    var e := M.EmitTo(st.id, dst);
    Answer(e.status, 0, e.value, st.required)
  }

  /** What the walk answers when there are no more lines to read. */
  function Finish(want: Want, st: State, dst: Option<nat>): Answer {
    if Here(want, st) then Emitted(st, dst)
    else if want.Count? then Answer(OK, st.seen, [], false)
    else Answer(E_NOT_FOUND, 0, [], false)
  }

  /** `mm_schema_walk` over what is left of the member. */
  ghost function WalkFrom(t: Text, want: Want, st: State, dst: Option<nat>): Answer
    decreases |t|
  {
    if t == [] then Finish(want, st, dst)
    else
      var l := NextLine(t);
      if l.cut then REFUSED
      else match LineStep(l.text, want, st)
        case Go(next) => WalkFrom(l.rest, want, next, dst)
        case Stop => Finish(want, st, dst)
        case Close => Emitted(st, dst)
        case Refuse => REFUSED
  }

  /** The walk over a list of lines, none of them too long for the buffer. */
  ghost function OverLines(ls: seq<Text>, want: Want, st: State, dst: Option<nat>): Answer {
    if ls == [] then Finish(want, st, dst)
    else match LineStep(ls[0], want, st)
      case Go(next) => OverLines(ls[1..], want, next, dst)
      case Stop => Finish(want, st, dst)
      case Close => Emitted(st, dst)
      case Refuse => REFUSED
  }

  /** Right or refused. */
  lemma {:induction false} RightOrRefused(ls: seq<Text>, want: Want, st: State, dst: Option<nat>)
    requires AllWhole(ls)
    ensures var r := WalkFrom(JoinLines(ls), want, st, dst);
      r == OverLines(ls, want, st, dst) || (r == REFUSED && !AllFit(ls))
    decreases |ls|
  {
    hide LineStep, NextLine, Whole, JoinLines;
    if ls != [] {
      var l, more := ls[0], ls[1..];
      assert [l] + more == ls;
      if |l| < M.LINE_MAX {
        NextWrittenLine(l, more);
        var step := LineStep(l, want, st);
        if step.Go? { RightOrRefused(more, want, step.next, dst); }
      } else {
        NextLongLine(l, more);
      }
    } else {
      NothingLeft(want, st, dst);
    }
  }

  lemma NothingLeft(want: Want, st: State, dst: Option<nat>)
    ensures WalkFrom(JoinLines([]), want, st, dst) == Finish(want, st, dst)
  {
  }

  // ------------------------------------------------------------ reading back what was written

  /** What the reader makes of a written scalar. */
  ghost function Shown(s: Text): Text {
    ReadScalar(Scalar(s))
  }

  /** The walk over the written sections, one section at a time. */
  ghost function Expected(ss: seq<Section>, want: Want, st: State, dst: Option<nat>): Answer {
    if ss == [] then Finish(want, st, dst)
    else if Here(want, st) then Emitted(st, dst)
    else if |Shown(ss[0].id)| + 1 > ID_MAX then REFUSED
    else Expected(ss[1..], want, State(true, st.seen + 1, Shown(ss[0].id), ss[0].required), dst)
  }

  lemma StepGo(l: Text, ls: seq<Text>, want: Want, st: State, dst: Option<nat>)
    ensures OverLines([l] + ls, want, st, dst) ==
      match LineStep(l, want, st)
      case Go(next) => OverLines(ls, want, next, dst)
      case Stop => Finish(want, st, dst)
      case Close => Emitted(st, dst)
      case Refuse => REFUSED
  {
    hide LineStep;
    assert ([l] + ls)[1..] == ls;
  }

  lemma Names()
    ensures KeyName(TYPE) && KeyName(SECTIONS) && KeyName(REQUIRED) && KeyName(D.ID) && KeyName(D.TITLE)
    ensures REQUIRED != D.ID && REQUIRED != D.TITLE && D.TITLE != D.ID && TYPE != SECTIONS
  {
  }

  lemma Booleans()
    ensures Snug(YES) && Snug(NO) && ReadScalar(YES) == YES && ReadScalar(NO) == NO
    ensures Truthy(YES) && !Truthy(NO)
  {
    NoComment(YES, 0);
    NoComment(NO, 0);
    assert YES[..|YES|] == YES && NO[..|NO|] == NO;
    assert Lower(YES) == YES && TRUTHS[0] == YES;
    assert Lower(NO) == NO && NO[0] == 0x66;
    assert forall i :: 0 <= i < |TRUTHS| ==> TRUTHS[i][0] != 0x66;
  }

  lemma IdLineStep(s: Section, want: Want, st: State)
    requires st.inSections
    ensures LineStep(IdLine(s), want, st) ==
      if Here(want, st) then Close
      else if |Shown(s.id)| + 1 > ID_MAX then Refuse
      else Go(State(true, st.seen + 1, Shown(s.id), false))
  {
    var e := Entry(D.ID, Scalar(s.id));
    Names();
    ScalarIsSnug(s.id);
    D.ItemEntry(D.ID, Scalar(s.id));
    ItemShape(e);
    assert !(DASHES <= [DASH, SPACE] + e) by { assert ([DASH, SPACE] + e)[1] == SPACE; }
    hide Entry, Scalar, SplitLine, Trim, TrimLeft, Snug, KeyName, U.Field, ReadScalar, M.Ascii, Truthy;
  }

  lemma TitleLineStep(s: Section, want: Want, st: State)
    requires st.inSections && st.seen > 0
    ensures LineStep(TitleLine(s), want, st) == Go(st)
  {
    var e := Entry(D.TITLE, Scalar(s.title));
    Names();
    ScalarIsSnug(s.title);
    D.ItemEntry(D.TITLE, Scalar(s.title));
    InnerShape(e);
    assert !(DASHES <= e);
    hide Entry, Scalar, SplitLine, Trim, TrimLeft, Snug, KeyName, U.Field, ReadScalar, M.Ascii, Truthy;
  }

  lemma RequiredLineStep(s: Section, want: Want, st: State)
    requires st.inSections && st.seen > 0
    ensures LineStep(RequiredLine(s), want, st) == Go(st.(required := s.required))
  {
    var v := if s.required then YES else NO;
    var e := Entry(REQUIRED, v);
    Names();
    Booleans();
    D.ItemEntry(REQUIRED, v);
    InnerShape(e);
    assert !(DASHES <= e);
    hide Entry, Scalar, SplitLine, Trim, TrimLeft, Snug, KeyName, U.Field, ReadScalar, M.Ascii, Truthy;
  }

  lemma {:induction false} SectionsWalked(ss: seq<Section>, want: Want, st: State, dst: Option<nat>)
    requires st.inSections
    ensures OverLines(SectionLines(ss), want, st, dst) == Expected(ss, want, st, dst)
    decreases |ss|
  {
    hide LineStep, OverLines, Shown, IdLine, TitleLine, RequiredLine;
    if ss == [] {
      NoLines(want, st, dst);
    } else {
      var s, more := ss[0], SectionLines(ss[1..]);
      IdLineStep(s, want, st);
      StepGo(IdLine(s), [TitleLine(s)] + ([RequiredLine(s)] + more), want, st, dst);
      if !Here(want, st) && |Shown(s.id)| + 1 <= ID_MAX {
        var a := State(true, st.seen + 1, Shown(s.id), false);
        TitleLineStep(s, want, a);
        StepGo(TitleLine(s), [RequiredLine(s)] + more, want, a, dst);
        RequiredLineStep(s, want, a);
        StepGo(RequiredLine(s), more, want, a, dst);
        SectionsWalked(ss[1..], want, a.(required := s.required), dst);
      }
    }
  }

  lemma NoLines(want: Want, st: State, dst: Option<nat>)
    ensures OverLines([], want, st, dst) == Finish(want, st, dst)
  {
  }

  lemma TopLineStep(k: Text, v: Text, want: Want, st: State)
    requires KeyName(k) && (v == [] || Snug(v)) && !st.inSections
    ensures LineStep(Entry(k, v), want, st) == Go(st.(inSections := k == SECTIONS && v == []))
  {
    TopShape(k, v);
    EntrySplits(k, v);
    hide Entry, Scalar, SplitLine, Trim, TrimLeft, Snug, KeyName, U.Field, ReadScalar, M.Ascii, Truthy;
    assert !(DASHES <= Entry(k, v));
  }

  /** The whole document is walked as its list of sections. */
  lemma DocumentWalked(d: Document, want: Want, dst: Option<nat>)
    ensures OverLines(SchemaLines(d), want, START, dst) == Expected(d.sections, want, START.(inSections := d.sections != []), dst)
  {
    hide LineStep, OverLines, Entry, Scalar, Expected, M.Ascii, Snug, KeyName, SectionLines;
    Names();
    D.WrittenNames();
    var v := if d.sections == [] then D.NOTHING else [];
    var more := [Entry(SECTIONS, v)] + SectionLines(d.sections);
    if d.documentType == [] {
      assert TypeLines(d) + more == more;
    } else {
      ScalarIsSnug(d.documentType);
      TopLineStep(TYPE, Scalar(d.documentType), want, START);
      StepGo(Entry(TYPE, Scalar(d.documentType)), more, want, START, dst);
    }
    TopLineStep(SECTIONS, v, want, START);
    StepGo(Entry(SECTIONS, v), SectionLines(d.sections), want, START, dst);
    if d.sections != [] {
      SectionsWalked(d.sections, want, START.(inSections := true), dst);
    } else {
      NoSections(want, dst);
    }
  }

  lemma NoSections(want: Want, dst: Option<nat>)
    ensures OverLines(SectionLines([]), want, START, dst) == Expected([], want, START, dst)
  {
  }

  // ------------------------------------------------------------ in terms of the sections

  ghost predicate IdsFit(ss: seq<Section>) {
    forall i :: 0 <= i < |ss| ==> |Shown(ss[i].id)| < 128
  }

  lemma {:induction false} ExpectedCount(ss: seq<Section>, st: State, dst: Option<nat>)
    ensures Expected(ss, Count, st, dst) == if IdsFit(ss) then Answer(OK, st.seen + |ss|, [], false) else REFUSED
    decreases |ss|
  {
    hide Shown;
    if ss != [] {
      ExpectedCount(ss[1..], State(true, st.seen + 1, Shown(ss[0].id), ss[0].required), dst);
      assert IdsFit(ss) <==> |Shown(ss[0].id)| < ID_MAX && IdsFit(ss[1..]) by { FitsHead(ss); }
    }
  }

  lemma FitsHead(ss: seq<Section>)
    requires ss != []
    ensures IdsFit(ss) <==> |Shown(ss[0].id)| < 128 && IdsFit(ss[1..])
  {
    hide Shown;
    if |Shown(ss[0].id)| < ID_MAX && IdsFit(ss[1..]) {
      forall i | 0 <= i < |ss| ensures |Shown(ss[i].id)| < ID_MAX { if i > 0 { assert ss[i] == ss[1..][i - 1]; } }
    }
  }

  /** The section with an index, once every id up to it fits the id buffer. */
  lemma {:induction false} ExpectedAt(ss: seq<Section>, index: nat, st: State, dst: Option<nat>)
    requires st.seen <= index
    ensures index - st.seen < |ss| && IdsFit(ss[..index - st.seen + 1]) ==>
      Expected(ss, At(index), st, dst) ==
        Emitted(State(true, 0, Shown(ss[index - st.seen].id), ss[index - st.seen].required), dst)
    ensures index - st.seen < |ss| && !IdsFit(ss[..index - st.seen + 1]) ==> Expected(ss, At(index), st, dst) == REFUSED
    ensures index - st.seen >= |ss| && IdsFit(ss) ==> Expected(ss, At(index), st, dst) == Answer(E_NOT_FOUND, 0, [], false)
    decreases |ss|
  {
    hide Shown;
    if ss != [] {
      var s := ss[0];
      var next := State(true, st.seen + 1, Shown(s.id), s.required);
      var k := index - st.seen;
      if k < |ss| {
        FitsHead(ss[..k + 1]);
        assert ss[..k + 1][1..] == ss[1..][..k];
      }
      FitsHead(ss);
      if k > 0 {
        ExpectedAt(ss[1..], index, next, dst);
      } else if |Shown(s.id)| < ID_MAX {
        assert IdsFit(ss[1..][..0]);
        HereAtOnce(ss[1..], index, next, dst);
      }
    }
  }

  lemma HereAtOnce(ss: seq<Section>, index: nat, st: State, dst: Option<nat>)
    requires Here(At(index), st)
    ensures Expected(ss, At(index), st, dst) == Emitted(st, dst)
  {
  }

  /** What the reader answers: this, or a refusal because a line is too long for its buffer. */
  ghost predicate Returns(d: Document, want: Want, dst: Option<nat>, answer: Answer) {
    var r := WalkFrom(JoinLines(SchemaLines(d)), want, START, dst);
    r == answer || (r == REFUSED && !AllFit(SchemaLines(d)))
  }

  /**
   * The C reader finds in a written schema the number of its sections, and every section's id and
   * required flag by index, as long as the ids fit its buffer.
   */
  lemma SchemaRoundTrip(d: Document, dst: Option<nat>)
    requires forall i :: 0 <= i < |d.sections| ==> !HasOddControl(d.sections[i].id) && |d.sections[i].id| < 128
    ensures Returns(d, Count, dst, Answer(OK, |d.sections|, [], false))
    ensures forall i :: 0 <= i < |d.sections| ==>
      Returns(d, At(i), dst, Emitted(State(true, 0, d.sections[i].id, d.sections[i].required), dst))
    ensures forall i: nat :: i >= |d.sections| ==> Returns(d, At(i), dst, Answer(E_NOT_FOUND, 0, [], false))
  {
    hide Expected, Returns, Emitted, HasOddControl, Shown;
    ShownIds(d);
    var ss, st := d.sections, START.(inSections := d.sections != []);
    ExpectedCount(ss, st, dst);
    ReturnsExpected(d, Count, dst);
    forall i | 0 <= i < |ss|
      ensures Returns(d, At(i), dst, Emitted(State(true, 0, ss[i].id, ss[i].required), dst))
    {
      ExpectedAt(ss, i, st, dst);
      assert IdsFit(ss[..i + 1]);
      ReturnsExpected(d, At(i), dst);
    }
    forall i: nat | i >= |ss| ensures Returns(d, At(i), dst, Answer(E_NOT_FOUND, 0, [], false)) {
      ExpectedAt(ss, i, st, dst);
      ReturnsExpected(d, At(i), dst);
    }
  }

  lemma ShownIds(d: Document)
    requires forall i :: 0 <= i < |d.sections| ==> !HasOddControl(d.sections[i].id) && |d.sections[i].id| < 128
    ensures IdsFit(d.sections) && forall i :: 0 <= i < |d.sections| ==> Shown(d.sections[i].id) == d.sections[i].id
  {
    hide HasOddControl, Scalar, ReadScalar;
    forall i | 0 <= i < |d.sections| ensures Shown(d.sections[i].id) == d.sections[i].id {
      ScalarRoundTrip(d.sections[i].id);
    }
  }

  lemma ReturnsExpected(d: Document, want: Want, dst: Option<nat>)
    ensures Returns(d, want, dst, Expected(d.sections, want, START.(inSections := d.sections != []), dst))
  {
    hide Expected, OverLines, WalkFrom, JoinLines, SchemaLines, AllWhole, AllFit;
    DocumentWalked(d, want, dst);
    SchemaIsWhole(d);
    RightOrRefused(SchemaLines(d), want, START, dst);
  }

  lemma {:induction false} SectionsAreWhole(ss: seq<Section>)
    ensures AllWhole(SectionLines(ss))
  {
    hide Whole, Entry, Scalar, M.Ascii, Snug, KeyName;
    if ss != [] {
      var s := ss[0];
      Names();
      Booleans();
      ScalarIsSnug(s.id);
      ScalarIsSnug(s.title);
      EntryIsSnug(D.ID, Scalar(s.id));
      EntryIsSnug(D.TITLE, Scalar(s.title));
      EntryIsSnug(REQUIRED, if s.required then YES else NO);
      hide ItemLine, InnerLine;
      D.IndentedIsWhole(Entry(D.ID, Scalar(s.id)));
      D.IndentedIsWhole(Entry(D.TITLE, Scalar(s.title)));
      D.IndentedIsWhole(Entry(REQUIRED, if s.required then YES else NO));
      SectionsAreWhole(ss[1..]);
      ThreeWhole(IdLine(s), TitleLine(s), RequiredLine(s), SectionLines(ss[1..]));
    }
  }

  lemma ThreeWhole(a: Text, b: Text, c: Text, more: seq<Text>)
    requires Whole(a) && Whole(b) && Whole(c) && AllWhole(more)
    ensures AllWhole([a] + ([b] + ([c] + more)))
  {
    hide Whole;
    assert ([c] + more)[1..] == more && ([b] + ([c] + more))[1..] == [c] + more;
    assert ([a] + ([b] + ([c] + more)))[1..] == [b] + ([c] + more);
    assert AllWhole([c] + more) && AllWhole([b] + ([c] + more));
  }

  lemma SchemaIsWhole(d: Document)
    ensures AllWhole(SchemaLines(d))
  {
    hide Whole, Entry, Scalar, M.Ascii, Snug, KeyName, SectionLines;
    Names();
    D.WrittenNames();
    var v := if d.sections == [] then D.NOTHING else [];
    TopShape(SECTIONS, v);
    D.WholeIs(Entry(SECTIONS, v));
    SectionsAreWhole(d.sections);
    if d.documentType != [] {
      ScalarIsSnug(d.documentType);
      TopShape(TYPE, Scalar(d.documentType));
      D.WholeIs(Entry(TYPE, Scalar(d.documentType)));
    }
    TypeWhole(TypeLines(d));
    TypeWhole([Entry(SECTIONS, v)]);
    AllWholeConcat([Entry(SECTIONS, v)], SectionLines(d.sections));
    AllWholeConcat(TypeLines(d), [Entry(SECTIONS, v)] + SectionLines(d.sections));
  }

  lemma TypeWhole(ls: seq<Text>)
    requires |ls| <= 1 && (ls != [] ==> Whole(ls[0]))
    ensures AllWhole(ls)
  {
    hide Whole;
    if ls != [] { assert ls[1..] == []; }
  }

  // ------------------------------------------------------------ the code

  /** `schema_to_yaml`. */
  method WriteSchema(d: Document) returns (out: Text)
    ensures out == JoinLines(SchemaLines(d))
  {
    hide Scalar, SectionLines, JoinLines, M.Ascii;
    out := [];
    if d.documentType != [] {
      var v := WriteScalar(d.documentType);
      ScalarIsSnug(d.documentType);
      out := TYPE + [COLON, SPACE] + v + [LF];
    }
    WrittenType(d);
    WrittenSections(d);
    NoSectionText();
    if d.sections == [] {
      out := out + (SECTIONS + [COLON, SPACE, LBRACKET, RBRACKET, LF]);
      return;
    }
    var list := WriteSections(d.sections);
    out := out + (SECTIONS + [COLON, LF]) + list;
  }

  /** The section loop of `schema_to_yaml`. */
  method WriteSections(ss: seq<Section>) returns (out: Text)
    ensures out == JoinLines(SectionLines(ss))
  {
    hide SectionLines, JoinLines;
    out := [];
    assert ss[..0] == [];
    NoSectionText();
    for i := 0 to |ss|
      invariant out == JoinLines(SectionLines(ss[..i]))
    {
      var one := WriteSection(ss[i]);
      SectionLinesSnoc(ss[..i], ss[i]);
      assert ss[..i + 1] == ss[..i] + [ss[i]];
      out := out + one;
    }
    assert ss[..|ss|] == ss;
  }

  lemma NoSectionText()
    ensures JoinLines(SectionLines([])) == []
  {
  }

  method WriteSection(s: Section) returns (out: Text)
    ensures out == JoinLines(SectionLines([s]))
  {
    hide Scalar, JoinLines, M.Ascii;
    var id := WriteScalar(s.id);
    var title := WriteScalar(s.title);
    ScalarIsSnug(s.id);
    ScalarIsSnug(s.title);
    var a := [SPACE, SPACE, DASH, SPACE] + D.ID + [COLON, SPACE] + id + [LF];
    var b := [SPACE, SPACE, SPACE, SPACE] + D.TITLE + [COLON, SPACE] + title + [LF];
    var c := [SPACE, SPACE, SPACE, SPACE] + REQUIRED + [COLON, SPACE] + (if s.required then YES else NO) + [LF];
    out := a + b + c;
    OneSection(s);
    assert a == IdLine(s) + [LF] && b == TitleLine(s) + [LF];
    assert c == RequiredLine(s) + [LF];
  }

  lemma OneSection(s: Section)
    ensures JoinLines(SectionLines([s])) == (IdLine(s) + [LF]) + (TitleLine(s) + [LF]) + (RequiredLine(s) + [LF])
  {
    hide IdLine, TitleLine, RequiredLine, JoinLines;
    assert [s][1..] == [];
    var a, b, c := IdLine(s), TitleLine(s), RequiredLine(s);
    assert SectionLines([s]) == [a] + ([b] + [c]);
    D.JoinConcat([a], [b] + [c]);
    D.JoinConcat([b], [c]);
    D.JoinOne(a);
    D.JoinOne(b);
    D.JoinOne(c);
  }

  lemma {:induction false} SectionLinesSnoc(ss: seq<Section>, s: Section)
    ensures JoinLines(SectionLines(ss + [s])) == JoinLines(SectionLines(ss)) + JoinLines(SectionLines([s]))
  {
    hide JoinLines, SectionLines;
    SectionConcat(ss, [s]);
    D.JoinConcat(SectionLines(ss), SectionLines([s]));
  }

  lemma {:induction false} SectionConcat(a: seq<Section>, b: seq<Section>)
    ensures SectionLines(a + b) == SectionLines(a) + SectionLines(b)
  {
    hide IdLine, TitleLine, RequiredLine;
    if a == [] {
      assert a + b == b;
    } else {
      assert (a + b)[1..] == a[1..] + b;
      SectionConcat(a[1..], b);
    }
  }

  lemma WrittenType(d: Document)
    ensures JoinLines(TypeLines(d)) ==
      if d.documentType == [] then [] else Entry(TYPE, Scalar(d.documentType)) + [LF]
  {
    hide Scalar, M.Ascii;
    if d.documentType != [] { D.JoinOne(Entry(TYPE, Scalar(d.documentType))); }
  }

  lemma WrittenSections(d: Document)
    ensures var v := if d.sections == [] then D.NOTHING else [];
      JoinLines(SchemaLines(d)) ==
        JoinLines(TypeLines(d)) + (SECTIONS + (if d.sections == [] then [COLON, SPACE, LBRACKET, RBRACKET, LF] else [COLON, LF]))
        + JoinLines(SectionLines(d.sections))
  {
    hide Scalar, M.Ascii, JoinLines, TypeLines, SectionLines;
    D.NothingIs();
    var e := Entry(SECTIONS, if d.sections == [] then D.NOTHING else []);
    D.JoinOne(e);
    D.JoinConcat([e], SectionLines(d.sections));
    D.JoinConcat(TypeLines(d), [e] + SectionLines(d.sections));
  }

  /** One word of `mm_yaml_true`, compared without case. */
  method IsWord(v: Text, w: Text) returns (same: bool)
    requires 0 !in w
    ensures same <==> Lower(v) == w
  {
    var i := 0;
    while i < |v| && i < |w|
      invariant i <= |v| && i <= |w| && forall k :: 0 <= k < i ==> LowerByte(v[k]) == w[k]
    {
      if LowerByte(v[i]) != w[i] {
        assert Lower(v)[i] != w[i];
        break;
      }
      i := i + 1;
    }
    same := i == |v| && i == |w|;
  }

  /** `mm_yaml_true`. */
  method IsTrue(v: Text) returns (r: bool)
    ensures r <==> Truthy(v)
  {
    assert forall i :: 0 <= i < |TRUTHS| ==> 0 !in TRUTHS[i];
    hide M.Ascii;
    for i := 0 to |TRUTHS|
      invariant forall k :: 0 <= k < i ==> TRUTHS[k] != Lower(v)
    {
      var same := IsWord(v, TRUTHS[i]);
      if same {
        return true;
      }
    }
    r := false;
  }

  /** One line of `mm_schema_walk`. */
  method DoLine(line: array<byte>, len: nat, want: Want, st: State) returns (step: Step)
    requires len <= line.Length
    modifies line
    ensures step == LineStep(old(line[..len]), want, st)
  {
    hide SplitLine, ReadScalar, TrimLeft, Trim, U.Field, M.Ascii, FieldStep;
    var indent := IndentOf(line, len);
    var idle := IsIdle(line, indent, len - indent);
    if idle {
      return Go(st);
    }
    if indent == 0 {
      step := DoTop(line, len, st);
      return;
    }
    if !st.inSections {
      return Go(st);
    }
    if line[indent] != DASH {
      step := DoField(line, indent, len - indent, st);
      return;
    }
    if Here(want, st) {
      return Close;
    }
    var next := State(true, st.seen + 1, [], false);
    var item, size := AfterDash(line, indent, len - indent);
    if size == 0 {
      return Go(next);
    }
    step := DoField(line, item, size, next);
  }

  method DoTop(line: array<byte>, len: nat, st: State) returns (step: Step)
    requires len <= line.Length
    ensures step == TopStep(line[0..len], st)
  {
    hide SplitLine, U.Field, M.Ascii;
    if st.inSections {
      return Stop;
    }
    var found, key, keyLen, val, valLen := SplitRange(line, 0, len);
    if !found {
      return Go(st);
    }
    var same := KeyIs(line, key, keyLen, SECTIONS);
    step := Go(st.(inSections := same && valLen == 0));
  }

  method DoField(line: array<byte>, at: nat, len: nat, st: State) returns (step: Step)
    requires at + len <= line.Length
    modifies line
    ensures step == FieldStep(old(line[at..at + len]), st)
  {
    hide SplitLine, ReadScalar, U.Field, M.Ascii, Truthy;
    if st.seen == 0 {
      return Go(st);
    }
    var found, key, keyLen, val, valLen := SplitRange(line, at, len);
    if !found {
      return Go(st);
    }
    var isId := KeyIs(line, key, keyLen, D.ID);
    var isRequired := KeyIs(line, key, keyLen, REQUIRED);
    var n := ResolveScalar(line, val, valLen);
    var v := line[val..val + n];
    if isId {
      step := if n + 1 > ID_MAX then Refuse else Go(st.(id := v));
    } else if isRequired {
      var t := IsTrue(v);
      step := Go(st.(required := t));
    } else {
      step := Go(st);
    }
  }

  /** The line loop of `mm_schema_walk`. */
  method WalkLines(c: Cursor, want: Want, dst: Option<nat>) returns (r: Answer)
    requires c.Valid()
    modifies c, c.buf
    ensures r == WalkFrom(old(c.Rest()), want, START, dst)
  {
    hide LineStep, NextLine, Emitted, Cursor.Valid, Cursor.Rest;
    var line := new byte[M.LINE_MAX];
    var st := START;
    ghost var t := c.Rest();
    while true
      invariant c.Valid() && WalkFrom(c.Rest(), want, st, dst) == WalkFrom(t, want, START, dst)
      decreases |c.Rest()|
    {
      var status, len, cut := ReadLine(c, line);
      if status == E_NOT_FOUND {
        return Finish(want, st, dst);
      }
      if cut {
        return REFUSED;
      }
      var step := DoLine(line, len, want, st);
      match step
      case Go(next) => st := next;
      case Stop => return Finish(want, st, dst);
      case Close => return Emitted(st, dst);
      case Refuse => return REFUSED;
    }
  }

  /** `mcdf_micro_schema_count` and `mcdf_micro_schema_at`. */
  method ReadSchema(r: Reader, want: Want, dst: Option<nat>) returns (out: Answer)
    requires r.Valid()
    ensures out == match FirstWith(r.index, SCHEMA, 0)
      case None => Answer(E_NOT_FOUND, 0, [], false)
      case Some(i) => WalkFrom(Contents(r.src, r.index)[i].data, want, START, dst)
  {
    hide WalkFrom, M.Ascii;
    var c := OpenCursor(r, SCHEMA);
    if c == null {
      return Answer(E_NOT_FOUND, 0, [], false);
    }
    out := WalkLines(c, want, dst);
  }
}
