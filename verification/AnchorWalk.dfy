/** The walk over content.md that finds heading anchors, and its three modes (micro/src/anchors.c). */
module AnchorWalk {
  import opened Bytes
  import opened Json
  import opened Markup
  import opened Layout
  import opened Index
  import opened Ustar
  import opened Yaml
  import opened YamlCode
  import opened Anchors
  import M = Manifest
  import R = Render

  // ------------------------------------------------------------ classifying a line

  /** What every scanned line satisfies. */
  ghost predicate Shape(l: LineInfo) {
    && |l.head| == (if l.len < HEAD then l.len else HEAD)
    && |l.tail| == (if l.len < TAIL then l.len else TAIL)
    && l.indent <= l.len
    && (!l.blank ==> l.indent < l.len && (l.columns <= 3 ==> l.indent <= 3))
    && (l.blank ==> forall i :: 0 <= i < |l.head| ==> Blank(l.head[i]) || l.head[i] == CR)
  }

  lemma {:induction false} BlankFacts(l: Text)
    ensures IsBlank(l) ==> forall i :: 0 <= i < |l| ==> Blank(l[i]) || l[i] == CR
    ensures !IsBlank(l) ==> Indent(l) < |DropCr(l)|
    ensures Indent(l) <= Columns(l)
  {
    if l != [] {
      BlankFacts(l[1..]);
      if IsBlank(l) {
        forall i | 0 <= i < |l| ensures Blank(l[i]) || l[i] == CR { if i > 0 { assert l[i] == l[1..][i - 1]; } }
      }
      if l[|l| - 1] == CR && |l| > 1 { assert l[1..][|l| - 2] == CR; }
    }
  }

  lemma InfoShape(l: Text)
    ensures Shape(Info(l))
  {
    hide Tail, IsBlank, Indent, Columns;
    BlankFacts(l);
    IndentWithin(l);
  }

  lemma {:induction false} IndentWithin(l: Text)
    ensures Indent(l) <= |DropCr(l)|
  {
    if Indent(l) == |l| && l != [] { assert Blank(l[|l| - 1]); }
  }

  /** How many copies of `ch` follow the indentation. */
  ghost function HeadRun(l: LineInfo, ch: byte): nat {
    if l.indent <= |l.head| then R.RunAt(l.head, l.indent, ch) else 0
  }

  /** `mm_fence`; a run longer than the head is measured as at least that. */
  ghost function FenceIn(l: LineInfo): Option<R.Fence> {
    if l.columns > 3 || l.indent >= |l.head| then None
    else
      var ch := l.head[l.indent];
      if (ch != R.BACKTICK && ch != R.TILDE) || HeadRun(l, ch) < 3 then None else Some(R.Fence(ch, HeadRun(l, ch)))
  }

  /** The byte after a marker is a blank, or there is none. */
  ghost predicate MarkerEnds(l: LineInfo, next: nat) {
    next >= l.len || (next < |l.head| && Blank(l.head[next]))
  }

  /** `mm_atx_level`. */
  ghost function AtxLevel(l: LineInfo): nat {
    var n := HeadRun(l, HASH);
    if l.columns > 3 || n == 0 || n > 6 || !MarkerEnds(l, l.indent + n) then 0 else n
  }

  ghost predicate AllBlanks(t: Text) {
    forall i :: 0 <= i < |t| ==> Blank(t[i])
  }

  /** `mm_setext_level`. */
  ghost function SetextLevel(l: LineInfo): nat {
    if l.blank || l.columns > 3 || l.len != |l.tail| || l.indent >= |l.tail| then 0
    else
      var ch := l.tail[l.indent];
      if ch != EQ && ch != DASH then 0
      else if !AllBlanks(l.tail[l.indent + R.RunAt(l.tail, l.indent, ch)..]) then 0
      else if ch == EQ then 1 else 2
  }

  /** `mm_setext_candidate`: a line that can only be a paragraph. */
  ghost predicate SetextText(l: LineInfo) {
    !l.blank && l.columns <= 3 && l.indent < |l.head| &&
    var ch := l.head[l.indent];
    ch != GT &&
    (ch == DASH || ch == 0x2B || ch == 0x2A ==> !MarkerEnds(l, l.indent + 1)) &&
    (IsDigit(ch) ==>
      var i := R.DigitsEnd(l.head, l.indent);
      i < |l.head| && (l.head[i] == 0x2E || l.head[i] == 0x29) ==> !MarkerEnds(l, i + 1)) &&
    (ch == R.BACKTICK || ch == R.TILDE ==> HeadRun(l, ch) < 3) &&
    (ch == HASH ==> HeadRun(l, HASH) > 6 || !MarkerEnds(l, l.indent + HeadRun(l, HASH)))
  }

  method RunIn(t: Text, from: nat, ch: byte) returns (n: nat)
    requires from <= |t|
    ensures n == R.RunAt(t, from, ch)
  {
    n := 0;
    while from + n < |t| && t[from + n] == ch
      invariant from + n <= |t| && R.RunAt(t, from, ch) == n + R.RunAt(t, from + n, ch)
    {
      n := n + 1;
    }
  }

  method FindFence(l: LineInfo) returns (f: Option<R.Fence>)
    requires Shape(l)
    ensures f == FenceIn(l)
  {
    if l.columns > 3 || l.indent >= |l.head| {
      return None;
    }
    var ch := l.head[l.indent];
    if ch != R.BACKTICK && ch != R.TILDE {
      return None;
    }
    var n := RunIn(l.head, l.indent, ch);
    f := if n < 3 then None else Some(R.Fence(ch, n));
  }

  method FindAtx(l: LineInfo) returns (level: nat)
    requires Shape(l)
    ensures level == AtxLevel(l)
  {
    if l.columns > 3 || l.indent > |l.head| {
      return 0;
    }
    var n := RunIn(l.head, l.indent, HASH);
    if n == 0 || n > 6 {
      return 0;
    }
    assert !l.blank by { RunStarts(l.head, l.indent, HASH); }
    if l.indent + n < l.len && !Blank(l.head[l.indent + n]) {
      return 0;
    }
    level := n;
  }

  lemma RunStarts(t: Text, from: nat, ch: byte)
    requires from <= |t| && R.RunAt(t, from, ch) > 0
    ensures from < |t| && t[from] == ch
  {
  }

  method FindSetext(l: LineInfo) returns (level: nat)
    requires Shape(l)
    ensures level == SetextLevel(l)
  {
    if l.blank || l.columns > 3 || l.len != |l.tail| {
      return 0;
    }
    var ch := l.tail[l.indent];
    if ch != EQ && ch != DASH {
      return 0;
    }
    var n := RunIn(l.tail, l.indent, ch);
    ghost var rest := l.tail[l.indent + n..];
    for i := l.indent + n to |l.tail|
      invariant forall k :: 0 <= k < i - (l.indent + n) ==> Blank(rest[k])
    {
      if !Blank(l.tail[i]) {
        assert rest[i - (l.indent + n)] == l.tail[i];
        return 0;
      }
    }
    level := if ch == EQ then 1 else 2;
  }

  method IsSetextText(l: LineInfo) returns (r: bool)
    requires Shape(l)
    ensures r <==> SetextText(l)
  {
    if l.blank || l.columns > 3 || l.indent >= |l.head| {
      return false;
    }
    var ch := l.head[l.indent];
    if ch == GT {
      return false;
    }
    if ch == DASH || ch == 0x2B || ch == 0x2A {
      var next := l.indent + 1;
      return !(next >= l.len || (next < |l.head| && Blank(l.head[next])));
    }
    if IsDigit(ch) {
      var i := l.indent;
      while i < |l.head| && IsDigit(l.head[i])
        invariant l.indent <= i <= |l.head| && R.DigitsEnd(l.head, l.indent) == R.DigitsEnd(l.head, i)
      {
        i := i + 1;
      }
      if i < |l.head| && (l.head[i] == 0x2E || l.head[i] == 0x29) {
        return !(i + 1 >= l.len || (i + 1 < |l.head| && Blank(l.head[i + 1])));
      }
      return true;
    }
    if ch == R.BACKTICK || ch == R.TILDE {
      var n := RunIn(l.head, l.indent, ch);
      return n < 3;
    }
    if ch == HASH {
      var n := RunIn(l.head, l.indent, HASH);
      return n > 6 || !(l.indent + n >= l.len || (l.indent + n < |l.head| && Blank(l.head[l.indent + n])));
    }
    r := true;
  }

  // ------------------------------------------------------------ the anchor of a heading

  /** The first half of `mm_anchor_of`: where the heading's text ends. */
  method FindTextEnd(t: Text) returns (n: nat)
    ensures n == TextEnd(t)
  {
    n := TrimBack(t, |t|);
    var h: nat := n;
    while h > 0 && t[h - 1] == HASH
      invariant h <= n && HashesTo(t, n) == HashesTo(t, h)
    {
      h := h - 1;
    }
    if h < n && (h == 0 || Blank(t[h - 1])) {
      n := TrimBack(t, h);
    }
  }

  method TrimBack(t: Text, from: nat) returns (n: nat)
    requires from <= |t|
    ensures n == TrimTo(t, from)
  {
    n := from;
    while n > 0 && Blank(t[n - 1])
      invariant n <= from && TrimTo(t, n) == TrimTo(t, from)
    {
      n := n - 1;
    }
  }

  /** `mm_anchor_of`: empty when there is none. */
  method FindAnchor(t: Text) returns (id: Text)
    ensures AnchorOf(t) == if id == [] then None else Some(id)
  {
    hide TextEnd;
    var n := FindTextEnd(t);
    if n < 4 || t[n - 1] != CLOSE {
      return [];
    }
    var open: nat := n - 1;
    while open > 0
      invariant open <= n - 1 && IdStart(t, n - 1) == IdStart(t, open)
    {
      var c := t[open - 1];
      if c == OPEN {
        return [];
      }
      if c == HASH {
        break;
      }
      if !IdByte(c) {
        return [];
      }
      open := open - 1;
    }
    if open < 2 || t[open - 1] != HASH || t[open - 2] != OPEN {
      return [];
    }
    id := t[open..n - 1];
  }

  // ------------------------------------------------------------ the walk

  datatype Anchor = Anchor(level: nat, id: Text)

  datatype State = State(fence: Option<R.Fence>, prev: Option<LineInfo>)

  const START := State(None, None)

  /** The anchor of a heading whose text ends in this tail, if it has one. */
  ghost function Heading(level: nat, tail: Text): Option<Anchor> {
    if AnchorOf(tail).None? then None else Some(Anchor(level, AnchorOf(tail).value))
  }

  /** What one line does: the state after it, and the anchor it completes. */
  ghost function LineStep(l: LineInfo, st: State): (State, Option<Anchor>) {
    if st.fence.Some? then (State(if R.Closes(FenceIn(l), st.fence.value) then None else st.fence, None), None)
    else if FenceIn(l).Some? then (State(FenceIn(l), None), None)
    else if AtxLevel(l) > 0 then (START, Heading(AtxLevel(l), l.tail))
    else if SetextLevel(l) > 0 && st.prev.Some? && SetextText(st.prev.value) then
      (START, Heading(SetextLevel(l), st.prev.value.tail))
    else (State(None, Some(l)), None)
  }

  /** The anchors of a document from a state on: the one sequence every mode of the walk answers from. */
  ghost function AnchorsFrom(t: Text, st: State): seq<Anchor>
    decreases |t|
  {
    if t == [] then []
    else
      var n := LineEnd(t);
      var r := LineStep(Info(t[..n]), st);
      (if r.1.Some? then [r.1.value] else []) + AnchorsFrom(if n < |t| then t[n + 1..] else [], r.0)
  }

  datatype Want = Count | ById(id: Text) | At(index: nat)

  datatype Answer = Answer(status: Status, count: nat, id: Text, level: nat)

  const NOT_THERE := Answer(E_NOT_FOUND, 0, [], 0)

  ghost predicate Names(anchors: seq<Anchor>, id: Text) {
    exists i :: 0 <= i < |anchors| && anchors[i].id == id
  }

  /** The walk's answer, from the anchor sequence. */
  ghost function AnswerFrom(anchors: seq<Anchor>, want: Want, dst: Option<nat>): Answer {
    match want
    case Count => Answer(OK, |anchors|, [], 0)
    case ById(id) => if Names(anchors, id) then Answer(OK, 0, [], 0) else NOT_THERE
    case At(i) =>
      if i >= |anchors| then NOT_THERE
      else
        var e := M.EmitTo(anchors[i].id, dst);
        Answer(e.status, 0, e.value, anchors[i].level)
  }

  /** What the three calls answer about a document, or about none. */
  ghost function Asked(doc: Option<Text>, want: Want, dst: Option<nat>): Answer {
    if doc.None? then NOT_THERE else AnswerFrom(AnchorsFrom(doc.value, START), want, dst)
  }

  /**
   * Over any content.md the three calls agree: `count` many answer by index, each with an id the third
   * call knows, and an id is known exactly when some index answers it.
   */
  lemma ModesAgree(doc: Text, id: Text)
    ensures var n := Asked(Some(doc), Count, None).count;
      (forall i :: 0 <= i < n ==> Asked(Some(doc), At(i), None).status == OK) &&
      (forall i :: i >= n ==> Asked(Some(doc), At(i), None) == NOT_THERE) &&
      (Asked(Some(doc), ById(id), None).status == OK <==>
        exists i :: 0 <= i < n && Asked(Some(doc), At(i), None).id == id)
  {
    hide AnchorsFrom;
    var anchors := AnchorsFrom(doc, START);
    if Names(anchors, id) {
      var i :| 0 <= i < |anchors| && anchors[i].id == id;
      assert Asked(Some(doc), At(i), None).id == id;
    }
  }

  /** One line of the walk. */
  method DoLine(l: LineInfo, st: State) returns (next: State, found: Option<Anchor>)
    requires Shape(l) && (st.prev.Some? ==> Shape(st.prev.value))
    ensures (next, found) == LineStep(l, st)
    ensures next.prev.Some? ==> Shape(next.prev.value)
  {
    hide FenceIn, AtxLevel, SetextLevel, SetextText, AnchorOf, Shape;
    found := None;
    var f := FindFence(l);
    if st.fence.Some? {
      next := State(if R.Closes(f, st.fence.value) then None else st.fence, None);
      return;
    }
    if f.Some? {
      return State(f, None), None;
    }
    next := START;
    var level := FindAtx(l);
    var id: Text;
    if level > 0 {
      id := FindAnchor(l.tail);
    } else {
      level := FindSetext(l);
      var candidate := false;
      if st.prev.Some? {
        candidate := IsSetextText(st.prev.value);
      }
      if level > 0 && candidate {
        id := FindAnchor(st.prev.value.tail);
      } else {
        return State(None, Some(l)), None;
      }
    }
    found := if id == [] then None else Some(Anchor(level, id));
  }

  lemma AnchorsUnfold(t: Text, st: State)
    requires t != []
    ensures var n := LineEnd(t);
      var r := LineStep(Info(t[..n]), st);
      AnchorsFrom(t, st) ==
        (if r.1.Some? then [r.1.value] else []) + AnchorsFrom(if n < |t| then t[n + 1..] else [], r.0)
  {
    hide LineStep, Info;
  }

  /** `mm_anchor_walk` over an open member. */
  method WalkLines(c: Cursor, want: Want, dst: Option<nat>) returns (r: Answer)
    requires c.Valid()
    modifies c, c.buf
    ensures r == AnswerFrom(AnchorsFrom(old(c.Rest()), START), want, dst)
  {
    hide LineStep, LineEnd, Info, AnchorsFrom, Shape, Cursor.Valid, Cursor.Rest;
    ghost var all := AnchorsFrom(c.Rest(), START);
    ghost var done: seq<Anchor> := [];
    var index, st := 0, START;
    assert done + AnchorsFrom(c.Rest(), st) == all;
    while true
      invariant c.Valid() && (st.prev.Some? ==> Shape(st.prev.value))
      invariant done + AnchorsFrom(c.Rest(), st) == all && index == |done|
      invariant want.ById? ==> !Names(done, want.id)
      invariant want.At? ==> index <= want.index
      decreases |c.Rest()|
    {
      ghost var t := c.Rest();
      var info := ScanLine(c);
      NoAnchors(st);
      if info.None? {
        assert done + [] == done;
        return if want.Count? then Answer(OK, index, [], 0) else NOT_THERE;
      }
      AnchorsUnfold(t, st);
      InfoShape(t[..LineEnd(t)]);
      var next, found := DoLine(info.value, st);
      ghost var rest := AnchorsFrom(c.Rest(), next);
      st := next;
      if found.None? {
        assert [] + rest == rest;
        continue;
      }
      FoundAt(done, found.value, rest);
      done := done + [found.value];
      index := index + 1;
      if want.ById? && found.value.id == want.id {
        assert all[index - 1].id == want.id;
        return Answer(OK, 0, [], 0);
      }
      if want.At? && index - 1 == want.index {
        var e := M.EmitTo(found.value.id, dst);
        return Answer(e.status, 0, e.value, found.value.level);
      }
    }
  }

  lemma FoundAt(done: seq<Anchor>, a: Anchor, rest: seq<Anchor>)
    ensures done + ([a] + rest) == (done + [a]) + rest && (done + ([a] + rest))[|done|] == a
  {
  }

  lemma NoAnchors(st: State)
    ensures AnchorsFrom([], st) == []
  {
  }

  /** `mcdf_micro_anchor_count`, `mcdf_micro_anchor_at` and `mcdf_micro_has_anchor`. */
  method Ask(r: Reader, want: Want, dst: Option<nat>) returns (a: Answer)
    requires r.Valid()
    ensures a == Asked(MemberOf(r, CONTENT), want, dst)
  {
    hide AnchorsFrom, AnswerFrom, MemberOf;
    var c := R.OpenContent(r);
    if c == null {
      return NOT_THERE;
    }
    a := WalkLines(c, want, dst);
  }
}
