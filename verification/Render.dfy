/**
 * The windowed walk over content.md (micro/render/render.c): where a window may end, and what the
 * windows of a whole walk add up to. The CommonMark parser is a parameter.
 */
module Render {
  import opened Bytes
  import opened Json
  import opened Layout
  import opened Markup
  import opened Index
  import opened Ustar
  import opened Yaml
  import opened YamlCode
  import M = Manifest
  import Policy

  const BACKTICK: byte := 0x60
  const TILDE: byte := 0x7E

  // ------------------------------------------------------------ lines

  /** `mm_line_blank`. */
  ghost predicate BlankLine(l: Text) {
    forall i :: 0 <= i < |l| ==> l[i] == SPACE || l[i] == TAB || l[i] == CR
  }

  /** Leading spaces. */
  ghost function Spaces(l: Text): (n: nat)
    ensures n <= |l| && (n < |l| ==> l[n] != SPACE)
  {
    if l == [] || l[0] != SPACE then 0 else 1 + Spaces(l[1..])
  }

  /** How many copies of `ch` stand at `i`. */
  ghost function RunAt(l: Text, i: nat, ch: byte): (n: nat)
    requires i <= |l|
    ensures i + n <= |l| && (i + n < |l| ==> l[i + n] != ch)
    decreases |l| - i
  {
    if i == |l| || l[i] != ch then 0 else 1 + RunAt(l, i + 1, ch)
  }

  datatype Fence = Fence(ch: byte, run: nat)

  /** `mm_fence_line`. */
  ghost function FenceOf(l: Text): Option<Fence> {
    var i := Spaces(l);
    if i > 3 || i >= |l| || (l[i] != BACKTICK && l[i] != TILDE) || RunAt(l, i, l[i]) < 3 then None
    else Some(Fence(l[i], RunAt(l, i, l[i])))
  }

  /** Blank or nothing at `i`: what makes a list marker one. */
  predicate EndsMarker(l: Text, i: nat) {
    i >= |l| || Blank(l[i])
  }

  /** The digits that stand at `i` end there. */
  ghost function DigitsEnd(l: Text, i: nat): (n: nat)
    requires i <= |l|
    ensures i <= n <= |l|
    decreases |l| - i
  {
    if i == |l| || !IsDigit(l[i]) then i else DigitsEnd(l, i + 1)
  }

  /** A bullet or an ordered-list marker at `i`. */
  ghost predicate MarkerAt(l: Text, i: nat)
    requires i < |l|
  {
    ((l[i] == DASH || l[i] == 0x2B || l[i] == 0x2A) && EndsMarker(l, i + 1)) ||
    (IsDigit(l[i]) &&
      var n := DigitsEnd(l, i);
      n < |l| && (l[n] == 0x2E || l[n] == 0x29) && EndsMarker(l, n + 1))
  }

  /** `mm_starts_top_block`. */
  ghost predicate StartsTop(l: Text) {
    var i := Spaces(l);
    i <= 3 && i < |l| && l[i] != GT && !MarkerAt(l, i)
  }

  // ------------------------------------------------------------ the block state

  /** An open fence, or else whether the last line was blank. */
  datatype State = State(fence: Option<Fence>, blank: bool)

  const START := State(None, false)
  const BETWEEN := State(None, true)

  /** What one complete line does to the state. */
  ghost function LineState(l: Text, s: State): State {
    if s.fence.Some? then
      if FenceOf(l).Some? && FenceOf(l).value.ch == s.fence.value.ch && FenceOf(l).value.run >= s.fence.value.run then START
      else State(s.fence, false)
    else if FenceOf(l).Some? then State(FenceOf(l), false)
    else State(None, BlankLine(l))
  }

  /** The state after the complete lines of a text; an unfinished last line does not count. */
  ghost function StateAfter(t: Text, s: State): State
    decreases |t|
  {
    if LineEnd(t) == |t| then s else StateAfter(t[LineEnd(t) + 1..], LineState(t[..LineEnd(t)], s))
  }

  ghost predicate LineStart(t: Text, p: nat) {
    p <= |t| && (p == 0 || t[p - 1] == LF)
  }

  /** A place between top-level blocks, judged from the start of the document. */
  ghost predicate Boundary(doc: Text, p: nat) {
    0 < p < |doc| && LineStart(doc, p) && StateAfter(doc[..p], START) == BETWEEN
  }

  // ------------------------------------------------------------ where a window may end

  /** The visible line at `q`, and whether the window shows its end. */
  ghost function VisibleLine(w: Text, q: nat): Text
    requires q <= |w|
  {
    w[q..q + LineEnd(w[q..])]
  }

  ghost predicate Complete(w: Text, q: nat)
    requires q <= |w|
  {
    LineEnd(w[q..]) < |w| - q
  }

  /**
   * What the scan asks of the line at `q`: its visible bytes start a top-level block, and a line
   * seen whole is neither blank nor a fence.
   */
  ghost predicate Cuttable(w: Text, q: nat)
    requires q <= |w|
  {
    var l := VisibleLine(w, q);
    StartsTop(l) && (Complete(w, q) ==> FenceOf(l).None? && !BlankLine(l))
  }

  /** A place where `mm_window_end` may cut: between blocks, judged from the start of the window. */
  ghost predicate Candidate(w: Text, q: nat) {
    0 < q < |w| && LineStart(w, q) && StateAfter(w[..q], START) == BETWEEN && Cuttable(w, q)
  }

  /** `mm_window_end`: the last such place, or nothing. */
  ghost predicate IsWindowEnd(w: Text, isTail: bool, end: nat) {
    if isTail then end == |w|
    else (end == 0 || Candidate(w, end)) && forall q :: end < q < |w| ==> !Candidate(w, q)
  }

  // ------------------------------------------------------------ composing states

  lemma {:induction false} StateConcat(a: Text, b: Text, s: State)
    requires LineStart(a, |a|)
    ensures StateAfter(a + b, s) == StateAfter(b, StateAfter(a, s))
    decreases |a|
  {
    hide LineState;
    if a == [] {
      assert a + b == b;
    } else {
      LineBreakIn(a);
      var n := LineEnd(a);
      assert a == a[..n] + [LF] + a[n + 1..];
      LineEndIs(a[..n], a[n + 1..] + b);
      assert a + b == a[..n] + [LF] + (a[n + 1..] + b);
      assert (a + b)[n + 1..] == a[n + 1..] + b && (a + b)[..n] == a[..n];
      StateConcat(a[n + 1..], b, LineState(a[..n], s));
    }
  }

  lemma StateOfLine(l: Text, s: State)
    requires LF !in l
    ensures StateAfter(l + [LF], s) == LineState(l, s)
  {
    hide LineState;
    LineEndIs(l, []);
    var t := l + [LF];
    assert t + [] == t && t[|l| + 1..] == [] && t[..|l|] == l;
    assert StateAfter([], LineState(l, s)) == LineState(l, s);
  }

  /** One more complete line. */
  lemma NextState(w: Text, at: nat, n: nat)
    requires LineStart(w, at) && at + n < |w| && n == LineEnd(w[at..])
    ensures StateAfter(w[..at + n + 1], START) == LineState(w[at..at + n], StateAfter(w[..at], START))
    ensures LineStart(w, at + n + 1)
  {
    hide LineState, StateAfter;
    var l := w[at..at + n];
    assert l == w[at..][..n] && w[at..][n] == LF;
    assert w[..at + n + 1] == w[..at] + (l + [LF]);
    StateConcat(w[..at], l + [LF], START);
    StateOfLine(l, StateAfter(w[..at], START));
  }

  /** Once a line is complete, whether a blank line came before makes no difference. */
  lemma BlankBeforeIsForgotten(t: Text)
    requires t != [] && t[|t| - 1] == LF
    ensures StateAfter(t, START) == StateAfter(t, BETWEEN)
  {
    hide FenceOf, BlankLine;
    LineBreakIn(t);
  }

  /**
   * In a window that starts at a boundary, or at the start, the places to cut are exactly the
   * boundaries of the whole document before a line the scan accepts: where a window starts and ends
   * makes no difference, no cut is inside a fence, and no other boundary is passed over.
   */
  lemma CutsAreBoundaries(doc: Text, at: nat, want: nat, q: nat)
    requires at + want <= |doc| && (at == 0 || Boundary(doc, at)) && 0 < q < want
    ensures var w := doc[at..at + want]; Candidate(w, q) <==> Boundary(doc, at + q) && Cuttable(w, q)
  {
    hide StateAfter, LineState, StartsTop, FenceOf, BlankLine;
    var w := doc[at..at + want];
    assert w[q - 1] == doc[at + q - 1];
    if w[q - 1] == LF {
      assert w[..q][|w[..q]| - 1] == LF;
      BlankBeforeIsForgotten(w[..q]);
      assert doc[..at + q] == doc[..at] + w[..q];
      assert at > 0 ==> doc[..at][at - 1] == LF;
      StateConcat(doc[..at], w[..q], START);
      StateOfNothing(doc[..at]);
    }
  }

  lemma StateOfNothing(t: Text)
    ensures t == [] ==> StateAfter(t, START) == START
  {
  }

  // ------------------------------------------------------------ the scan

  /** `mm_line_blank`. */
  method IsBlankLine(l: Text) returns (r: bool)
    ensures r <==> BlankLine(l)
  {
    for i := 0 to |l|
      invariant forall k :: 0 <= k < i ==> l[k] == SPACE || l[k] == TAB || l[k] == CR
    {
      if l[i] != SPACE && l[i] != TAB && l[i] != CR {
        return false;
      }
    }
    r := true;
  }

  /** `mm_line_at`. */
  method LineAt(w: Text, at: nat) returns (n: nat, advance: nat)
    requires at < |w|
    ensures n == LineEnd(w[at..]) && advance == if n < |w| - at then n + 1 else n
  {
    n := 0;
    while n < |w| - at && w[at + n] != LF
      invariant n <= |w| - at && LF !in w[at..][..n]
    {
      assert w[at..][..n + 1] == w[at..][..n] + [w[at + n]];
      n := n + 1;
    }
    LineEndAt(w[at..], n);
    advance := if n < |w| - at then n + 1 else n;
  }

  lemma {:induction false} SpacesIs(l: Text, n: nat)
    requires n <= |l| && (forall k :: 0 <= k < n ==> l[k] == SPACE) && (n < |l| ==> l[n] != SPACE)
    ensures Spaces(l) == n
  {
    if n > 0 { SpacesIs(l[1..], n - 1); }
  }

  method CountSpaces(l: Text) returns (n: nat)
    ensures n == Spaces(l)
  {
    n := 0;
    while n < |l| && l[n] == SPACE
      invariant n <= |l| && forall k :: 0 <= k < n ==> l[k] == SPACE
    {
      n := n + 1;
    }
    SpacesIs(l, n);
  }

  /** `mm_fence_line`. */
  method FindFence(l: Text) returns (f: Option<Fence>)
    ensures f == FenceOf(l)
  {
    hide Spaces;
    var indent := CountSpaces(l);
    if indent > 3 || indent >= |l| {
      return None;
    }
    var ch := l[indent];
    if ch != BACKTICK && ch != TILDE {
      return None;
    }
    var n := 0;
    while indent + n < |l| && l[indent + n] == ch
      invariant indent + n <= |l| && RunAt(l, indent, ch) == n + RunAt(l, indent + n, ch)
    {
      n := n + 1;
    }
    f := if n < 3 then None else Some(Fence(ch, n));
  }

  /** `mm_starts_top_block`. */
  method IsTopStart(l: Text) returns (r: bool)
    ensures r <==> StartsTop(l)
  {
    hide Spaces;
    var indent := CountSpaces(l);
    if indent > 3 || indent >= |l| {
      return false;
    }
    var ch := l[indent];
    if ch == GT {
      return false;
    }
    if ch == DASH || ch == 0x2B || ch == 0x2A {
      if indent + 1 >= |l| || Blank(l[indent + 1]) {
        return false;
      }
    }
    if IsDigit(ch) {
      var i := indent;
      while i < |l| && IsDigit(l[i])
        invariant indent <= i <= |l| && DigitsEnd(l, indent) == DigitsEnd(l, i)
      {
        i := i + 1;
      }
      if i < |l| && (l[i] == 0x2E || l[i] == 0x29) {
        if i + 1 >= |l| || Blank(l[i + 1]) {
          return false;
        }
      }
    }
    r := true;
  }

  /** The body of the scan: the state after one complete line. */
  method AdvanceState(l: Text, s: State) returns (next: State, opensFence: bool)
    ensures next == LineState(l, s)
    ensures opensFence <==> FenceOf(l).Some?
  {
    hide FenceOf, BlankLine;
    var f := FindFence(l);
    opensFence := f.Some?;
    if s.fence.Some? {
      next := if f.Some? && f.value.ch == s.fence.value.ch && f.value.run >= s.fence.value.run then START else State(s.fence, false);
    } else if f.Some? {
      next := State(f, false);
    } else {
      var blank := IsBlankLine(l);
      next := State(None, blank);
    }
  }

  /** Between two line starts there is no place to cut. */
  lemma NoCutInside(w: Text, at: nat, n: nat)
    requires at + n <= |w| && n == LineEnd(w[at..])
    ensures forall q :: at < q <= at + n && q < |w| ==> !Candidate(w, q)
  {
    forall q | at < q <= at + n && q < |w| ensures !Candidate(w, q) {
      assert w[q - 1] == w[at..][..n][q - 1 - at];
      assert w[at..][..n][q - 1 - at] in w[at..][..n];
    }
  }

  /** `mm_window_end`. */
  method WindowEnd(w: Text, isTail: bool) returns (cut: nat)
    ensures IsWindowEnd(w, isTail, cut)
  {
    hide Candidate, LineState, StateAfter, StartsTop;
    if isTail {
      return |w|;
    }
    var at := 0;
    cut := 0;
    var s := START;
    StateOfNothing(w[..0]);
    NotAtStart(w);
    while at < |w|
      invariant LineStart(w, at) && cut <= at && s == StateAfter(w[..at], START)
      invariant cut == 0 || Candidate(w, cut)
      invariant forall q :: cut < q < at ==> !Candidate(w, q)
    {
      var n, advance := LineAt(w, at);
      var here := CutHere(w, at, n, s);
      NoCutInside(w, at, n);
      if here {
        cut := at;
      }
      if n == |w| - at {
        return;
      }
      NextState(w, at, n);
      var opens;
      s, opens := AdvanceState(w[at..at + n], s);
      at := at + advance;
    }
  }

  lemma NotAtStart(w: Text)
    ensures !Candidate(w, 0)
  {
  }

  /** The test the scan makes at a line start. */
  method CutHere(w: Text, at: nat, n: nat, s: State) returns (here: bool)
    requires at < |w| && LineStart(w, at) && s == StateAfter(w[..at], START) && n == LineEnd(w[at..])
    ensures here <==> Candidate(w, at)
  {
    hide StateAfter, StartsTop, FenceOf, BlankLine;
    StateOfNothing(w[..at]);
    if s != BETWEEN {
      return false;
    }
    var l := w[at..at + n];
    here := IsTopStart(l);
    if n < |w| - at {
      var f := FindFence(l);
      var blank := IsBlankLine(l);
      here := here && f.None? && !blank;
    }
  }

  /**
   * A fence that opens after a blank line is a boundary whose line passes `mm_starts_top_block`, and
   * yet the scan does not cut there: a window holding no other boundary is refused.
   */
  lemma FenceIsNotACut()
    ensures Boundary(FENCED, 3) && StartsTop(VisibleLine(FENCED, 3)) && IsWindowEnd(FENCED, false, 0)
  {
    hide LineState, StateAfter, StartsTop, FenceOf, BlankLine;
    var w, l := FENCED, TICKS;
    FencedLines();
    FencedStates();
    assert VisibleLine(w, 3) == l && Complete(w, 3);
    forall q | 0 < q < |w| ensures !Candidate(w, q) {
      if q != 2 && q != 3 && q != 7 { assert w[q - 1] != LF; }
    }
  }

  // ------------------------------------------------------------ cuts and list items

  /** The column behind the first `n` bytes, a tab going on to the next multiple of four. */
  ghost function ColumnAfter(l: Text, n: nat): nat
    requires n <= |l|
  {
    if n == 0 then 0
    else if l[n - 1] == TAB then (ColumnAfter(l, n - 1) / 4 + 1) * 4
    else ColumnAfter(l, n - 1) + 1
  }

  /** Past the spaces and tabs at `i`. */
  ghost function BlanksEnd(l: Text, i: nat): (r: nat)
    requires i <= |l|
    ensures i <= r <= |l|
    decreases |l| - i
  {
    if i == |l| || !Blank(l[i]) then i else BlanksEnd(l, i + 1)
  }

  /** The indentation of a line, in columns. */
  ghost function Columns(l: Text): nat {
    ColumnAfter(l, BlanksEnd(l, 0))
  }

  /** A list marker, indented by three spaces at most. */
  ghost predicate IsMarker(l: Text) {
    var i := Spaces(l);
    i <= 3 && i < |l| && MarkerAt(l, i)
  }

  ghost function MarkerEnd(l: Text): (m: nat)
    requires IsMarker(l)
    ensures Spaces(l) < m <= |l|
  {
    var i := Spaces(l);
    if IsDigit(l[i]) then DigitsEnd(l, i) + 1 else i + 1
  }

  /** Section 5.2 of CommonMark: where the content of the item that a marker begins stands. */
  ghost function ContentColumn(l: Text): nat
    requires IsMarker(l)
  {
    var m := MarkerEnd(l);
    var e := BlanksEnd(l, m);
    if BlankLine(l[m..]) || ColumnAfter(l, e) > ColumnAfter(l, m) + 4 then ColumnAfter(l, m) + 1 else ColumnAfter(l, e)
  }

  /**
   * What the parser decides about the lines of a document, told by where they start: which markers
   * begin an item and are not text, code or a thematic break, and which lines go on the paragraph
   * before them without being indented for it.
   */
  datatype Blocks = Blocks(starts: nat -> bool, lazy: nat -> bool)

  /** Only text can be gone on with. */
  ghost predicate LazyAfterText(doc: Text, b: Blocks) {
    forall p :: 0 < p <= |doc| && LineStart(doc, p) && b.lazy(p) ==> !BlankLine(VisibleLine(doc, LineBegin(doc, p - 1)))
  }

  /** Where the line of position `k` begins. */
  ghost function LineBegin(doc: Text, k: nat): (r: nat)
    requires k <= |doc|
    ensures r <= k && LineStart(doc, r) && forall j :: r < j <= k ==> !LineStart(doc, j)
  {
    if k == 0 || doc[k - 1] == LF then k else LineBegin(doc, k - 1)
  }

  /** A marker with nothing behind it, and then a blank line: the item ends with its first line. */
  ghost predicate Empties(doc: Text, p: nat)
    requires p <= |doc| && IsMarker(VisibleLine(doc, p))
  {
    var l := VisibleLine(doc, p);
    var next := p + |l| + 1;
    BlankLine(l[MarkerEnd(l)..]) && next <= |doc| && BlankLine(VisibleLine(doc, next))
  }

  /** A line that begins a list item which goes on behind it. */
  ghost predicate Begins(doc: Text, p: nat, b: Blocks)
    requires p <= |doc|
  {
    LineStart(doc, p) && IsMarker(VisibleLine(doc, p)) && b.starts(p) && !Empties(doc, p)
  }

  /** A line that does not end an item whose content stands at that column. */
  ghost predicate Stays(doc: Text, p: nat, column: nat, b: Blocks)
    requires p <= |doc|
  {
    var l := VisibleLine(doc, p);
    BlankLine(l) || Columns(l) >= column || (b.lazy(p) && !(IsMarker(l) && b.starts(p)))
  }

  /** The line at `p` belongs to the item that begins at `i`: no line from there on ends it. */
  ghost predicate InItem(doc: Text, i: nat, p: nat, b: Blocks)
    requires p <= |doc|
  {
    i < p && Begins(doc, i, b) &&
    forall k :: i < k <= p && LineStart(doc, k) ==> Stays(doc, k, ContentColumn(VisibleLine(doc, i)), b)
  }

  ghost predicate InsideItem(doc: Text, p: nat, b: Blocks)
    requires p <= |doc|
  {
    exists i :: InItem(doc, i, p, b)
  }

  /** The content column of the outermost item that is open before the line at `p`: one pass over the lines. */
  ghost function OpenItem(doc: Text, p: nat, b: Blocks): Option<nat>
    requires p <= |doc|
  {
    if p == 0 then None
    else
      var q := LineBegin(doc, p - 1);
      ItemAfter(doc, q, OpenItem(doc, q, b), b)
  }

  /** What one line does to the open item. */
  ghost function ItemAfter(doc: Text, q: nat, open: Option<nat>, b: Blocks): Option<nat>
    requires q <= |doc|
  {
    var l := VisibleLine(doc, q);
    if BlankLine(l) || (open.Some? && Columns(l) >= open.value) then open
    else if IsMarker(l) && b.starts(q) then if Empties(doc, q) then None else Some(ContentColumn(l))
    else if open.Some? && b.lazy(q) then open
    else None
  }

  lemma {:induction false} ColumnsGrow(l: Text, m: nat, n: nat)
    requires m <= n <= |l|
    ensures ColumnAfter(l, m) + (n - m) <= ColumnAfter(l, n)
  {
    if m < n { ColumnsGrow(l, m, n - 1); }
  }

  lemma {:induction false} BlanksEndIs(l: Text, i: nat, n: nat)
    requires i <= n <= |l| && (forall k :: i <= k < n ==> Blank(l[k])) && (n < |l| ==> !Blank(l[n]))
    ensures BlanksEnd(l, i) == n
    decreases n - i
  {
    if i < n { BlanksEndIs(l, i + 1, n); }
  }

  lemma {:induction false} SpacesAre(l: Text)
    ensures forall k :: 0 <= k < Spaces(l) ==> l[k] == SPACE
  {
    if l != [] && l[0] == SPACE {
      SpacesAre(l[1..]);
      assert forall k :: 0 < k < Spaces(l) ==> l[k] == l[1..][k - 1];
    }
  }

  /** An item's content stands further in than its marker, and a marker is no blank line. */
  lemma ContentIsInside(l: Text)
    requires IsMarker(l)
    ensures Columns(l) < ContentColumn(l) && !BlankLine(l)
  {
    hide Spaces, DigitsEnd;
    var i, m := Spaces(l), MarkerEnd(l);
    SpacesAre(l);
    BlanksEndIs(l, 0, i);
    ColumnsGrow(l, i, m);
    ColumnsGrow(l, m, BlanksEnd(l, m));
    hide MarkerEnd;
  }

  /** A line that stays in an item stays in one further out. */
  lemma StaysFurtherOut(doc: Text, p: nat, column: nat, out: nat, b: Blocks)
    requires p <= |doc| && Stays(doc, p, column, b) && out <= column
    ensures Stays(doc, p, out, b)
  {
    hide BlankLine, Columns, IsMarker;
  }

  /** An open item has begun somewhere, and nothing has ended it since. */
  lemma {:induction false} OpenHasBegun(doc: Text, p: nat, b: Blocks) returns (i: nat)
    requires p <= |doc| && OpenItem(doc, p, b).Some?
    ensures i < p && Begins(doc, i, b) && ContentColumn(VisibleLine(doc, i)) == OpenItem(doc, p, b).value
    ensures forall k :: i < k < p && LineStart(doc, k) ==> Stays(doc, k, OpenItem(doc, p, b).value, b)
    decreases p
  {
    hide BlankLine, Columns, IsMarker, ContentColumn, VisibleLine, Empties;
    var q := LineBegin(doc, p - 1);
    var l, open := VisibleLine(doc, q), OpenItem(doc, q, b);
    if !BlankLine(l) && !(open.Some? && Columns(l) >= open.value) && IsMarker(l) && b.starts(q) {
      i := q;
    } else {
      i := OpenHasBegun(doc, q, b);
    }
  }

  /** While nothing has ended an item, it or one further out is open. */
  lemma {:induction false} BegunIsOpen(doc: Text, i: nat, p: nat, b: Blocks)
    requires i < p <= |doc| && Begins(doc, i, b) && LineStart(doc, p)
    requires forall k :: i < k < p && LineStart(doc, k) ==> Stays(doc, k, ContentColumn(VisibleLine(doc, i)), b)
    ensures OpenItem(doc, p, b).Some? && OpenItem(doc, p, b).value <= ContentColumn(VisibleLine(doc, i))
    decreases p
  {
    var column := ContentColumn(VisibleLine(doc, i));
    hide BlankLine, Columns, IsMarker, ContentColumn, VisibleLine, Empties;
    var q := LineBegin(doc, p - 1);
    if q == i {
      ContentIsInside(VisibleLine(doc, i));
    } else {
      BegunIsOpen(doc, i, q, b);
      StaysFurtherOut(doc, q, column, OpenItem(doc, q, b).value, b);
    }
  }

  /** The pass over the lines knows which lines belong to an item. */
  lemma ItemsExactly(doc: Text, p: nat, b: Blocks)
    requires 0 < p <= |doc| && LineStart(doc, p)
    ensures InsideItem(doc, p, b) <==> OpenItem(doc, p, b).Some? && Stays(doc, p, OpenItem(doc, p, b).value, b)
  {
    hide BlankLine, Columns, IsMarker, ContentColumn, VisibleLine, Empties, Stays, OpenItem;
    if InsideItem(doc, p, b) {
      var i :| InItem(doc, i, p, b);
      BegunIsOpen(doc, i, p, b);
      StaysFurtherOut(doc, p, ContentColumn(VisibleLine(doc, i)), OpenItem(doc, p, b).value, b);
    }
    if OpenItem(doc, p, b).Some? && Stays(doc, p, OpenItem(doc, p, b).value, b) {
      var i := OpenHasBegun(doc, p, b);
      assert InItem(doc, i, p, b);
    }
  }

  /** Before a boundary stands a blank line. */
  lemma BoundaryFollowsBlank(doc: Text, p: nat)
    requires Boundary(doc, p)
    ensures BlankLine(VisibleLine(doc, LineBegin(doc, p - 1)))
  {
    hide StateAfter, FenceOf, BlankLine;
    var q := LineBegin(doc, p - 1);
    LineEndsBefore(doc, q, p);
    var l := VisibleLine(doc, q);
    NextState(doc, q, |l|);
    assert l == doc[q..q + |l|];
  }

  /** The line between two line starts. */
  lemma LineEndsBefore(doc: Text, q: nat, p: nat)
    requires q < p <= |doc| && doc[p - 1] == LF && forall j :: q < j < p ==> !LineStart(doc, j)
    ensures LineEnd(doc[q..]) == p - 1 - q
  {
    var t := doc[q..];
    forall k | 0 <= k < p - 1 - q ensures t[k] != LF {
      assert !LineStart(doc, q + k + 1);
    }
    assert LF !in t[..p - 1 - q];
    LineEndAt(t, p - 1 - q);
  }

  /**
   * Whatever the parser takes for items and for lazy lines: a cut that is taken lies inside a list
   * item exactly when an item is open there and the line is indented at least to its content (or
   * turns out to be blank where the window did not show it whole).
   */
  lemma CutsInsideItems(doc: Text, at: nat, want: nat, q: nat, b: Blocks)
    requires at + want <= |doc| && (at == 0 || Boundary(doc, at)) && 0 < q < want
    requires Candidate(doc[at..at + want], q) && LazyAfterText(doc, b)
    ensures var p := at + q;
      var open, l := OpenItem(doc, p, b), VisibleLine(doc, p);
      InsideItem(doc, p, b) <==> open.Some? && (Columns(l) >= open.value || BlankLine(l))
  {
    hide Candidate, Cuttable, BlankLine, Columns, IsMarker, VisibleLine, InsideItem, OpenItem, LazyAfterText;
    CutsAreBoundaries(doc, at, want, q);
    BoundaryFollowsBlank(doc, at + q);
    NotLazy(doc, at + q, b);
    ItemsExactly(doc, at + q, b);
  }

  lemma NotLazy(doc: Text, p: nat, b: Blocks)
    requires 0 < p <= |doc| && LineStart(doc, p) && LazyAfterText(doc, b) && BlankLine(VisibleLine(doc, LineBegin(doc, p - 1)))
    ensures !b.lazy(p)
  {
    hide BlankLine, VisibleLine;
  }

  /** A cut line is indented by four columns or more exactly when a tab follows its spaces. */
  lemma IndentedCutsAreTabs(l: Text)
    requires StartsTop(l)
    ensures Columns(l) >= 4 <==> l[Spaces(l)] == TAB
  {
    hide Spaces, BlanksEnd, MarkerAt;
    var i := Spaces(l);
    SpacesAre(l);
    SpaceColumns(l, i);
    if l[i] == TAB {
      BlanksReach(l, 0, i + 1);
      ColumnsGrow(l, i + 1, BlanksEnd(l, 0));
    } else {
      BlanksEndIs(l, 0, i);
    }
  }

  lemma {:induction false} SpaceColumns(l: Text, n: nat)
    requires n <= |l| && forall k :: 0 <= k < n ==> l[k] == SPACE
    ensures ColumnAfter(l, n) == n
  {
    if n > 0 { SpaceColumns(l, n - 1); }
  }

  lemma {:induction false} BlanksReach(l: Text, i: nat, n: nat)
    requires i <= n <= |l| && forall k :: i <= k < n ==> Blank(l[k])
    ensures BlanksEnd(l, i) >= n
    decreases n - i
  {
    if i < n { BlanksReach(l, i + 1, n); }
  }

  /** `- a`, an empty line, `  b`: the scan cuts inside the item. */
  const ITEM: Text := [DASH, SPACE, 0x61, LF, LF, SPACE, SPACE, 0x62, LF]

  lemma ItemIsCut(b: Blocks)
    requires b.starts(0)
    ensures Candidate(ITEM, 5) && InsideItem(ITEM, 5, b)
  {
    hide StateAfter, LineState, Cuttable, Stays, Begins, ContentColumn, IsMarker, StartsTop;
    ItemLines();
    ItemStates();
    ItemColumns();
    assert Begins(ITEM, 0, b) by { ItemBegins(b); }
    forall k | 0 < k <= 5 && LineStart(ITEM, k) ensures Stays(ITEM, k, 2, b) {
      assert k == 4 || k == 5 by { assert ITEM[0] != LF && ITEM[1] != LF && ITEM[2] != LF; }
      ItemStays(k, b);
    }
    assert InItem(ITEM, 0, 5, b);
    assert Cuttable(ITEM, 5) by { ItemCuttable(); }
  }

  lemma ItemLines()
    ensures VisibleLine(ITEM, 0) == [DASH, SPACE, 0x61] && VisibleLine(ITEM, 4) == [] && VisibleLine(ITEM, 5) == [SPACE, SPACE, 0x62]
    ensures LineEnd(ITEM[0..]) == 3 && LineEnd(ITEM[4..]) == 0 && LineEnd(ITEM[5..]) == 3
  {
    LineEndAt(ITEM[0..], 3);
    LineEndAt(ITEM[4..], 0);
    LineEndAt(ITEM[5..], 3);
  }

  lemma ItemStates()
    ensures StateAfter(ITEM[..0], START) == START && StateAfter(ITEM[..4], START) == START && StateAfter(ITEM[..5], START) == BETWEEN
  {
    hide StateAfter, FenceOf, BlankLine, LineEnd;
    ItemLines();
    ItemPlain();
    StateOfNothing(ITEM[..0]);
    NextState(ITEM, 0, 3);
    assert ITEM[..4] == ITEM[..0 + 3 + 1] && ITEM[0..0 + 3] == [DASH, SPACE, 0x61];
    NextState(ITEM, 4, 0);
    assert ITEM[4..4 + 0] == [];
  }

  lemma ItemPlain()
    ensures FenceOf([DASH, SPACE, 0x61]).None? && !BlankLine([DASH, SPACE, 0x61])
    ensures FenceOf([]).None? && BlankLine([]) && FenceOf([SPACE, SPACE, 0x62]).None? && !BlankLine([SPACE, SPACE, 0x62])
  {
    var m, e: Text := [DASH, SPACE, 0x61], [SPACE, SPACE, 0x62];
    SpacesIs(m, 0);
    SpacesIs([], 0);
    SpacesIs(e, 2);
    assert m[0] == DASH && e[2] == 0x62;
  }

  lemma ItemColumns()
    ensures IsMarker([DASH, SPACE, 0x61]) && ContentColumn([DASH, SPACE, 0x61]) == 2
    ensures Columns([SPACE, SPACE, 0x62]) == 2
  {
    var m, e: Text := [DASH, SPACE, 0x61], [SPACE, SPACE, 0x62];
    SpacesIs(m, 0);
    BlanksEndIs(m, 1, 2);
    assert m[1..] == [SPACE, 0x61] && m[1..][1] == 0x61;
    assert ColumnAfter(m, 1) == 1 && ColumnAfter(m, 2) == 2;
    BlanksEndIs(e, 0, 2);
    assert ColumnAfter(e, 1) == 1 && ColumnAfter(e, 2) == 2;
  }

  lemma ItemBegins(b: Blocks)
    requires b.starts(0)
    ensures Begins(ITEM, 0, b)
  {
    ItemLines();
    ItemColumns();
    ItemHasText();
    hide IsMarker, VisibleLine, MarkerEnd, BlankLine;
  }

  lemma ItemHasText()
    requires IsMarker([DASH, SPACE, 0x61])
    ensures var l: Text := [DASH, SPACE, 0x61]; !BlankLine(l[MarkerEnd(l)..])
  {
    var l: Text := [DASH, SPACE, 0x61];
    SpacesIs(l, 0);
    assert l[1..][1] == 0x61;
  }

  lemma ItemStays(k: nat, b: Blocks)
    requires k == 4 || k == 5
    ensures Stays(ITEM, k, 2, b)
  {
    ItemLines();
    ItemColumns();
    ItemPlain();
    hide IsMarker, VisibleLine, Columns, BlankLine;
  }

  lemma ItemCuttable()
    ensures Cuttable(ITEM, 5)
  {
    var e: Text := [SPACE, SPACE, 0x62];
    ItemLines();
    ItemPlain();
    SpacesIs(e, 2);
    hide FenceOf, BlankLine, VisibleLine;
    assert !IsDigit(e[2]);
  }

  const TICKS: Text := [BACKTICK, BACKTICK, BACKTICK]
  const FENCED: Text := [0x61, LF, LF, BACKTICK, BACKTICK, BACKTICK, LF, 0x62]

  lemma FencedLines()
    ensures LineEnd(FENCED[0..]) == 1 && LineEnd(FENCED[2..]) == 0 && LineEnd(FENCED[3..]) == 3
    ensures FENCED[0..1] == [0x61] && FENCED[2..2] == [] && FENCED[3..6] == TICKS
  {
    LineEndAt(FENCED[0..], 1);
    LineEndAt(FENCED[2..], 0);
    LineEndAt(FENCED[3..], 3);
  }

  lemma SmallLines()
    ensures LineState([0x61], START) == START && LineState([], START) == BETWEEN
    ensures FenceOf(TICKS) == Some(Fence(BACKTICK, 3)) && StartsTop(TICKS)
  {
    SpacesIs([0x61], 0);
    SpacesIs([], 0);
    SpacesIs(TICKS, 0);
    assert RunAt(TICKS, 3, BACKTICK) == 0 && RunAt(TICKS, 2, BACKTICK) == 1 && RunAt(TICKS, 1, BACKTICK) == 2;
    var a: Text := [0x61];
    assert !BlankLine(a) by { assert a[0] != SPACE && a[0] != TAB && a[0] != CR; }
  }

  lemma FencedStates()
    ensures StateAfter(FENCED[..2], START) == START && StateAfter(FENCED[..3], START) == BETWEEN
    ensures StateAfter(FENCED[..7], START).fence.Some?
    ensures FenceOf(TICKS).Some? && StartsTop(TICKS)
  {
    hide StateAfter, FenceOf, StartsTop, BlankLine, LineEnd;
    FencedLines();
    SmallLines();
    StateOfNothing(FENCED[..0]);
    NextState(FENCED, 0, 1);
    assert FENCED[..2] == FENCED[..0 + 1 + 1] && FENCED[0..0 + 1] == [0x61];
    NextState(FENCED, 2, 0);
    assert FENCED[2..2 + 0] == [];
    NextState(FENCED, 3, 3);
    assert FENCED[3..3 + 3] == TICKS;
  }

  // ------------------------------------------------------------ carried definitions

  /** The first `]` from `i` on that is not escaped. */
  ghost function CloseAt(l: Text, i: nat): (r: Option<nat>)
    ensures r.Some? ==> i <= r.value < |l|
    decreases if i <= |l| then |l| - i else 0
  {
    if i >= |l| then None
    else if l[i] == BACKSLASH then CloseAt(l, i + 2)
    else if l[i] == RBRACKET then Some(i)
    else CloseAt(l, i + 1)
  }

  /** A line that may define a link reference. */
  ghost predicate IsDefinition(l: Text) {
    var i := Spaces(l);
    i <= 3 && i < |l| && l[i] == LBRACKET &&
    var close := CloseAt(l, i + 1);
    close.Some? && close.value + 1 < |l| && l[close.value + 1] == COLON
  }

  predicate Closes(f: Option<Fence>, open: Fence) {
    f.Some? && f.value.ch == open.ch && f.value.run >= open.run
  }

  /** The lines `mm_collect_refs` carries; lines too long for its buffer are not looked at. */
  ghost function RefsFrom(t: Text, fence: Option<Fence>): seq<Text>
    decreases |t|
  {
    if t == [] then []
    else
      var l := NextLine(t);
      if l.cut then RefsFrom(l.rest, fence)
      else
        var f := FenceOf(l.text);
        if fence.Some? then RefsFrom(l.rest, if Closes(f, fence.value) then None else fence)
        else if f.Some? then RefsFrom(l.rest, f)
        else (if IsDefinition(l.text) then [l.text] else []) + RefsFrom(l.rest, None)
  }

  /** What every window is preceded by. */
  ghost function Prefix(doc: Text): Text {
    var refs := RefsFrom(doc, None);
    if refs == [] then [] else JoinLines(refs) + [LF]
  }

  /** The definitions outside fences, as the window scan judges fences. */
  ghost function DefinitionsFrom(t: Text, s: State): seq<Text>
    decreases |t|
  {
    if t == [] then []
    else
      var n := LineEnd(t);
      var l := t[..n];
      var d := DropCr(l);
      (if s.fence.None? && FenceOf(l).None? && IsDefinition(d) then [d] else [])
      + DefinitionsFrom(if n < |t| then t[n + 1..] else [], LineState(l, s))
  }

  /** What stands behind the first line. */
  ghost function RestOf(t: Text): (r: Text)
    ensures t != [] ==> |r| < |t|
  {
    if LineEnd(t) < |t| then t[LineEnd(t) + 1..] else []
  }

  /**
   * A line the collector passes over changes nothing it should know of: outside a fence it neither
   * opens one nor is a definition, inside a fence it does not close it.
   */
  ghost predicate PassedOverSafely(l: Text, s: State) {
    if s.fence.Some? then !Closes(FenceOf(l), s.fence.value) else FenceOf(l).None? && !IsDefinition(DropCr(l))
  }

  /** Every line too long for the line buffer may be passed over. */
  ghost predicate LongLinesHarmless(t: Text, s: State)
    decreases |t|
  {
    t == [] ||
    ((LineEnd(t) >= 256 ==> PassedOverSafely(t[..LineEnd(t)], s)) &&
     LongLinesHarmless(RestOf(t), LineState(t[..LineEnd(t)], s)))
  }

  /** No line too long for the line buffer looks like a fence. */
  ghost predicate NoLongFence(t: Text)
    decreases |t|
  {
    t == [] || ((LineEnd(t) >= 256 ==> FenceOf(t[..LineEnd(t)]).None?) && NoLongFence(RestOf(t)))
  }

  lemma {:induction false} SpacesOfPrefix(l: Text, n: nat)
    requires n < |l| && l[n] == CR
    ensures Spaces(l[..n]) == Spaces(l)
    ensures Spaces(l) <= n
  {
    if n > 0 && l[0] == SPACE {
      assert l[..n][1..] == l[1..][..n - 1];
      SpacesOfPrefix(l[1..], n - 1);
    }
  }

  lemma {:induction false} RunOfPrefix(l: Text, n: nat, i: nat, ch: byte)
    requires i <= n < |l| && l[n] == CR && ch != CR
    ensures RunAt(l[..n], i, ch) == RunAt(l, i, ch)
    decreases n - i
  {
    if i < n { RunOfPrefix(l, n, i + 1, ch); }
  }

  lemma FenceIgnoresCr(l: Text)
    ensures FenceOf(DropCr(l)) == FenceOf(l)
  {
    hide Spaces, RunAt;
    if l != [] && l[|l| - 1] == CR {
      var n := |l| - 1;
      var i := Spaces(l);
      SpacesOfPrefix(l, n);
      if i < n && l[i] != CR { RunOfPrefix(l, n, i, l[i]); }
    }
  }

  /** One line of the collection. */
  lemma RefsUnfold(t: Text, fence: Option<Fence>)
    requires t != []
    ensures var l := NextLine(t); var f := FenceOf(l.text);
      RefsFrom(t, fence) ==
        if l.cut then RefsFrom(l.rest, fence)
        else
          (if fence.None? && f.None? && IsDefinition(l.text) then [l.text] else [])
          + RefsFrom(l.rest, if fence.Some? then (if Closes(f, fence.value) then None else fence) else f)
  {
    hide NextLine, FenceOf, IsDefinition;
    var l := NextLine(t);
    var r := RefsFrom(l.rest, None);
    assert forall f :: [] + RefsFrom(l.rest, f) == RefsFrom(l.rest, f);
  }

  lemma FittingLine(t: Text)
    requires t != []
    ensures var l := NextLine(t);
      l.rest == RestOf(t) && (l.cut <==> LineEnd(t) >= M.LINE_MAX) &&
      (!l.cut ==> l.text == DropCr(t[..LineEnd(t)]))
  {
  }

  /** The definition a line is, if it is one. */
  ghost function DefinedBy(l: Text, s: State): seq<Text> {
    if s.fence.None? && FenceOf(l).None? && IsDefinition(DropCr(l)) then [DropCr(l)] else []
  }

  lemma DefinitionsUnfold(t: Text, s: State)
    requires t != []
    ensures var l := t[..LineEnd(t)];
      DefinitionsFrom(t, s) == DefinedBy(l, s) + DefinitionsFrom(RestOf(t), LineState(l, s))
  {
    hide FenceOf, IsDefinition, LineState, LineEnd;
  }

  /** One line of the collection, for a collector that knows the state. */
  lemma CollectorStep(t: Text, s: State)
    requires t != []
    ensures var l := t[..LineEnd(t)];
      RefsFrom(t, s.fence) ==
        if LineEnd(t) >= M.LINE_MAX then RefsFrom(RestOf(t), s.fence)
        else DefinedBy(l, s) + RefsFrom(RestOf(t), LineState(l, s).fence)
  {
    hide FenceOf, IsDefinition, BlankLine, LineEnd, NextLine, RefsFrom, RestOf;
    var l := t[..LineEnd(t)];
    FenceIgnoresCr(l);
    FittingLine(t);
    RefsUnfold(t, s.fence);
  }

  /** What may be passed over defines nothing and leaves the fence as it is. */
  lemma PassingIsSafe(l: Text, s: State)
    requires PassedOverSafely(l, s)
    ensures DefinedBy(l, s) == [] && LineState(l, s).fence == s.fence
  {
    hide FenceOf, IsDefinition, BlankLine;
  }

  /** Where long lines may be passed over, exactly the definitions outside fences are carried. */
  lemma {:induction false} CarriesDefinitions(t: Text, s: State)
    requires LongLinesHarmless(t, s)
    ensures RefsFrom(t, s.fence) == DefinitionsFrom(t, s)
    decreases |t|
  {
    hide LineState, DefinedBy, PassedOverSafely, LineEnd, RefsFrom, DefinitionsFrom;
    if t != [] {
      var l := t[..LineEnd(t)];
      CollectorStep(t, s);
      DefinitionsUnfold(t, s);
      CarriesDefinitions(RestOf(t), LineState(l, s));
      if LineEnd(t) >= M.LINE_MAX {
        PassingIsSafe(l, s);
        assert [] + DefinitionsFrom(RestOf(t), LineState(l, s)) == DefinitionsFrom(RestOf(t), LineState(l, s));
      }
    } else {
      NoRefs(s.fence);
      NoDefinitions(s);
    }
  }

  /** A long line that is no fence is unsafe to pass over exactly when it defines something. */
  lemma NoFenceIsSafe(l: Text, s: State)
    requires FenceOf(l).None?
    ensures LineState(l, s).fence == s.fence && |DefinedBy(l, s)| <= 1
    ensures PassedOverSafely(l, s) <==> DefinedBy(l, s) == []
  {
    hide FenceOf, IsDefinition, BlankLine;
  }

  /** Without long fences, what is carried is what is defined but for the long definitions. */
  lemma {:induction false} LongDefinitionsAreLost(t: Text, s: State)
    requires NoLongFence(t)
    ensures |RefsFrom(t, s.fence)| <= |DefinitionsFrom(t, s)|
    ensures |RefsFrom(t, s.fence)| == |DefinitionsFrom(t, s)| ==> LongLinesHarmless(t, s)
    decreases |t|
  {
    hide LineState, DefinedBy, PassedOverSafely, LineEnd, RefsFrom, DefinitionsFrom, FenceOf, RestOf;
    if t != [] {
      var l := t[..LineEnd(t)];
      CollectorStep(t, s);
      DefinitionsUnfold(t, s);
      LongDefinitionsAreLost(RestOf(t), LineState(l, s));
      if LineEnd(t) >= M.LINE_MAX { NoFenceIsSafe(l, s); }
    } else {
      NoRefs(s.fence);
      NoDefinitions(s);
    }
  }

  /** In a document without long fences, exactly when no long line is a definition outside a fence. */
  lemma CarriesExactly(t: Text, s: State)
    requires NoLongFence(t)
    ensures RefsFrom(t, s.fence) == DefinitionsFrom(t, s) <==> LongLinesHarmless(t, s)
  {
    hide LongLinesHarmless, RefsFrom, DefinitionsFrom, NoLongFence;
    LongDefinitionsAreLost(t, s);
    if LongLinesHarmless(t, s) { CarriesDefinitions(t, s); }
  }

  /** The lines up to `p` and then a definition: what is defined in them is what is carried. */
  ghost predicate RightBehind(t: Text, s: State, p: nat)
    requires p <= |t|
  {
    RefsFrom(t[..p] + (DEFINITION + [LF]), s.fence) == DefinitionsFrom(t[..p] + (DEFINITION + [LF]), s)
  }

  lemma HarmlessLine(l: Text, rest: Text, s: State)
    requires LF !in l
    ensures LongLinesHarmless(l + [LF] + rest, s) <==>
      (|l| >= M.LINE_MAX ==> PassedOverSafely(l, s)) && LongLinesHarmless(rest, LineState(l, s))
  {
    hide PassedOverSafely, LineState;
    FrontLine(l, rest);
  }

  /** A text taken apart behind its first line. */
  lemma FrontLine(l: Text, rest: Text)
    requires LF !in l
    ensures var t := l + [LF] + rest; LineEnd(t) == |l| && t[..LineEnd(t)] == l && RestOf(t) == rest && t != []
  {
    LineEndIs(l, rest);
    var t := l + [LF] + rest;
    assert t[..|l|] == l && t[|l| + 1..] == rest;
  }

  /** Taking the lines up to `p` of a text that has a first line. */
  lemma TakeLines(l: Text, rest: Text, p: nat, u: Text)
    requires LF !in l && p <= |rest|
    ensures var t := l + [LF] + rest; t[..|l| + 1 + p] + u == l + [LF] + (rest[..p] + u)
    ensures LineStart(l + [LF] + rest, |l| + 1 + p) <==> LineStart(rest, p)
  {
    var t := l + [LF] + rest;
    assert t[..|l| + 1 + p] == l + [LF] + rest[..p];
  }

  lemma WholeFirstLine(t: Text)
    requires t != [] && t[|t| - 1] == LF
    ensures var l := t[..LineEnd(t)];
      LF !in l && LineEnd(t) < |t| && t == l + [LF] + RestOf(t) && (RestOf(t) == [] || RestOf(t)[|RestOf(t)| - 1] == LF)
  {
    hide LineEnd;
    LineBreakIn(t);
    var n := LineEnd(t);
    assert t == t[..n] + [LF] + t[n + 1..];
  }

  /** One line more in front. */
  lemma RightBehindLine(l: Text, rest: Text, s: State, p: nat)
    requires LF !in l && p <= |rest|
    requires |l| >= M.LINE_MAX ==> PassedOverSafely(l, s)
    ensures RightBehind(l + [LF] + rest, s, |l| + 1 + p) <==> RightBehind(rest, LineState(l, s), p)
  {
    hide LineState, DefinedBy, PassedOverSafely, LineEnd, RefsFrom, DefinitionsFrom, RestOf;
    var d := DEFINITION + [LF];
    var more := rest[..p] + d;
    var t := l + [LF] + more;
    TakeLines(l, rest, p, d);
    FrontLine(l, more);
    CollectorStep(t, s);
    DefinitionsUnfold(t, s);
    if |l| >= M.LINE_MAX {
      PassingIsSafe(l, s);
      assert [] + DefinitionsFrom(more, LineState(l, s)) == DefinitionsFrom(more, LineState(l, s));
    } else {
      var x := DefinedBy(l, s);
      var a, b := RefsFrom(more, LineState(l, s).fence), DefinitionsFrom(more, LineState(l, s));
      assert (x + a)[|x|..] == a && (x + b)[|x|..] == b;
    }
  }

  /** A definition alone is carried, and defined, outside a fence only. */
  lemma DefinitionAlone(s: State)
    ensures RefsFrom(DEFINITION + [LF] + [], s.fence) == DefinitionsFrom(DEFINITION + [LF] + [], s)
    ensures DefinitionsFrom(DEFINITION + [LF] + [], s) == if s.fence.None? then [DEFINITION] else []
  {
    DefinitionLine();
    hide FenceOf, IsDefinition, LineState, RefsFrom, DefinitionsFrom, LineEnd, RestOf;
    FrontLine(DEFINITION, []);
    CollectorStep(DEFINITION + [LF] + [], s);
    DefinitionsUnfold(DEFINITION + [LF] + [], s);
    NoRefs(LineState(DEFINITION, s).fence);
    NoDefinitions(LineState(DEFINITION, s));
  }

  /** Passing over a line that matters shows in a definition behind it. */
  lemma UnsafeShows(l: Text, rest: Text, s: State)
    requires LF !in l && |l| >= M.LINE_MAX && !PassedOverSafely(l, s)
    ensures !RightBehind(l + [LF] + rest, s, |l| + 1)
  {
    hide LineEnd, RefsFrom, DefinitionsFrom, RestOf, FenceOf, IsDefinition, BlankLine, DropCr;
    var d := DEFINITION + [LF] + [];
    TakeLines(l, rest, 0, DEFINITION + [LF]);
    assert rest[..0] + (DEFINITION + [LF]) == d;
    FrontLine(l, d);
    CollectorStep(l + [LF] + d, s);
    DefinitionsUnfold(l + [LF] + d, s);
    DefinitionAlone(s);
    DefinitionAlone(LineState(l, s));
  }

  /**
   * Exactly when every long line may be passed over, a definition that is put behind any line of the
   * document is carried as it should be, and so are all before it.
   */
  lemma {:induction false} CarriesBehindEveryLine(t: Text, s: State)
    requires t == [] || t[|t| - 1] == LF
    ensures (forall p :: 0 <= p <= |t| && LineStart(t, p) ==> RightBehind(t, s, p)) <==> LongLinesHarmless(t, s)
    decreases |t|
  {
    hide LineState, PassedOverSafely, LineEnd, RestOf, RightBehind, LongLinesHarmless;
    NothingHarms(s);
    RightAtStart(t, s);
    if t != [] {
      var l, rest := t[..LineEnd(t)], RestOf(t);
      WholeFirstLine(t);
      HarmlessLine(l, rest, s);
      var next := LineState(l, s);
      CarriesBehindEveryLine(rest, next);
      if |l| >= M.LINE_MAX && !PassedOverSafely(l, s) {
        UnsafeShows(l, rest, s);
        TakeLines(l, rest, 0, []);
      } else {
        forall p | 0 <= p <= |rest| && LineStart(rest, p)
          ensures LineStart(t, |l| + 1 + p) && (RightBehind(t, s, |l| + 1 + p) <==> RightBehind(rest, next, p))
        {
          TakeLines(l, rest, p, []);
          RightBehindLine(l, rest, s, p);
        }
        forall p | 0 <= p <= |t| && LineStart(t, p) ensures p == 0 || (p > |l| && LineStart(rest, p - |l| - 1)) {
          if p > 0 { LinesStartAfter(l, rest, p); }
        }
      }
    }
  }

  lemma LinesStartAfter(l: Text, rest: Text, p: nat)
    requires LF !in l && 0 < p <= |l| + 1 + |rest| && LineStart(l + [LF] + rest, p)
    ensures p > |l| && LineStart(rest, p - |l| - 1)
  {
    var t := l + [LF] + rest;
    assert forall k :: 0 <= k < |l| ==> t[k] == l[k] && t[k] != LF;
  }

  lemma NothingHarms(s: State)
    ensures LongLinesHarmless([], s)
  {
  }

  lemma RightAtStart(t: Text, s: State)
    ensures RightBehind(t, s, 0)
  {
    assert t[..0] + (DEFINITION + [LF]) == DEFINITION + [LF] + [];
    DefinitionAlone(s);
  }

  method FindClose(l: Text, from: nat) returns (close: Option<nat>)
    ensures close == CloseAt(l, from)
  {
    var i := from;
    while i < |l|
      invariant CloseAt(l, from) == CloseAt(l, i)
    {
      if l[i] == BACKSLASH {
        i := i + 2;
        continue;
      }
      if l[i] == RBRACKET {
        return Some(i);
      }
      i := i + 1;
    }
    close := None;
  }

  method LooksLikeDefinition(l: Text) returns (r: bool)
    ensures r <==> IsDefinition(l)
  {
    hide Spaces, CloseAt;
    var i := CountSpaces(l);
    if i > 3 || i >= |l| || l[i] != LBRACKET {
      return false;
    }
    var close := FindClose(l, i + 1);
    r := close.Some? && close.value + 1 < |l| && l[close.value + 1] == COLON;
  }

  lemma {:induction false} JoinSnoc(ls: seq<Text>, l: Text)
    ensures JoinLines(ls + [l]) == JoinLines(ls) + l + [LF]
  {
    if ls == [] {
      assert [l][1..] == [] && ls + [l] == [l];
    } else {
      assert (ls + [l])[1..] == ls[1..] + [l];
      JoinSnoc(ls[1..], l);
    }
  }

  lemma {:induction false} JoinGrows(a: seq<Text>, b: seq<Text>)
    ensures |JoinLines(a)| <= |JoinLines(a + b)|
  {
    if a != [] {
      assert (a + b)[1..] == a[1..] + b;
      JoinGrows(a[1..], b);
    }
  }

  /** Copying one line with its line end to the free part of the buffer. */
  method AppendLine(buffer: array<byte>, used: nat, l: Text)
    requires used + |l| + 1 <= buffer.Length
    modifies buffer
    ensures buffer[..used + |l| + 1] == old(buffer[..used]) + l + [LF]
  {
    for i := 0 to |l|
      invariant buffer[..used + i] == old(buffer[..used]) + l[..i]
    {
      buffer[used + i] := l[i];
    }
    assert l[..|l|] == l;
    buffer[used + |l|] := LF;
  }

  /** One line of `mm_collect_refs`: the fence after it, and whether it is carried. */
  method JudgeLine(l: Text, fence: Option<Fence>) returns (next: Option<Fence>, carried: bool)
    ensures next == if fence.Some? then (if Closes(FenceOf(l), fence.value) then None else fence) else FenceOf(l)
    ensures carried <==> fence.None? && FenceOf(l).None? && IsDefinition(l)
  {
    hide FenceOf, IsDefinition;
    var f := FindFence(l);
    if fence.Some? {
      return if Closes(f, fence.value) then None else fence, false;
    }
    next, carried := f, false;
    if f.None? {
      carried := LooksLikeDefinition(l);
    }
  }

  /** The line loop of `mm_collect_refs`. */
  method GatherRefs(c: Cursor, buffer: array<byte>) returns (st: Status, used: nat, ghost refs: seq<Text>)
    requires c.Valid() && buffer != c.buf
    modifies c, c.buf, buffer
    ensures refs == RefsFrom(old(c.Rest()), None)
    ensures st == if |JoinLines(refs)| > buffer.Length then E_RANGE else OK
    ensures st == OK ==> used <= buffer.Length && buffer[..used] == JoinLines(refs)
  {
    hide NextLine, FenceOf, IsDefinition, RefsFrom, JoinLines, Cursor.Valid, Cursor.Rest;
    var line := new byte[M.LINE_MAX];
    var fence: Option<Fence> := None;
    used := 0;
    refs := RefsFrom(c.Rest(), None);
    ghost var got: seq<Text> := [];
    NothingJoined();
    assert got + RefsFrom(c.Rest(), None) == refs;
    while true
      invariant c.Valid() && used <= buffer.Length && buffer[..used] == JoinLines(got)
      invariant got + RefsFrom(c.Rest(), fence) == refs
      decreases |c.Rest()|
    {
      ghost var t := c.Rest();
      NoRefs(fence);
      var status, len, cut := ReadLine(c, line);
      if status == E_NOT_FOUND {
        assert got + [] == got;
        return OK, used, refs;
      }
      RefsUnfold(t, fence);
      if cut {
        continue;
      }
      var l := line[..len];
      var next, carried := JudgeLine(l, fence);
      ghost var more := RefsFrom(c.Rest(), next);
      if carried {
        OneMore(got, l, more);
        if used + len + 1 > buffer.Length {
          return E_RANGE, used, refs;
        }
        AppendLine(buffer, used, l);
        used := used + len + 1;
        got := got + [l];
      } else {
        assert [] + more == more;
      }
      fence := next;
    }
  }

  /** A line that is carried, and what that does to the space that is needed. */
  lemma OneMore(got: seq<Text>, l: Text, more: seq<Text>)
    ensures got + ([l] + more) == (got + [l]) + more
    ensures JoinLines(got + [l]) == JoinLines(got) + l + [LF]
    ensures |JoinLines(got)| + |l| + 1 <= |JoinLines((got + [l]) + more)|
  {
    hide JoinLines;
    JoinSnoc(got, l);
    JoinGrows(got + [l], more);
  }

  lemma NothingJoined()
    ensures JoinLines([]) == []
  {
  }

  lemma NoRefs(fence: Option<Fence>)
    ensures RefsFrom([], fence) == []
  {
  }

  lemma JoinedNotEmpty(ls: seq<Text>)
    ensures JoinLines(ls) == [] <==> ls == []
  {
  }

  /** `mm_collect_refs`. */
  method CollectRefs(c: Cursor, buffer: array<byte>) returns (st: Status, used: nat)
    requires c.Valid() && buffer != c.buf
    modifies c, c.buf, buffer
    ensures st == if |Prefix(old(c.Rest()))| > buffer.Length then E_RANGE else OK
    ensures st == OK ==> used <= buffer.Length && buffer[..used] == Prefix(old(c.Rest()))
  {
    hide RefsFrom, JoinLines;
    ghost var refs;
    st, used, refs := GatherRefs(c, buffer);
    JoinedNotEmpty(refs);
    if st != OK {
      return;
    }
    if used > 0 {
      if used + 1 > buffer.Length {
        return E_RANGE, used;
      }
      buffer[used] := LF;
      used := used + 1;
    }
  }

  /** Text in front of the rest of a document, one line of it. */
  lemma DefinitionsOfLine(l: Text, rest: Text, s: State)
    requires LF !in l
    ensures DefinitionsFrom(l + [LF] + rest, s) ==
      (if s.fence.None? && FenceOf(l).None? && IsDefinition(DropCr(l)) then [DropCr(l)] else [])
      + DefinitionsFrom(rest, LineState(l, s))
  {
    hide FenceOf, IsDefinition, LineState;
    var t := l + [LF] + rest;
    LineEndIs(l, rest);
    assert t[..|l|] == l && t[|l| + 1..] == rest;
  }

  const DEFINITION: Text := [LBRACKET, 0x61, RBRACKET, COLON, SPACE, 0x62]

  ghost function LongFence(): Text {
    TICKS + Repeat(0x78, M.LINE_MAX)
  }

  /** A fence opened by a line too long for the line buffer, closed, and then a definition. */
  ghost function Derailed(): Text {
    LongFence() + [LF] + (TICKS + [LF] + (DEFINITION + [LF] + []))
  }

  lemma DefinitionLine()
    ensures LF !in DEFINITION && IsDefinition(DEFINITION) && FenceOf(DEFINITION).None? && DropCr(DEFINITION) == DEFINITION
  {
    SpacesIs(DEFINITION, 0);
    assert CloseAt(DEFINITION, 2) == Some(2) && CloseAt(DEFINITION, 1) == Some(2);
  }

  lemma LongFenceLine()
    ensures LF !in LongFence() && FenceOf(LongFence()) == Some(Fence(BACKTICK, 3)) && |LongFence()| >= M.LINE_MAX
    ensures LongFence()[|LongFence()| - 1] != CR
  {
    var l := LongFence();
    SpacesIs(l, 0);
    assert l[3] == 0x78;
    assert RunAt(l, 3, BACKTICK) == 0 && RunAt(l, 2, BACKTICK) == 1 && RunAt(l, 1, BACKTICK) == 2;
  }

  /** The collector takes the closing fence for an opening one, and the definition is lost. */
  lemma LongFenceHidesDefinition()
    ensures DefinitionsFrom(Derailed(), START) == [DEFINITION] && RefsFrom(Derailed(), None) == []
  {
    DefinitionLine();
    LongFenceLine();
    SmallLines();
    hide FenceOf, IsDefinition, LongFence, RefsFrom, StartsTop, BlankLine, NextLine;
    DerailedDefinitions();
    DerailedRefs();
  }

  ghost function LongDefinition(): Text {
    DEFINITION + Repeat(0x78, M.LINE_MAX)
  }

  /** A definition too long for the line buffer is not carried at all. */
  lemma LongDefinitionIsLost()
    ensures var t := LongDefinition() + [LF] + [];
      DefinitionsFrom(t, START) == [LongDefinition()] && RefsFrom(t, None) == []
  {
    LongDefinitionLine();
    hide FenceOf, IsDefinition, LineState, RefsFrom, DefinitionsFrom, LineEnd, RestOf, LongDefinition;
    var l := LongDefinition();
    FrontLine(l, []);
    CollectorStep(l + [LF] + [], START);
    DefinitionsUnfold(l + [LF] + [], START);
    NoRefs(None);
    NoDefinitions(LineState(l, START));
  }

  lemma LongDefinitionLine()
    ensures var l := LongDefinition();
      LF !in l && IsDefinition(l) && FenceOf(l).None? && DropCr(l) == l && |l| >= M.LINE_MAX
  {
    var l := LongDefinition();
    SpacesIs(l, 0);
    assert CloseAt(l, 2) == Some(2) && CloseAt(l, 1) == Some(2);
    assert l[|l| - 1] == 0x78;
  }

  lemma DerailedDefinitions()
    ensures DefinitionsFrom(Derailed(), START) == [DEFINITION]
  {
    DefinitionLine();
    LongFenceLine();
    SmallLines();
    hide FenceOf, IsDefinition, LongFence, BlankLine, DefinitionsFrom, StartsTop;
    var rest := DEFINITION + [LF] + [];
    var mid := TICKS + [LF] + rest;
    DefinitionsOfLine(LongFence(), mid, START);
    DefinitionsOfLine(TICKS, rest, State(Some(Fence(BACKTICK, 3)), false));
    DefinitionsOfLine(DEFINITION, [], START);
    NoDefinitions(LineState(DEFINITION, START));
    assert [DEFINITION] + [] == [DEFINITION];
  }

  lemma NoDefinitions(s: State)
    ensures DefinitionsFrom([], s) == []
  {
  }

  lemma DerailedRefs()
    ensures RefsFrom(Derailed(), None) == []
  {
    DefinitionLine();
    LongFenceLine();
    SmallLines();
    hide FenceOf, IsDefinition, LongFence, BlankLine, RefsFrom, StartsTop, NextLine;
    var l1: Text, l2: Text, l3: Text := LongFence(), TICKS, DEFINITION;
    var t2, t3 := JoinLines([l2] + [l3]), JoinLines([l3] + []);
    assert [l3] + [] == [l3];
    NothingJoined();
    assert |[l3][1..]| == 0 && ([l2] + [l3])[1..] == [l3] && ([l1] + ([l2] + [l3]))[1..] == [l2] + [l3];
    assert t3 == l3 + [LF] + [];
    assert t2 == l2 + [LF] + t3;
    assert Derailed() == JoinLines([l1] + ([l2] + [l3]));
    NextLongLine(l1, [l2] + [l3]);
    LongRest(l1, t2);
    NextWrittenLine(l2, [l3]);
    NextWrittenLine(l3, []);
    RefsUnfold(Derailed(), None);
    RefsUnfold(t2, None);
    RefsUnfold(t3, Some(Fence(BACKTICK, 3)));
    NoRefs(if Closes(FenceOf(l3), Fence(BACKTICK, 3)) then None else Some(Fence(BACKTICK, 3)));
  }

  lemma LongRest(l: Text, rest: Text)
    requires LF !in l
    ensures NextLine(l + [LF] + rest).rest == rest
  {
    LineEndIs(l, rest);
    assert (l + [LF] + rest)[|l| + 1..] == rest;
  }

  // ------------------------------------------------------------ the walk

  /** One call of the parser: the document's own bytes in it, and whether it opens and closes the document. */
  datatype Window = Window(text: Text, opens: bool, closes: bool)

  ghost function Handed(ws: seq<Window>): Text {
    if ws == [] then [] else Handed(ws[..|ws| - 1]) + ws[|ws| - 1].text
  }

  /** What the windows handed to the parser amount to when the walk stands at `at`. */
  ghost predicate Covers(doc: Text, ws: seq<Window>, at: nat) {
    if ws == [] then at == 0
    else
      var w := ws[|ws| - 1];
      var from := at - |w.text|;
      0 < |w.text| <= at <= |doc| && w.text == doc[from..at] &&
      (w.opens <==> from == 0) && (w.closes <==> at == |doc|) &&
      (at == |doc| || Boundary(doc, at)) &&
      Covers(doc, ws[..|ws| - 1], from)
  }

  /** The windows are the document so far, cut at boundaries; it is opened once and closed at most once. */
  lemma {:induction false} CoversAll(doc: Text, ws: seq<Window>, at: nat)
    requires Covers(doc, ws, at)
    ensures at <= |doc| && Handed(ws) == doc[..at]
    ensures forall k :: 0 <= k < |ws| ==> (ws[k].opens <==> k == 0) && (ws[k].closes <==> k == |ws| - 1 && at == |doc|)
    ensures forall k :: 0 < k < |ws| ==> Boundary(doc, |Handed(ws[..k])|)
    decreases |ws|
  {
    hide Boundary;
    if ws != [] {
      var n := |ws| - 1;
      var before, from := ws[..n], at - |ws[n].text|;
      CoversAll(doc, before, from);
      assert doc[..at] == doc[..from] + doc[from..at];
      forall k | 0 <= k < |ws|
        ensures (ws[k].opens <==> k == 0) && (ws[k].closes <==> k == n && at == |doc|)
      {
        if k < n { assert ws[k] == before[k]; }
      }
      forall k | 0 < k < |ws| ensures Boundary(doc, |Handed(ws[..k])|) {
        if k < n { assert ws[..k] == before[..k]; } else { assert ws[..k] == before; }
      }
    }
  }

  /** `mcdf_micro_render_iter`. */
  class Iter {
    const content: Text
    const buffer: array<byte>
    const prefixLen: nat
    var at: nat
    ghost const prefix: Text
    ghost var handed: seq<Window>

    ghost predicate Valid()
      reads this, buffer
    {
      && prefixLen + 1 < buffer.Length && buffer[..prefixLen] == prefix
      && at <= |content| && Covers(content, handed, at)
    }

    constructor (content: Text, buffer: array<byte>, prefixLen: nat)
      requires prefixLen + 1 < buffer.Length
      ensures Valid() && at == 0 && handed == [] && this.content == content && this.buffer == buffer
      ensures this.prefixLen == prefixLen && prefix == buffer[..prefixLen]
    {
      this.content, this.buffer, this.prefixLen, at := content, buffer, prefixLen, 0;
      prefix, handed := buffer[..prefixLen], [];
    }

    /** The bytes of the next window, read behind the carried definitions. */
    method ReadWindow(want: nat)
      requires Valid() && at + want <= |content| && prefixLen + want <= buffer.Length
      modifies buffer
      ensures Valid()
      ensures buffer[prefixLen..prefixLen + want] == content[at..at + want]
    {
      for i := 0 to want
        invariant buffer[..prefixLen] == prefix
        invariant buffer[prefixLen..prefixLen + i] == content[at..at + i]
      {
        buffer[prefixLen + i] := content[at + i];
      }
    }

    /** How much the buffer can take of what remains. */
    ghost function Want(): nat
      reads this, buffer
      requires Valid()
    {
      if |content| - at < buffer.Length - prefixLen then |content| - at else buffer.Length - prefixLen
    }

    /**
     * `mcdf_micro_render_next`: a window that ends where `mm_window_end` says is parsed behind the
     * carried definitions. E_RANGE without a parse exactly when there is no place to cut.
     */
    method Next(parse: (Text, bool, bool) -> Status) returns (st: Status, done: bool, ghost end: nat)
      requires Valid()
      modifies this, buffer
      ensures Valid()
      ensures old(at) == |content| ==> st == OK && done && at == old(at) && handed == old(handed)
      ensures old(at) < |content| ==>
        var from, want := old(at), old(Want());
        var w := content[from..from + want];
        var tail := want == |content| - from;
        IsWindowEnd(w, tail, end) && end <= want &&
        (end == 0 <==> !tail && forall q :: 0 < q < want ==> !Candidate(w, q)) &&
        st == (if end == 0 then E_RANGE else parse(prefix + w[..end], from != 0, from + end < |content|)) &&
        at == (if end > 0 && st == OK then from + end else from) &&
        handed == (if end > 0 && st == OK then old(handed) + [Window(w[..end], from == 0, at == |content|)] else old(handed)) &&
        (done <==> end > 0 && st == OK && at == |content|)
    {
      hide Candidate, Covers;
      done, end := false, 0;
      if at >= |content| {
        return OK, true, 0;
      }
      var room, remain := buffer.Length - prefixLen, |content| - at;
      var want := if remain < room then remain else room;
      var isTail := want == remain;
      ReadWindow(want);
      var w := buffer[prefixLen..prefixLen + want];
      var cut := WindowEnd(w, isTail);
      end := cut;
      if cut == 0 {
        return E_RANGE, false, 0;
      }
      CutInside(w, isTail, cut);
      WindowBehind(buffer[..], prefixLen, want, cut);
      assert buffer[..][..prefixLen] == prefix && buffer[..prefixLen + cut] == buffer[..][..prefixLen + cut];
      st := parse(buffer[..prefixLen + cut], at != 0, at + cut < |content|);
      if st != OK {
        return;
      }
      var window := Window(w[..cut], at == 0, at + cut >= |content|);
      NextCovers(content, handed, at, want, isTail, cut, window);
      handed := handed + [window];
      at := at + cut;
      done := at >= |content|;
    }
  }

  lemma WindowBehind(b: Text, n: nat, want: nat, cut: nat)
    requires n + want <= |b| && cut <= want
    ensures b[..n + cut] == b[..n] + b[n..n + want][..cut]
  {
    FrontOfWindow(b, n, want, cut);
  }

  lemma FrontOfWindow(doc: Text, at: nat, want: nat, cut: nat)
    requires at + want <= |doc| && cut <= want
    ensures doc[at..at + want][..cut] == doc[at..at + cut]
  {
    var w := doc[at..at + want];
    assert forall k :: 0 <= k < cut ==> w[k] == doc[at + k];
  }

  lemma CutInside(w: Text, isTail: bool, cut: nat)
    requires IsWindowEnd(w, isTail, cut)
    ensures cut <= |w| && (!isTail && cut > 0 ==> cut < |w| && Candidate(w, cut))
  {
  }

  lemma NextCovers(doc: Text, ws: seq<Window>, at: nat, want: nat, isTail: bool, cut: nat, window: Window)
    requires Covers(doc, ws, at) && at < |doc| && 0 < want && at + want <= |doc| && (isTail <==> at + want == |doc|)
    requires IsWindowEnd(doc[at..at + want], isTail, cut) && 0 < cut <= want
    requires window == Window(doc[at..at + want][..cut], at == 0, at + cut >= |doc|)
    ensures Covers(doc, ws + [window], at + cut)
  {
    hide Candidate, Boundary;
    var all := ws + [window];
    assert all[..|all| - 1] == ws;
    FrontOfWindow(doc, at, want, cut);
    if !isTail {
      AtBoundary(doc, ws, at);
      CutInside(doc[at..at + want], isTail, cut);
      CutsAreBoundaries(doc, at, want, cut);
      BoundaryInside(doc, at + cut);
    }
  }

  lemma BoundaryInside(doc: Text, p: nat)
    requires Boundary(doc, p)
    ensures p < |doc|
  {
  }

  lemma AtBoundary(doc: Text, ws: seq<Window>, at: nat)
    requires Covers(doc, ws, at) && at < |doc|
    ensures at == 0 || Boundary(doc, at)
  {
  }

  /** The loop every caller writes: windows until the walk is done. */
  method DrawAll(it: Iter, parse: (Text, bool, bool) -> Status) returns (st: Status)
    requires it.Valid() && it.at == 0 && it.handed == []
    modifies it, it.buffer
    ensures it.Valid()
    ensures st == OK ==> it.at == |it.content| && Handed(it.handed) == it.content
    ensures st == OK ==> forall k :: 0 <= k < |it.handed| ==>
      (it.handed[k].opens <==> k == 0) && (it.handed[k].closes <==> k == |it.handed| - 1)
    ensures st != OK ==> Handed(it.handed) == it.content[..it.at]
    ensures forall k :: 0 < k < |it.handed| ==> Boundary(it.content, |Handed(it.handed[..k])|)
  {
    hide Covers, Boundary;
    st := OK;
    var done := false;
    while st == OK && !done
      invariant it.Valid() && (done && st == OK ==> it.at == |it.content|)
      decreases |it.content| - it.at, !done, st == OK
    {
      ghost var end;
      st, done, end := it.Next(parse);
    }
    CoversAll(it.content, it.handed, it.at);
    assert it.content[..|it.content|] == it.content;
  }


  ghost predicate SealedBy(policy: Option<Text>, path: Text) {
    policy.Some? && Policy.SealedFrom(policy.value, path, false)
  }

  method ContentIsSealed(r: Reader) returns (sealed: bool)
    requires r.Valid()
    ensures sealed <==> SealedBy(MemberOf(r, POLICY), CONTENT)
  {
    hide Policy.SealedFrom, M.Ascii;
    sealed := Policy.IsSealed(r, CONTENT);
  }

  method OpenContent(r: Reader) returns (c: Cursor?)
    requires r.Valid()
    ensures c == null <==> MemberOf(r, CONTENT).None?
    ensures c != null ==> fresh(c) && fresh(c.buf) && c.Valid() && c.Rest() == MemberOf(r, CONTENT).value
  {
    hide M.Ascii;
    c := OpenCursor(r, CONTENT);
  }

  /** `mcdf_micro_render_begin`: a sealed document is refused before anything is read. */
  method Begin(r: Reader, buffer: array<byte>) returns (st: Status, it: Iter?)
    requires r.Valid() && buffer != r.arena
    modifies buffer
    ensures st == OK <==> it != null
    ensures it != null ==> fresh(it) && it.Valid() && it.at == 0 && it.handed == [] && it.buffer == buffer
    ensures st ==
      var content := old(MemberOf(r, CONTENT));
      if old(SealedBy(MemberOf(r, POLICY), CONTENT)) then E_CONTENT_SEALED
      else if content.None? then E_NOT_FOUND
      else if |content.value| > 0xFFFF_FFFF || |Prefix(content.value)| + 1 >= buffer.Length then E_RANGE
      else OK
    ensures it != null ==>
      Some(it.content) == old(MemberOf(r, CONTENT)) && it.prefix == Prefix(it.content)
  {
    hide Prefix, SealedBy, MemberOf, M.Ascii, Covers, Reader.Valid;
    it := null;
    var sealed := ContentIsSealed(r);
    if sealed {
      return E_CONTENT_SEALED, null;
    }
    var c := OpenContent(r);
    if c == null {
      return E_NOT_FOUND, null;
    }
    var content := WholeMember(c);
    if |content| > 0xFFFF_FFFF {
      return E_RANGE, null;
    }
    var used;
    st, used := CollectRefs(c, buffer);
    if st != OK {
      return;
    }
    if used + 1 >= buffer.Length {
      return E_RANGE, null;
    }
    it := new Iter(content, buffer, used);
  }

  method WholeMember(c: Cursor) returns (content: Text)
    requires c.Valid()
    ensures content == c.Rest()
  {
    content := c.src[c.start + c.pos..c.start + c.size];
  }
}
