/**
 * Heading anchors, judged by the bytes of their lines: what counts as a heading, of which level,
 * with which id.
 */
module AnchorLines {
  import opened Bytes
  import opened Json
  import opened Markup
  import opened Yaml
  import opened YamlCode
  import opened Anchors
  import opened AnchorWalk
  import opened Spelling
  import L = RenderLines
  import R = Render

  // ------------------------------------------------------------ ids

  ghost predicate Blanks(t: Text) {
    forall i :: 0 <= i < |t| ==> t[i] == 0x20 || t[i] == 0x09
  }

  ghost predicate IdText(id: Text) {
    id != [] && forall i :: 0 <= i < |id| ==>
      0x41 <= id[i] <= 0x5A || 0x61 <= id[i] <= 0x7A || 0x30 <= id[i] <= 0x39 || id[i] == 0x2E || id[i] == 0x5F || id[i] == 0x2D
  }

  /** What may follow an anchor: blanks, or blanks and a closing sequence of hashes and more blanks. */
  ghost predicate ClosingText(c: Text) {
    Blanks(c) || exists a: Text, k: nat, b: Text :: a != [] && Blanks(a) && k > 0 && Blanks(b) && c == a + Repeat(0x23, k) + b
  }

  /** A heading's text that ends in `{#id}`. */
  ghost predicate Anchored(t: Text, id: Text) {
    exists front: Text, c: Text :: ClosingText(c) && IdText(id) && t == front + ([0x7B, 0x23] + id + [0x7D]) + c
  }

  lemma {:induction false} TrimIs(t: Text, n: nat, m: nat)
    requires m <= n <= |t| && (forall i :: m <= i < n ==> Blank(t[i])) && (m > 0 ==> !Blank(t[m - 1]))
    ensures TrimTo(t, n) == m
    decreases n
  {
    if m < n { TrimIs(t, n - 1, m); }
  }

  lemma {:induction false} TrimAre(t: Text, n: nat)
    requires n <= |t|
    ensures forall i :: TrimTo(t, n) <= i < n ==> Blank(t[i])
    decreases n
  {
    if n > 0 && Blank(t[n - 1]) { TrimAre(t, n - 1); }
  }

  lemma {:induction false} HashesIs(t: Text, n: nat, m: nat)
    requires m <= n <= |t| && (forall i :: m <= i < n ==> t[i] == HASH) && (m > 0 ==> t[m - 1] != HASH)
    ensures HashesTo(t, n) == m
    decreases n
  {
    if m < n { HashesIs(t, n - 1, m); }
  }

  lemma {:induction false} HashesAre(t: Text, n: nat)
    requires n <= |t|
    ensures forall i :: HashesTo(t, n) <= i < n ==> t[i] == HASH
    decreases n
  {
    if n > 0 && t[n - 1] == HASH { HashesAre(t, n - 1); }
  }

  lemma {:induction false} IdIs(t: Text, open: nat, o: nat)
    requires 0 < o <= open <= |t| && t[o - 1] == HASH && forall i :: o <= i < open ==> IdByte(t[i])
    ensures IdStart(t, open) == Some(o)
    decreases open
  {
    if o < open { IdIs(t, open - 1, o); }
  }

  lemma {:induction false} IdsAre(t: Text, open: nat)
    requires open <= |t| && IdStart(t, open).Some?
    ensures forall i :: IdStart(t, open).value <= i < open ==> IdByte(t[i])
    decreases open
  {
    if t[open - 1] != HASH { IdsAre(t, open - 1); }
  }

  /** The text of a heading ends before what closes it. */
  lemma EndIs(t: Text, e: nat, c: Text)
    requires 0 < e <= |t| && t[e..] == c && t[e - 1] == 0x7D && ClosingText(c)
    ensures TextEnd(t) == e
  {
    hide TrimTo, HashesTo;
    if Blanks(c) {
      forall i | e <= i < |t| ensures Blank(t[i]) { assert t[i] == c[i - e]; }
      TrimIs(t, |t|, e);
      HashesIs(t, e, e);
    } else {
      var a: Text, k: nat, b: Text :| a != [] && Blanks(a) && k > 0 && Blanks(b) && c == a + Repeat(0x23, k) + b;
      EndBehindHashes(t, e, a, k, b);
    }
  }

  lemma EndBehindHashes(t: Text, e: nat, a: Text, k: nat, b: Text)
    requires 0 < e <= |t| && t[e..] == a + Repeat(0x23, k) + b && t[e - 1] == 0x7D
    requires a != [] && Blanks(a) && k > 0 && Blanks(b)
    ensures TextEnd(t) == e
  {
    hide TrimTo, HashesTo;
    var c := t[e..];
    var h, m := e + |a|, e + |a| + k;
    assert c[..|a|] == a && c[|a|..|a| + k] == Repeat(0x23, k) && c[|a| + k..] == b;
    forall i | e <= i < h ensures Blank(t[i]) { assert t[i] == c[..|a|][i - e]; }
    forall i | h <= i < m ensures t[i] == HASH { assert t[i] == c[|a|..|a| + k][i - h]; }
    forall i | m <= i < |t| ensures Blank(t[i]) { assert t[i] == c[|a| + k..][i - m]; }
    TrimIs(t, |t|, m);
    HashesIs(t, m, h);
    TrimIs(t, h, e);
  }

  /** What stands behind the end of the text closes the heading. */
  lemma EndCloses(t: Text)
    requires TextEnd(t) > 0
    ensures ClosingText(t[TextEnd(t)..])
  {
    hide TrimTo, HashesTo;
    var e := TrimTo(t, |t|);
    var h := HashesTo(t, e);
    TrimAre(t, |t|);
    HashesAre(t, e);
    assert Blanks(t[e..]);
    if h < e && (h == 0 || Blank(t[h - 1])) {
      var n := TrimTo(t, h);
      TrimAre(t, h);
      assert n == TextEnd(t);
      var a, b := t[n..h], t[e..];
      assert Blanks(a);
      assert a != [];
      assert t[h..e] == Repeat(0x23, e - h);
      assert t[n..] == a + t[h..e] + b;
      ClosesWith(t[n..], a, e - h, b);
    }
  }

  lemma ClosesWith(c: Text, a: Text, k: nat, b: Text)
    requires a != [] && Blanks(a) && k > 0 && Blanks(b) && c == a + Repeat(0x23, k) + b
    ensures ClosingText(c)
  {
  }

  /** An anchor is found exactly where one is spelled. */
  lemma AnchorExactly(t: Text, id: Text)
    ensures AnchorOf(t) == Some(id) <==> Anchored(t, id)
  {
    hide AnchorOf, ClosingText, IdText;
    if Anchored(t, id) {
      var front: Text, c: Text :| ClosingText(c) && IdText(id) && t == front + ([0x7B, 0x23] + id + [0x7D]) + c;
      AnchorIsFound(t, front, id, c);
    }
    if AnchorOf(t) == Some(id) { AnchorIsSpelled(t, id); }
  }

  lemma AnchorIsFound(t: Text, front: Text, id: Text, c: Text)
    requires ClosingText(c) && IdText(id) && t == front + ([0x7B, 0x23] + id + [0x7D]) + c
    ensures AnchorOf(t) == Some(id)
  {
    hide TextEnd, IdStart, ClosingText;
    var o := |front| + 2;
    var n := o + |id| + 1;
    assert t[o..n - 1] == id && t[o - 2] == 0x7B && t[o - 1] == 0x23 && t[n - 1] == 0x7D && t[n..] == c;
    EndIs(t, n, c);
    forall i | o <= i < n - 1 ensures IdByte(t[i]) { assert t[i] == t[o..n - 1][i - o]; }
    IdIs(t, n - 1, o);
  }

  lemma AnchorIsSpelled(t: Text, id: Text)
    requires AnchorOf(t) == Some(id)
    ensures Anchored(t, id)
  {
    hide TextEnd, IdStart, ClosingText;
    var n := TextEnd(t);
    var o := IdStart(t, n - 1).value;
    IdsAre(t, n - 1);
    EndCloses(t);
    assert IdText(id);
    assert t[o - 2..o] == [0x7B, 0x23] && t[n - 1..n] == [0x7D];
    assert t == t[..o - 2] + (t[o - 2..o] + t[o..n - 1] + t[n - 1..n]) + t[n..];
    AnchoredAs(t, t[..o - 2], id, t[n..]);
  }

  lemma AnchoredAs(t: Text, front: Text, id: Text, c: Text)
    requires ClosingText(c) && IdText(id) && t == front + ([0x7B, 0x23] + id + [0x7D]) + c
    ensures Anchored(t, id)
  {
  }

  // ------------------------------------------------------------ the start of a line

  /** Indented by three spaces at most, in front of something else than a blank. */
  lemma InfoBehindSpaces(l: Text, n: nat, more: Text)
    requires n <= 3 && DropCr(l) == Repeat(0x20, n) + more && more != [] && more[0] != 0x20 && more[0] != 0x09 && more[0] != 0x0D
    ensures var info := Info(l);
      !info.blank && info.indent == n && info.columns == n && info.len == n + |more| && |info.head| <= HEAD &&
      info.head == if n + |more| < HEAD then DropCr(l) else DropCr(l)[..HEAD]
  {
    hide Tail;
    assert more[0] == DropCr(l)[n] == l[n];
    forall i | 0 <= i < n ensures l[i] == SPACE { assert l[i] == DropCr(l)[i]; }
    IndentIs(l, n);
  }

  lemma {:induction false} IndentIs(l: Text, n: nat)
    requires n < |l| && (forall i :: 0 <= i < n ==> l[i] == SPACE) && !Blank(l[n]) && l[n] != CR
    ensures Indent(l) == n && Anchors.Columns(l) == n && !IsBlank(l)
  {
    if n > 0 { IndentIs(l[1..], n - 1); }
  }

  /** A line whose indentation is three columns at most, and that is not blank, is of that form. */
  lemma SmallIndent(l: Text) returns (n: nat, more: Text)
    requires !Info(l).blank && Info(l).columns <= 3
    ensures n <= 3 && DropCr(l) == Repeat(0x20, n) + more && more != [] && more[0] != 0x20 && more[0] != 0x09
    ensures n == Info(l).indent
  {
    hide Tail, Anchors.Columns, IsBlank;
    n := Indent(l);
    IndentAre(l);
    BlankFacts(l);
    hide Info, Indent;
    SpacesFirst(DropCr(l), n);
    more := DropCr(l)[n..];
    assert more[0] == l[n];
  }

  lemma SpacesFirst(d: Text, n: nat)
    requires n <= |d| && forall i :: 0 <= i < n ==> d[i] == SPACE
    ensures d == Repeat(0x20, n) + d[n..]
  {
    assert d[..n] == Repeat(0x20, n);
    assert d == d[..n] + d[n..];
  }

  lemma {:induction false} IndentAre(l: Text)
    requires !IsBlank(l) && Anchors.Columns(l) <= 3
    ensures Indent(l) <= Anchors.Columns(l) && Indent(l) < |l| && forall i :: 0 <= i < Indent(l) ==> l[i] == SPACE
  {
    if Blank(l[0]) { IndentAre(l[1..]); }
  }

  // ------------------------------------------------------------ headings and fences

  ghost predicate AtxLine(d: Text, k: nat) {
    1 <= k <= 6 && exists n: nat, rest: Text :: n <= 3 && BehindMarker(rest) && d == Repeat(0x20, n) + Repeat(0x23, k) + rest
  }

  lemma AtxLineOf(d: Text, n: nat, k: nat, rest: Text)
    requires 1 <= k <= 6 && n <= 3 && BehindMarker(rest) && d == Repeat(0x20, n) + Repeat(0x23, k) + rest
    ensures AtxLine(d, k)
  {
  }

  /** A run behind the spaces, as the head of the line shows it: sixteen bytes at most. */
  lemma RunInHead(l: Text, n: nat, ch: byte, k: nat, rest: Text)
    requires n <= 3 && k > 0 && ch != 0x20 && ch != 0x09 && ch != 0x0D && BehindRun(rest, ch)
    requires DropCr(l) == Repeat(0x20, n) + Repeat(ch, k) + rest
    ensures var info := Info(l);
      !info.blank && info.indent == n && info.columns == n && n < |info.head| && info.head[n] == ch &&
      info.len == |DropCr(l)| && HeadRun(info, ch) == if n + k < HEAD then k else HEAD - n
    ensures n + k < HEAD && rest != [] ==> n + k < |Info(l).head| && Info(l).head[n + k] == rest[0]
  {
    hide Info, R.RunAt;
    var d, more := DropCr(l), Repeat(ch, k) + rest;
    assert d == Repeat(0x20, n) + more && more[0] == ch;
    InfoBehindSpaces(l, n, more);
    var head, m := Info(l).head, if n + k < HEAD then k else HEAD - n;
    assert d[n..n + k] == Repeat(ch, k) && d[n + k..] == rest;
    forall j | n <= j < n + m ensures head[j] == ch { assert head[j] == d[j] == d[n..n + k][j - n]; }
    assert n + k < HEAD && rest != [] ==> head[n + k] == d[n + k] == rest[0];
    L.RunIs(head, n, ch, m);
  }

  /** A run that the head shows stands in the line. */
  lemma RunFromHead(l: Text, ch: byte)
    requires Info(l).columns <= 3 && HeadRun(Info(l), ch) > 0 && ch != 0x20 && ch != 0x09 && ch != 0x0D
    ensures var n, k, d := Info(l).indent, R.RunAt(DropCr(l), Info(l).indent, ch), DropCr(l);
      n <= 3 && k > 0 && n + k <= |d| && BehindRun(d[n + k..], ch) && d == Repeat(0x20, n) + Repeat(ch, k) + d[n + k..]
  {
    var info := Info(l);
    InfoShape(l);
    HeadRunStarts(info, ch);
    var n, more := SmallIndent(l);
    HeadIsLine(l, n);
    hide Info, Shape, HeadRun, R.RunAt, DropCr;
    RunSpelled(DropCr(l), n, more, ch);
  }

  /** Spaces, and then a run. */
  lemma RunSpelled(d: Text, n: nat, more: Text, ch: byte)
    requires d == Repeat(0x20, n) + more && n < |d| && d[n] == ch
    ensures var k := R.RunAt(d, n, ch);
      k > 0 && n + k <= |d| && BehindRun(d[n + k..], ch) && d == Repeat(0x20, n) + Repeat(ch, k) + d[n + k..]
  {
    hide R.RunAt;
    var k := R.RunAt(d, n, ch);
    L.RunAre(d, n, ch);
    RunMoves(d, n, ch);
    assert d[..n] == Repeat(0x20, n) && d[n..n + k] == Repeat(ch, k);
    assert d == d[..n] + d[n..n + k] + d[n + k..];
  }

  lemma HeadRunStarts(info: LineInfo, ch: byte)
    requires Shape(info) && HeadRun(info, ch) > 0 && ch != 0x20 && ch != 0x09 && ch != 0x0D
    ensures info.indent < |info.head| && info.head[info.indent] == ch && !info.blank
  {
  }

  lemma HeadIsLine(l: Text, i: nat)
    requires i < |Info(l).head|
    ensures i < |DropCr(l)| && Info(l).head[i] == DropCr(l)[i]
  {
    hide Tail;
  }

  lemma RunMoves(t: Text, i: nat, ch: byte)
    requires i < |t| && t[i] == ch
    ensures R.RunAt(t, i, ch) > 0
  {
  }

  /** A heading of level `k` is one to six hashes, and then a blank or nothing. */
  lemma AtxExactly(l: Text, k: nat)
    requires k > 0
    ensures AtxLevel(Info(l)) == k <==> AtxLine(DropCr(l), k)
  {
    hide Info, HeadRun, R.RunAt;
    var d := DropCr(l);
    if AtxLine(d, k) {
      var n: nat, rest: Text :| n <= 3 && BehindMarker(rest) && d == Repeat(0x20, n) + Repeat(0x23, k) + rest;
      RunInHead(l, n, 0x23, k, rest);
    }
    if AtxLevel(Info(l)) == k {
      RunFromHead(l, 0x23);
      var n, m := Info(l).indent, R.RunAt(d, Info(l).indent, 0x23);
      RunInHead(l, n, 0x23, m, d[n + m..]);
      assert m == k;
      assert BehindMarker(d[n + k..]);
      AtxLineOf(d, n, k, d[n + k..]);
    }
  }

  /** A fence, whose length is measured within the first sixteen bytes. */
  ghost predicate ShownFence(d: Text, ch: byte, m: nat) {
    (ch == 0x60 || ch == 0x7E) && exists n: nat, k: nat, rest: Text ::
      n <= 3 && k >= 3 && BehindRun(rest, ch) && d == Repeat(0x20, n) + Repeat(ch, k) + rest && m == if n + k < 16 then k else 16 - n
  }

  lemma ShownFenceOf(d: Text, ch: byte, n: nat, k: nat, rest: Text)
    requires (ch == 0x60 || ch == 0x7E) && n <= 3 && k >= 3 && BehindRun(rest, ch) && d == Repeat(0x20, n) + Repeat(ch, k) + rest
    ensures ShownFence(d, ch, if n + k < 16 then k else 16 - n)
  {
  }

  /** The walk finds exactly the fences. */
  lemma ShownFenceExactly(l: Text, ch: byte, m: nat)
    ensures FenceIn(Info(l)) == Some(R.Fence(ch, m)) <==> ShownFence(DropCr(l), ch, m)
  {
    hide Info, HeadRun, R.RunAt;
    var d := DropCr(l);
    if ShownFence(d, ch, m) {
      var n: nat, k: nat, rest: Text :|
        n <= 3 && k >= 3 && BehindRun(rest, ch) && d == Repeat(0x20, n) + Repeat(ch, k) + rest && m == if n + k < 16 then k else 16 - n;
      RunInHead(l, n, ch, k, rest);
    }
    if FenceIn(Info(l)) == Some(R.Fence(ch, m)) {
      RunFromHead(l, ch);
      var n, k := Info(l).indent, R.RunAt(d, Info(l).indent, ch);
      RunInHead(l, n, ch, k, d[n + k..]);
      ShownFenceOf(d, ch, n, k, d[n + k..]);
    }
  }

  /** An underline: a run of one character and blanks. */
  ghost predicate Underline(d: Text, ch: byte) {
    exists n: nat, k: nat, rest: Text :: n <= 3 && k > 0 && Blanks(rest) && d == Repeat(0x20, n) + Repeat(ch, k) + rest
  }

  lemma UnderlineOf(d: Text, ch: byte, n: nat, k: nat, rest: Text)
    requires n <= 3 && k > 0 && Blanks(rest) && d == Repeat(0x20, n) + Repeat(ch, k) + rest
    ensures Underline(d, ch)
  {
  }

  /** `===` underlines a first-level heading and `---` a second-level one, on a line the tail holds whole. */
  lemma SetextExactly(l: Text)
    requires |l| <= 160
    ensures SetextLevel(Info(l)) == if Underline(DropCr(l), 0x3D) then 1 else if Underline(DropCr(l), 0x2D) then 2 else 0
  {
    hide SetextLevel, Underline;
    if Underline(DropCr(l), 0x3D) { UnderlineIsFound(l, 0x3D); }
    if Underline(DropCr(l), 0x2D) { UnderlineIsFound(l, 0x2D); }
    if SetextLevel(Info(l)) != 0 { UnderlineIsSpelled(l); }
  }

  lemma UnderlineIsFound(l: Text, ch: byte)
    requires |l| <= 160 && Underline(DropCr(l), ch) && (ch == 0x3D || ch == 0x2D)
    ensures SetextLevel(Info(l)) == if ch == 0x3D then 1 else 2
  {
    hide Info, R.RunAt, Anchors.Columns, Indent, IsBlank;
    var d := DropCr(l);
    var n: nat, k: nat, rest: Text :| n <= 3 && k > 0 && Blanks(rest) && d == Repeat(0x20, n) + Repeat(ch, k) + rest;
    RunInHead(l, n, ch, k, rest);
    ShortTail(l);
    hide DropCr;
    RunStands(d, n, ch, k, rest);
  }

  /** Where a run stands behind its spaces. */
  lemma RunStands(d: Text, n: nat, ch: byte, k: nat, rest: Text)
    requires d == Repeat(0x20, n) + Repeat(ch, k) + rest && k > 0 && BehindRun(rest, ch)
    ensures n < |d| && d[n] == ch && R.RunAt(d, n, ch) == k && d[n + k..] == rest
  {
    hide R.RunAt;
    assert d[n..n + k] == Repeat(ch, k) && d[n + k..] == rest;
    forall j | n <= j < n + k ensures d[j] == ch { assert d[j] == d[n..n + k][j - n]; }
    assert rest != [] ==> d[n + k] == rest[0];
    L.RunIs(d, n, ch, k);
  }

  lemma ShortTail(l: Text)
    requires |l| <= 160
    ensures Info(l).tail == DropCr(l) && Info(l).len == |DropCr(l)|
  {
  }

  lemma UnderlineIsSpelled(l: Text)
    requires |l| <= 160 && SetextLevel(Info(l)) != 0
    ensures Underline(DropCr(l), if SetextLevel(Info(l)) == 1 then 0x3D else 0x2D)
  {
    hide Info, R.RunAt, DropCr;
    var d := DropCr(l);
    ShortTail(l);
    var n, more := SmallIndent(l);
    var ch := d[n];
    var k := R.RunAt(d, n, ch);
    RunSpelled(d, n, more, ch);
    assert Blanks(d[n + k..]);
    UnderlineOf(d, ch, n, k, d[n + k..]);
  }

  // ------------------------------------------------------------ the walk

  /** A line on which a fence is open: it closes the fence, or nothing comes of it. */
  lemma InsideFence(l: Text, st: State, ch: byte, m: nat)
    requires st.fence.Some? && ShownFence(DropCr(l), ch, m)
    ensures LineStep(Info(l), st) == (State(if ch == st.fence.value.ch && m >= st.fence.value.run then None else st.fence, None), None)
  {
    hide Info, ShownFence, FenceIn;
    ShownFenceExactly(l, ch, m);
  }

  ghost predicate NoFence(d: Text) {
    forall ch: byte, m: nat :: !ShownFence(d, ch, m)
  }

  lemma NoFenceExactly(l: Text)
    requires NoFence(DropCr(l))
    ensures FenceIn(Info(l)).None?
  {
    hide Info, ShownFence, FenceIn;
    if FenceIn(Info(l)).Some? {
      var f := FenceIn(Info(l)).value;
      ShownFenceExactly(l, f.ch, f.run);
      assert false;
    }
  }

  /** Outside a fence a heading is found by its spelling, with the id at the end of its text. */
  lemma HeadingFound(l: Text, st: State, k: nat, id: Text)
    requires st.fence.None? && NoFence(DropCr(l)) && AtxLine(DropCr(l), k) && |l| <= 160
    ensures LineStep(Info(l), st).0 == START
    ensures LineStep(Info(l), st).1 == Some(Anchor(k, id)) <==> Anchored(DropCr(l), id)
  {
    hide Info, FenceIn, AtxLevel, SetextLevel, SetextText, AnchorOf, Anchored;
    NoFenceExactly(l);
    AtxExactly(l, k);
    ShortTail(l);
    AnchorExactly(DropCr(l), id);
  }

  /** An underline makes a heading of the text before it. */
  lemma UnderlinedFound(l: Text, p: Text, st: State, ch: byte, id: Text)
    requires st.fence.None? && NoFence(DropCr(l)) && |l| <= 160 && |p| <= 160 && st.prev == Some(Info(p)) && SetextText(Info(p))
    requires (ch == 0x3D || ch == 0x2D) && Underline(DropCr(l), ch)
    ensures LineStep(Info(l), st).0 == START
    ensures LineStep(Info(l), st).1 == Some(Anchor(if ch == 0x3D then 1 else 2, id)) <==> Anchored(DropCr(p), id)
  {
    hide Info, FenceIn, AtxLevel, SetextLevel, SetextText, AnchorOf, Anchored, Underline;
    NoFenceExactly(l);
    UnderlineIsFound(l, ch);
    UnderlineIsNoAtx(l, ch);
    ShortTail(p);
    AnchorExactly(DropCr(p), id);
  }

  lemma UnderlineIsNoAtx(l: Text, ch: byte)
    requires Underline(DropCr(l), ch) && (ch == 0x3D || ch == 0x2D)
    ensures AtxLevel(Info(l)) == 0
  {
    hide Info;
    var n: nat, k: nat, rest: Text :| n <= 3 && k > 0 && Blanks(rest) && DropCr(l) == Repeat(0x20, n) + Repeat(ch, k) + rest;
    RunInHead(l, n, ch, k, rest);
  }

  /** Any other line is kept for the next one, and gives no anchor. */
  lemma TextKept(l: Text, st: State)
    requires st.fence.None? && NoFence(DropCr(l)) && |l| <= 160
    requires (forall k: nat :: !AtxLine(DropCr(l), k)) && !Underline(DropCr(l), 0x3D) && !Underline(DropCr(l), 0x2D)
    ensures LineStep(Info(l), st) == (State(None, Some(Info(l))), None)
  {
    hide Info, FenceIn, AtxLevel, SetextLevel, SetextText, AtxLine, Underline;
    NoFenceExactly(l);
    if AtxLevel(Info(l)) > 0 { AtxExactly(l, AtxLevel(Info(l))); assert false; }
    SetextExactly(l);
  }

  // ------------------------------------------------------------ what can be underlined

  /** Up to three spaces in front of something else than a blank. */
  ghost predicate Begins(d: Text, n: nat, more: Text) {
    n <= 3 && d == Repeat(0x20, n) + more && more != [] && more[0] != 0x20 && more[0] != 0x09
  }

  /** An ordered-list marker that stands within the first sixteen bytes. */
  ghost predicate OrderedSoon(d: Text) {
    exists n: nat, ds: Text, c: byte, rest: Text ::
      n <= 3 && Digits(ds) && (c == 0x2E || c == 0x29) && BehindMarker(rest) && d == Repeat(0x20, n) + ds + [c] + rest &&
      n + |ds| < 16 && (rest == [] || n + |ds| < 15)
  }

  /** A paragraph's line: no blank, no indented one, no quote, list item, fence or heading. */
  ghost predicate TextLine(d: Text) {
    !BlankText(d) && (exists n: nat, more: Text :: Begins(d, n, more)) &&
    !QuoteLine(d) && !BulletLine(d) && !OrderedSoon(d) && NoFence(d) && forall k: nat :: !AtxLine(d, k)
  }

  lemma SameIndent(d: Text, n: nat, more: Text, m: nat, rest: Text)
    requires Begins(d, n, more) && d == Repeat(0x20, m) + rest && rest != [] && rest[0] != 0x20
    ensures m == n && rest == more
  {
    assert d[n] == more[0] && d[m] == rest[0];
    assert d[m..] == rest && d[n..] == more;
  }

  lemma QuoteIs(d: Text, n: nat, more: Text)
    requires Begins(d, n, more)
    ensures QuoteLine(d) <==> more[0] == 0x3E
  {
    if QuoteLine(d) {
      var m: nat, rest: Text :| m <= 3 && d == Repeat(0x20, m) + [0x3E] + rest;
      assert d == Repeat(0x20, m) + ([0x3E] + rest);
      SameIndent(d, n, more, m, [0x3E] + rest);
    }
    if more[0] == 0x3E { assert d == Repeat(0x20, n) + [0x3E] + more[1..]; }
  }

  predicate Bullet(c: byte) {
    c == 0x2D || c == 0x2B || c == 0x2A
  }

  lemma BulletIs(d: Text, n: nat, more: Text)
    requires Begins(d, n, more)
    ensures BulletLine(d) <==> Bullet(more[0]) && BehindMarker(more[1..])
  {
    if BulletLine(d) {
      var m: nat, b: byte, rest: Text :|
        m <= 3 && (b == 0x2D || b == 0x2B || b == 0x2A) && BehindMarker(rest) && d == Repeat(0x20, m) + [b] + rest;
      assert d == Repeat(0x20, m) + ([b] + rest);
      SameIndent(d, n, more, m, [b] + rest);
      assert more[1..] == rest;
    }
    if Bullet(more[0]) && BehindMarker(more[1..]) { assert d == Repeat(0x20, n) + [more[0]] + more[1..]; }
  }

  /** What the head shows of a line that begins so. */
  lemma HeadOf(l: Text, n: nat, more: Text)
    requires Begins(DropCr(l), n, more) && !BlankText(DropCr(l))
    ensures var info := Info(l);
      n <= 3 && !info.blank && info.columns == n && info.indent == n && n < |info.head| && Shows(info, DropCr(l)) &&
      more != [] && info.head[n] == more[0]
  {
    hide Tail;
    var d := DropCr(l);
    assert d[n] == more[0] == l[n];
    forall i | 0 <= i < n ensures l[i] == SPACE { assert l[i] == d[i]; }
    if more[0] == CR { NotBlank(l); }
    StartIs(l, n);
  }

  lemma {:induction false} NotBlank(l: Text)
    ensures IsBlank(l) ==> BlankText(l)
    ensures BlankText(DropCr(l)) <==> BlankText(l)
  {
    BlankFacts(l);
    var d := DropCr(l);
    assert forall c :: c in d ==> c in l;
    assert l == d || l == d + [CR];
  }

  lemma {:induction false} StartIs(l: Text, n: nat)
    requires n < |l| && (forall i :: 0 <= i < n ==> l[i] == SPACE) && !Blank(l[n])
    ensures Indent(l) == n && Anchors.Columns(l) == n && (l[n] != CR ==> !IsBlank(l))
  {
    if n > 0 { StartIs(l[1..], n - 1); }
  }

  /** What a scanned line shows of the line itself. */
  ghost predicate Shows(info: LineInfo, d: Text) {
    info.len == |d| && info.head == if |d| < HEAD then d else d[..HEAD]
  }

  /** The marker test at the byte behind a marker. */
  lemma MarkerEndsIs(info: LineInfo, d: Text, i: nat)
    requires Shows(info, d) && i <= |d|
    ensures MarkerEnds(info, i) <==> BehindMarker(d[i..]) && (d[i..] == [] || i < HEAD)
  {
  }

  lemma OrderedIs(info: LineInfo, d: Text, n: nat, more: Text)
    requires Begins(d, n, more) && Shows(info, d) && n < |info.head| && more != []
    ensures var h := info.head;
      var i := R.DigitsEnd(h, n);
      (IsDigit(more[0]) && i < |h| && (h[i] == 0x2E || h[i] == 0x29) && MarkerEnds(info, i + 1)) <==> OrderedSoon(d)
  {
    hide R.DigitsEnd, Begins, OrderedSoon, MarkerEnds, BehindMarker;
    OrderedInHead(d, info.head, n, more);
    var i := R.DigitsEnd(info.head, n);
    if i < |info.head| { MarkerEndsIs(info, d, i + 1); }
  }

  /** The digits of a marker end at `i`. */
  predicate OrderedAt(d: Text, h: Text, i: nat) {
    i < |h| && i < |d| && (h[i] == 0x2E || h[i] == 0x29) && BehindMarker(d[i + 1..]) && (d[i + 1..] == [] || i + 1 < 16)
  }

  lemma OrderedInHead(d: Text, h: Text, n: nat, more: Text)
    requires Begins(d, n, more) && h == (if |d| < 16 then d else d[..16]) && n < |h| && more != []
    ensures OrderedSoon(d) <==> IsDigit(more[0]) && OrderedAt(d, h, R.DigitsEnd(h, n))
  {
    hide R.DigitsEnd, Begins, OrderedAt, Digits, BehindMarker;
    if OrderedSoon(d) {
      var m: nat, ds: Text, c: byte, rest: Text :|
        m <= 3 && Digits(ds) && (c == 0x2E || c == 0x29) && BehindMarker(rest) && d == Repeat(0x20, m) + ds + [c] + rest &&
        m + |ds| < 16 && (rest == [] || m + |ds| < 15);
      OrderedIntoHead(d, h, n, more, m, ds, c, rest);
    }
    if IsDigit(more[0]) && OrderedAt(d, h, R.DigitsEnd(h, n)) { HeadIsOrdered(d, h, n, more); }
  }

  lemma OrderedIntoHead(d: Text, h: Text, n: nat, more: Text, m: nat, ds: Text, c: byte, rest: Text)
    requires Begins(d, n, more) && h == (if |d| < 16 then d else d[..16]) && n < |h|
    requires Digits(ds) && (c == 0x2E || c == 0x29) && BehindMarker(rest) && d == Repeat(0x20, m) + ds + [c] + rest
    requires m + |ds| < 16 && (rest == [] || m + |ds| < 15)
    ensures IsDigit(more[0]) && OrderedAt(d, h, R.DigitsEnd(h, n))
  {
    DigitsShown(d, h, n, more, m, ds, c, rest);
    hide R.DigitsEnd, Begins, Digits, BehindMarker;
  }

  lemma HeadIsOrdered(d: Text, h: Text, n: nat, more: Text)
    requires Begins(d, n, more) && h == (if |d| < 16 then d else d[..16]) && n < |h| && more != []
    requires IsDigit(more[0]) && OrderedAt(d, h, R.DigitsEnd(h, n))
    ensures OrderedSoon(d)
  {
    hide R.DigitsEnd, Begins, Digits, BehindMarker;
    var e := R.DigitsEnd(h, n);
    DigitsSpelled(d, h, n, more);
    OrderedSoonAs(d, n, d[n..e], d[e], d[e + 1..]);
  }

  lemma DigitsShown(d: Text, h: Text, n: nat, more: Text, m: nat, ds: Text, c: byte, rest: Text)
    requires Begins(d, n, more) && h == (if |d| < 16 then d else d[..16])
    requires Digits(ds) && (c == 0x2E || c == 0x29) && d == Repeat(0x20, m) + ds + [c] + rest && m + |ds| < 16
    ensures m == n && n + |ds| < |h| && R.DigitsEnd(h, n) == n + |ds| && h[n + |ds|] == c && d[n + |ds| + 1..] == rest && IsDigit(more[0])
  {
    hide R.DigitsEnd;
    var tail := ds + [c] + rest;
    assert ds[0] in ds && tail[0] == ds[0];
    assert d == Repeat(0x20, m) + tail;
    SameIndent(d, n, more, m, tail);
    hide Begins;
    var e := n + |ds|;
    assert tail[..|ds|] == ds && tail[|ds|] == c && tail[|ds| + 1..] == rest;
    assert d[n..e] == ds && d[e] == c && d[e + 1..] == rest;
    forall j | n <= j < e ensures IsDigit(h[j]) { assert h[j] == d[j] == d[n..e][j - n] && ds[j - n] in ds; }
    L.DigitsEndIs(h, n, e);
  }

  lemma DigitsSpelled(d: Text, h: Text, n: nat, more: Text)
    requires Begins(d, n, more) && h == (if |d| < 16 then d else d[..16]) && IsDigit(more[0]) && R.DigitsEnd(h, n) < |h|
    ensures var e := R.DigitsEnd(h, n);
      n <= 3 && n < e < |d| && Digits(d[n..e]) && h[e] == d[e] && d == Repeat(0x20, n) + d[n..e] + [d[e]] + d[e + 1..]
  {
    hide R.DigitsEnd;
    assert d[n] == more[0] == h[n];
    var e := R.DigitsEnd(h, n);
    L.DigitsAre(h, n);
    L.DigitsMove(h, n);
    var ds := d[n..e];
    forall j | 0 <= j < |ds| ensures IsDigit(ds[j]) { assert ds[j] == h[n + j]; }
    assert forall i :: 0 <= i < n ==> d[i] == SPACE;
    hide Begins;
    SpacesFirst(d, n);
    Parts(d, Repeat(0x20, n), n, e);
  }

  lemma Parts(d: Text, front: Text, n: nat, e: nat)
    requires n <= e < |d| && d == front + d[n..]
    ensures d == front + d[n..e] + [d[e]] + d[e + 1..]
  {
    assert d[n..] == d[n..e] + [d[e]] + d[e + 1..];
  }

  lemma OrderedSoonAs(d: Text, n: nat, ds: Text, c: byte, rest: Text)
    requires n <= 3 && Digits(ds) && (c == 0x2E || c == 0x29) && BehindMarker(rest) && d == Repeat(0x20, n) + ds + [c] + rest
    requires n + |ds| < 16 && (rest == [] || n + |ds| < 15)
    ensures OrderedSoon(d)
  {
  }

  lemma FenceShown(l: Text, n: nat, more: Text)
    requires Begins(DropCr(l), n, more) && !BlankText(DropCr(l))
    ensures NoFence(DropCr(l)) <==> !((more[0] == 0x60 || more[0] == 0x7E) && HeadRun(Info(l), more[0]) >= 3)
  {
    HeadOf(l, n, more);
    hide Info, HeadRun, ShownFence, Begins, BlankText;
    if NoFence(DropCr(l)) { NoFenceExactly(l); }
    if !NoFence(DropCr(l)) {
      var ch: byte, m: nat :| ShownFence(DropCr(l), ch, m);
      ShownFenceExactly(l, ch, m);
    }
  }

  lemma AtxShown(l: Text)
    ensures (forall k: nat :: !AtxLine(DropCr(l), k)) <==> AtxLevel(Info(l)) == 0
  {
    hide Info, AtxLevel, AtxLine;
    forall k: nat | k > 0 ensures AtxLevel(Info(l)) == k <==> AtxLine(DropCr(l), k) { AtxExactly(l, k); }
    NoLevelZero(DropCr(l));
    if AtxLevel(Info(l)) > 0 { assert AtxLine(DropCr(l), AtxLevel(Info(l))); }
  }

  lemma NoLevelZero(d: Text)
    ensures !AtxLine(d, 0)
  {
  }

  /** What can be underlined is exactly the line of a paragraph. */
  lemma TextExactly(l: Text)
    ensures SetextText(Info(l)) <==> TextLine(DropCr(l))
  {
    var d := DropCr(l);
    if !Info(l).blank && Info(l).columns <= 3 {
      var n, more := SmallIndent(l);
      NotBlankText(l);
      BeginsTell(l, n, more);
    } else if TextLine(d) {
      var n: nat, more: Text :| Begins(d, n, more);
      HeadOf(l, n, more);
      assert false;
    }
  }

  lemma NotBlankText(l: Text)
    requires !IsBlank(l)
    ensures !BlankText(DropCr(l))
  {
    NotBlank(l);
    if BlankText(l) { BlankIsBlank(l); }
  }

  lemma {:induction false} BlankIsBlank(l: Text)
    requires BlankText(l)
    ensures IsBlank(l)
  {
    if l != [] {
      assert l[0] in l && forall c :: c in l[1..] ==> c in l;
      BlankIsBlank(l[1..]);
    }
  }

  lemma BeginsTell(l: Text, n: nat, more: Text)
    requires Begins(DropCr(l), n, more) && !BlankText(DropCr(l))
    ensures SetextText(Info(l)) <==> TextLine(DropCr(l))
  {
    hide Info, HeadRun, R.DigitsEnd, MarkerEnds, BlankText, QuoteLine, BulletLine, OrderedSoon, NoFence, AtxLine, AtxLevel;
    hide DropCr, Begins, BehindMarker;
    var d := DropCr(l);
    HeadOf(l, n, more);
    QuoteIs(d, n, more);
    BulletIs(d, n, more);
    OrderedIs(Info(l), d, n, more);
    FenceShown(l, n, more);
    AtxShown(l);
    BehindFirst(l, n, more);
    HashTells(l, n, more);
    assert TextLine(d) <==> !QuoteLine(d) && !BulletLine(d) && !OrderedSoon(d) && NoFence(d) && forall k: nat :: !AtxLine(d, k);
  }

  lemma BehindFirst(l: Text, n: nat, more: Text)
    requires Begins(DropCr(l), n, more) && !BlankText(DropCr(l))
    ensures MarkerEnds(Info(l), n + 1) <==> BehindMarker(more[1..])
  {
    HeadOf(l, n, more);
    hide Info, BehindMarker, BlankText, MarkerEnds, DropCr;
    BehindIs(DropCr(l), n, more);
    MarkerEndsIs(Info(l), DropCr(l), n + 1);
    NothingBehind();
  }

  lemma BehindIs(d: Text, n: nat, more: Text)
    requires Begins(d, n, more)
    ensures n <= 3 && n + 1 <= |d| && d[n + 1..] == more[1..]
  {
  }

  lemma NothingBehind()
    ensures BehindMarker([])
  {
  }

  lemma HashTells(l: Text, n: nat, more: Text)
    requires Begins(DropCr(l), n, more) && !BlankText(DropCr(l))
    ensures AtxLevel(Info(l)) == 0 <==>
      (more[0] == HASH ==> HeadRun(Info(l), HASH) > 6 || !MarkerEnds(Info(l), n + HeadRun(Info(l), HASH)))
  {
    HeadOf(l, n, more);
    hide Info, MarkerEnds, Begins, BlankText, DropCr, R.RunAt, Shows;
    RunTells(Info(l), n);
  }

  lemma RunTells(info: LineInfo, n: nat)
    requires info.indent == n && n < |info.head| && info.columns <= 3
    ensures HeadRun(info, HASH) > 0 <==> info.head[n] == HASH
    ensures AtxLevel(info) == 0 <==>
      (info.head[n] == HASH ==> HeadRun(info, HASH) > 6 || !MarkerEnds(info, n + HeadRun(info, HASH)))
  {
    hide MarkerEnds;
    if info.head[n] == HASH { RunMoves(info.head, n, HASH); }
  }
}
