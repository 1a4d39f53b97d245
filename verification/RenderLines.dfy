/**
 * The windowed walk over content.md, judged by the bytes of its lines: which line opens a fence,
 * starts a block or defines a reference, and where a cut therefore stands.
 */
module RenderLines {
  import opened Bytes
  import opened Json
  import opened Markup
  import opened Yaml
  import opened YamlCode
  import opened Render
  import opened Spelling

  // ------------------------------------------------------------ single lines

  lemma {:induction false} RunIs(l: Text, i: nat, ch: byte, k: nat)
    requires i + k <= |l| && (forall j :: i <= j < i + k ==> l[j] == ch) && (i + k < |l| ==> l[i + k] != ch)
    ensures RunAt(l, i, ch) == k
    decreases k
  {
    if k > 0 { RunIs(l, i + 1, ch, k - 1); }
  }

  lemma {:induction false} RunAre(l: Text, i: nat, ch: byte)
    requires i <= |l|
    ensures forall j :: i <= j < i + RunAt(l, i, ch) ==> l[j] == ch
    decreases |l| - i
  {
    if i < |l| && l[i] == ch { RunAre(l, i + 1, ch); }
  }

  lemma SpacesInFront(l: Text, n: nat, more: Text)
    requires l == Repeat(0x20, n) + more && (more == [] || more[0] != 0x20)
    ensures Spaces(l) == n && forall j :: 0 <= j < |more| ==> l[n + j] == more[j]
  {
    SpacesIs(l, n);
  }

  /** What stands behind the leading spaces. */
  lemma BehindSpaces(l: Text) returns (n: nat, more: Text)
    ensures n == Spaces(l) && l == Repeat(0x20, n) + more && more == l[n..] && (more == [] || more[0] != 0x20)
    ensures l[..n] == Repeat(0x20, n)
  {
    n, more := Spaces(l), l[Spaces(l)..];
    SpacesAre(l);
    assert l == l[..n] + more;
  }

  lemma FenceIsFound(l: Text, n: nat, ch: byte, k: nat, rest: Text)
    requires n <= 3 && k >= 3 && (ch == 0x60 || ch == 0x7E) && BehindRun(rest, ch)
    requires l == Repeat(0x20, n) + Repeat(ch, k) + rest
    ensures FenceOf(l) == Some(Fence(ch, k))
  {
    hide Spaces, RunAt;
    assert l[..n] == Repeat(0x20, n) && l[n..n + k] == Repeat(ch, k) && l[n + k..] == rest;
    SpacesIs(l, n);
    forall j | n <= j < n + k ensures l[j] == ch { assert l[j] == l[n..n + k][j - n]; }
    assert rest != [] ==> l[n + k] == rest[0];
    RunIs(l, n, ch, k);
  }

  lemma FenceLineOf(l: Text, n: nat, ch: byte, k: nat, rest: Text)
    requires n <= 3 && k >= 3 && (ch == 0x60 || ch == 0x7E) && BehindRun(rest, ch)
    requires l == Repeat(0x20, n) + Repeat(ch, k) + rest
    ensures FenceLine(l, ch, k)
  {
  }

  lemma FenceIsSpelled(l: Text, ch: byte, k: nat)
    requires FenceOf(l) == Some(Fence(ch, k))
    ensures FenceLine(l, ch, k)
  {
    hide Spaces, RunAt;
    var n, more := BehindSpaces(l);
    RunAre(l, n, ch);
    var run, rest := l[n..n + k], l[n + k..];
    assert run == Repeat(ch, k);
    assert rest == [] || rest[0] != ch;
    assert l == l[..n] + run + rest;
    FenceLineOf(l, n, ch, k, rest);
  }

  /** The fence scan finds exactly the fences, with their character and their length. */
  lemma FenceExactly(l: Text, ch: byte, k: nat)
    ensures FenceOf(l) == Some(Fence(ch, k)) <==> FenceLine(l, ch, k)
  {
    hide FenceOf;
    if FenceLine(l, ch, k) {
      var n: nat, rest: Text :| n <= 3 && BehindRun(rest, ch) && l == Repeat(0x20, n) + Repeat(ch, k) + rest;
      FenceIsFound(l, n, ch, k, rest);
    }
    if FenceOf(l) == Some(Fence(ch, k)) { FenceIsSpelled(l, ch, k); }
  }

  lemma BlankExactly(l: Text)
    ensures BlankLine(l) <==> BlankText(l)
  {
    if BlankText(l) {
      forall i | 0 <= i < |l| ensures l[i] == SPACE || l[i] == TAB || l[i] == CR { assert l[i] in l; }
    }
  }

  lemma {:induction false} DigitsEndIs(l: Text, i: nat, n: nat)
    requires i <= n <= |l| && (forall j :: i <= j < n ==> IsDigit(l[j])) && (n < |l| ==> !IsDigit(l[n]))
    ensures DigitsEnd(l, i) == n
    decreases n - i
  {
    if i < n { DigitsEndIs(l, i + 1, n); }
  }

  lemma {:induction false} DigitsAre(l: Text, i: nat)
    requires i <= |l|
    ensures forall j :: i <= j < DigitsEnd(l, i) ==> IsDigit(l[j])
    decreases |l| - i
  {
    if i < |l| && IsDigit(l[i]) { DigitsAre(l, i + 1); }
  }

  /** A quote, a list marker, or a line that is indented or blank. */
  ghost predicate StaysInside(l: Text) {
    IndentedLine(l) || QuoteLine(l) || BulletLine(l) || OrderedLine(l)
  }

  lemma MarkerSpelled(l: Text)
    requires BulletLine(l) || OrderedLine(l) || QuoteLine(l)
    ensures !StartsTop(l)
  {
    hide Spaces;
    if QuoteLine(l) {
      var n: nat, rest: Text :| n <= 3 && l == Repeat(0x20, n) + [0x3E] + rest;
      assert l == Repeat(0x20, n) + ([0x3E] + rest);
      SpacesInFront(l, n, [0x3E] + rest);
    } else if BulletLine(l) {
      var n: nat, b: byte, rest: Text :|
        n <= 3 && (b == 0x2D || b == 0x2B || b == 0x2A) && BehindMarker(rest) && l == Repeat(0x20, n) + [b] + rest;
      assert l == Repeat(0x20, n) + ([b] + rest);
      SpacesInFront(l, n, [b] + rest);
      assert rest != [] ==> l[n + 1] == ([b] + rest)[1];
    } else {
      OrderedSpelled(l);
    }
  }

  lemma OrderedSpelled(l: Text)
    requires OrderedLine(l)
    ensures !StartsTop(l)
  {
    hide StartsTop;
    var n: nat, ds: Text, d: byte, rest: Text :|
      n <= 3 && Digits(ds) && (d == 0x2E || d == 0x29) && BehindMarker(rest) && l == Repeat(0x20, n) + ds + [d] + rest;
    OrderedIs(l, n, ds, d, rest);
  }

  lemma OrderedIs(l: Text, n: nat, ds: Text, d: byte, rest: Text)
    requires n <= 3 && Digits(ds) && (d == 0x2E || d == 0x29) && BehindMarker(rest)
    requires l == Repeat(0x20, n) + ds + [d] + rest
    ensures !StartsTop(l)
  {
    hide Spaces, DigitsEnd;
    var e := n + |ds|;
    assert l[..n] == Repeat(0x20, n) && l[n..e] == ds && l[e] == d && l[e + 1..] == rest;
    forall j | n <= j < e ensures IsDigit(l[j]) { assert l[j] == l[n..e][j - n] && ds[j - n] in ds; }
    SpacesIs(l, n);
    DigitsEndIs(l, n, e);
    assert rest != [] ==> l[e + 1] == rest[0];
  }

  /** A line the scan turns down is one of those. */
  lemma TurnedDown(l: Text)
    requires !StartsTop(l)
    ensures StaysInside(l)
  {
    hide Spaces, DigitsEnd;
    var n, more := BehindSpaces(l);
    if n > 3 {
      assert Repeat(0x20, 4) <= l;
    } else if more == [] {
      assert l == Repeat(0x20, |l|);
    } else if l[n] == GT {
      assert l == Repeat(0x20, n) + [0x3E] + l[n + 1..];
    } else if IsDigit(l[n]) {
      OrderedIsSpelled(l, n);
    } else {
      var rest := l[n + 1..];
      assert BehindMarker(rest);
      assert l == Repeat(0x20, n) + [l[n]] + rest;
    }
  }

  lemma OrderedLineOf(l: Text, n: nat, ds: Text, d: byte, rest: Text)
    requires n <= 3 && Digits(ds) && (d == 0x2E || d == 0x29) && BehindMarker(rest)
    requires l == Repeat(0x20, n) + ds + [d] + rest
    ensures OrderedLine(l)
  {
  }

  lemma OrderedIsSpelled(l: Text, n: nat)
    requires n <= 3 && n < |l| && l[..n] == Repeat(0x20, n) && IsDigit(l[n]) && MarkerAt(l, n)
    ensures OrderedLine(l)
  {
    hide DigitsEnd;
    var e := DigitsEnd(l, n);
    DigitsAre(l, n);
    DigitsMove(l, n);
    var ds, d, rest := l[n..e], l[e], l[e + 1..];
    assert Digits(ds);
    assert BehindMarker(rest);
    assert l == l[..n] + ds + [d] + rest;
    OrderedLineOf(l, n, ds, d, rest);
  }

  lemma DigitsMove(l: Text, i: nat)
    requires i < |l| && IsDigit(l[i])
    ensures DigitsEnd(l, i) > i
  {
  }

  /** The lines the scan accepts are exactly the others. */
  lemma TopStartExactly(l: Text)
    ensures StartsTop(l) <==> !StaysInside(l)
  {
    hide StartsTop, QuoteLine, BulletLine, OrderedLine, IndentedLine;
    if !StartsTop(l) {
      TurnedDown(l);
    } else {
      if IndentedLine(l) { IndentedSpelled(l); }
      if BulletLine(l) || OrderedLine(l) || QuoteLine(l) { MarkerSpelled(l); }
    }
  }

  lemma {:induction false} SpacesAtLeast(l: Text, k: nat)
    requires k <= |l| && forall j :: 0 <= j < k ==> l[j] == SPACE
    ensures Spaces(l) >= k
  {
    if k > 0 { SpacesAtLeast(l[1..], k - 1); }
  }

  lemma IndentedSpelled(l: Text)
    requires IndentedLine(l)
    ensures !StartsTop(l)
  {
    hide MarkerAt;
    if l == Repeat(0x20, |l|) {
      SpacesIs(l, |l|);
    } else {
      SpacesAtLeast(l, 4);
    }
  }

  // ------------------------------------------------------------ fences over many lines

  /** Some line start before `p` opens a fence that no line from there to `p` closes. */
  ghost predicate Fenced(w: Text, p: nat)
    requires p <= |w|
    decreases p
  {
    exists o: nat :: o < p && LineStart(w, o) && !Fenced(w, o) && StillOpen(w, o, p)
  }

  ghost predicate StillOpen(w: Text, o: nat, p: nat)
    requires o < p <= |w|
  {
    exists ch: byte, k: nat :: FenceLine(VisibleLine(w, o), ch, k) && !ClosedWithin(w, o, p, ch, k)
  }

  /** A line between the two is a fence of that character, at least as long. */
  ghost predicate ClosedWithin(w: Text, o: nat, p: nat, ch: byte, k: nat)
    requires p <= |w|
  {
    exists c: nat, m: nat :: o < c < p && LineStart(w, c) && m >= k && FenceLine(VisibleLine(w, c), ch, m)
  }

  /** The same, as the scan looks at lines. */
  ghost predicate OpenedBy(w: Text, o: nat, p: nat, f: Fence)
    requires p <= |w|
  {
    o < p && LineStart(w, o) && StateAfter(w[..o], Render.START).fence.None? && FenceOf(VisibleLine(w, o)) == Some(f) &&
    forall c :: o < c < p && LineStart(w, c) ==> !Closes(FenceOf(VisibleLine(w, c)), f)
  }

  /** The line before a line start, and what it does. */
  lemma LineBefore(w: Text, p: nat) returns (q: nat)
    requires 0 < p <= |w| && LineStart(w, p)
    ensures q == LineBegin(w, p - 1) && q < p && LineStart(w, q) && (forall c :: q < c < p ==> !LineStart(w, c))
    ensures StateAfter(w[..p], Render.START) == LineState(VisibleLine(w, q), StateAfter(w[..q], Render.START))
  {
    hide StateAfter, LineState;
    q := LineBegin(w, p - 1);
    LineEndsBefore(w, q, p);
    var n := p - 1 - q;
    NextState(w, q, n);
    assert VisibleLine(w, q) == w[q..q + n];
  }

  lemma {:induction false} OpenHasOpener(w: Text, p: nat) returns (o: nat)
    requires p <= |w| && LineStart(w, p) && StateAfter(w[..p], Render.START).fence.Some?
    ensures OpenedBy(w, o, p, StateAfter(w[..p], Render.START).fence.value)
    decreases p
  {
    hide StateAfter, FenceOf, BlankLine, VisibleLine;
    StateOfNothing(w[..p]);
    var q := LineBefore(w, p);
    if StateAfter(w[..q], Render.START).fence.Some? {
      o := OpenHasOpener(w, q);
    } else {
      o := q;
    }
  }

  lemma {:induction false} OpenerStays(w: Text, o: nat, p: nat, f: Fence)
    requires p <= |w| && LineStart(w, p) && OpenedBy(w, o, p, f)
    ensures StateAfter(w[..p], Render.START).fence == Some(f)
    decreases p
  {
    hide StateAfter, FenceOf, BlankLine, VisibleLine;
    var q := LineBefore(w, p);
    if o < q {
      OpenerStays(w, o, q, f);
    } else {
      assert q == o;
    }
  }

  lemma StillOpenIs(w: Text, o: nat, p: nat)
    requires o < p <= |w| && LineStart(w, o) && StateAfter(w[..o], Render.START).fence.None?
    ensures StillOpen(w, o, p) <==> exists f :: OpenedBy(w, o, p, f)
  {
    hide StateAfter, FenceOf, FenceLine, VisibleLine, LineStart;
    if StillOpen(w, o, p) {
      var ch: byte, k: nat :| FenceLine(VisibleLine(w, o), ch, k) && !ClosedWithin(w, o, p, ch, k);
      FenceExactly(VisibleLine(w, o), ch, k);
      forall c | o < c < p && LineStart(w, c) ensures !Closes(FenceOf(VisibleLine(w, c)), Fence(ch, k)) {
        var g := FenceOf(VisibleLine(w, c));
        if g.Some? { FenceExactly(VisibleLine(w, c), g.value.ch, g.value.run); }
      }
      assert OpenedBy(w, o, p, Fence(ch, k));
    }
    if exists f :: OpenedBy(w, o, p, f) {
      var f :| OpenedBy(w, o, p, f);
      FenceExactly(VisibleLine(w, o), f.ch, f.run);
      if ClosedWithin(w, o, p, f.ch, f.run) {
        var c: nat, m: nat :| o < c < p && LineStart(w, c) && m >= f.run && FenceLine(VisibleLine(w, c), f.ch, m);
        FenceExactly(VisibleLine(w, c), f.ch, m);
        assert false;
      }
    }
  }

  /** The state of the scan says whether a fence is open, for every line start. */
  lemma {:induction false} FencedExactly(w: Text, p: nat)
    requires p <= |w| && LineStart(w, p)
    ensures Fenced(w, p) <==> StateAfter(w[..p], Render.START).fence.Some?
    decreases p
  {
    hide StateAfter, FenceOf, LineStart, StillOpen, VisibleLine;
    if Fenced(w, p) {
      var o: nat :| o < p && LineStart(w, o) && !Fenced(w, o) && StillOpen(w, o, p);
      FencedExactly(w, o);
      StillOpenIs(w, o, p);
      var f :| OpenedBy(w, o, p, f);
      OpenerStays(w, o, p, f);
    }
    if StateAfter(w[..p], Render.START).fence.Some? {
      var o := OpenHasOpener(w, p);
      var f := StateAfter(w[..p], Render.START).fence.value;
      OpenerIsLine(w, o, p, f);
      FencedExactly(w, o);
      StillOpenIs(w, o, p);
    }
  }

  lemma OpenerIsLine(w: Text, o: nat, p: nat, f: Fence)
    requires p <= |w| && OpenedBy(w, o, p, f)
    ensures o < p && LineStart(w, o) && StateAfter(w[..o], Render.START).fence.None?
  {
  }

  // ------------------------------------------------------------ cuts

  /** Between blocks: the line before is blank and no fence is open. */
  lemma BetweenExactly(w: Text, p: nat)
    requires 0 < p <= |w| && LineStart(w, p)
    ensures StateAfter(w[..p], Render.START) == BETWEEN <==> !Fenced(w, p) && BlankText(VisibleLine(w, LineBegin(w, p - 1)))
  {
    hide StateAfter, Fenced, VisibleLine, BlankText, BlankLine, FenceOf;
    FencedExactly(w, p);
    var q := LineBefore(w, p);
    BlankExactly(VisibleLine(w, q));
    if BlankLine(VisibleLine(w, q)) { BlankIsNoFence(VisibleLine(w, q)); }
  }

  lemma BlankIsNoFence(l: Text)
    requires BlankLine(l)
    ensures FenceOf(l).None?
  {
  }

  /**
   * The scan may cut before a line exactly when no fence is open there, the line before it is blank,
   * and the line, as far as the window shows it, is no quote, list marker or indented line; a line
   * seen whole is not blank and no fence either.
   */
  lemma CutsSpelled(w: Text, q: nat)
    ensures Candidate(w, q) <==>
      0 < q < |w| && w[q - 1] == 0x0A && !Fenced(w, q) && BlankText(VisibleLine(w, LineBegin(w, q - 1))) &&
      var l := VisibleLine(w, q);
      !StaysInside(l) && (Complete(w, q) ==> !BlankText(l) && forall ch: byte, k: nat :: !FenceLine(l, ch, k))
  {
    hide StateAfter, Fenced, VisibleLine, BlankText, BlankLine, FenceOf, StartsTop, StaysInside, FenceLine, LineBegin;
    if 0 < q < |w| && LineStart(w, q) {
      var l := VisibleLine(w, q);
      BetweenExactly(w, q);
      TopStartExactly(l);
      BlankExactly(l);
      FencesExactly(l);
    }
  }

  lemma FencesExactly(l: Text)
    ensures FenceOf(l).None? <==> forall ch: byte, k: nat :: !FenceLine(l, ch, k)
  {
    hide FenceOf, FenceLine;
    forall ch: byte, k: nat ensures FenceOf(l) == Some(Fence(ch, k)) <==> FenceLine(l, ch, k) { FenceExactly(l, ch, k); }
    if FenceOf(l).Some? { assert FenceLine(l, FenceOf(l).value.ch, FenceOf(l).value.run); }
  }

  /** A window never ends behind a line that opens a fence and before one that closes it. */
  lemma WindowEndsOutsideFences(w: Text, end: nat, o: nat, ch: byte, k: nat)
    requires IsWindowEnd(w, false, end) && o < end && LineStart(w, o) && !Fenced(w, o)
    requires FenceLine(VisibleLine(w, o), ch, k)
    ensures ClosedWithin(w, o, end, ch, k)
  {
    hide VisibleLine, FenceLine, Candidate;
    CutsSpelled(w, end);
    assert !Fenced(w, end);
    assert !StillOpen(w, o, end);
  }

  /** A fence of three tildes around two lines with a blank one between them. */
  const TILDES: Text := [0x7E, 0x7E, 0x7E, 0x0A, 0x78, 0x0A, 0x0A, 0x79, 0x0A, 0x7E, 0x7E, 0x7E, 0x0A]

  lemma TildesAreNotCut()
    ensures IsWindowEnd(TILDES, false, 0)
  {
    hide VisibleLine, FenceLine, Candidate, LineEnd;
    TildeLines();
    OtherLines();
    forall q | 0 < q < |TILDES| ensures !Candidate(TILDES, q) {
      CutsSpelled(TILDES, q);
      if q == 4 || q == 6 || q == 7 || q == 9 {
        assert !ClosedWithin(TILDES, 0, q, 0x7E, 3);
        assert StillOpen(TILDES, 0, q) && !Fenced(TILDES, 0);
        assert Fenced(TILDES, q);
      } else {
        assert TILDES[q - 1] != 0x0A;
      }
    }
  }

  lemma TildeLines()
    ensures VisibleLine(TILDES, 4) == [0x78] && VisibleLine(TILDES, 6) == [] && VisibleLine(TILDES, 7) == [0x79]
    ensures FenceLine(VisibleLine(TILDES, 0), 0x7E, 3)
  {
    hide FenceLine, LineEnd;
    LineEndAt(TILDES[0..], 3);
    LineEndAt(TILDES[4..], 1);
    LineEndAt(TILDES[6..], 0);
    LineEndAt(TILDES[7..], 1);
    ThreeTildes();
    assert VisibleLine(TILDES, 0) == [0x7E, 0x7E, 0x7E];
  }

  lemma ThreeTildes()
    ensures FenceLine([0x7E, 0x7E, 0x7E], 0x7E, 3)
  {
    var l: Text := [0x7E, 0x7E, 0x7E];
    hide FenceLine;
    assert l == Repeat(0x20, 0) + Repeat(0x7E, 3) + [];
    FenceLineOf(l, 0, 0x7E, 3, []);
  }

  lemma OtherLines()
    ensures forall m: nat :: !FenceLine([0x78], 0x7E, m) && !FenceLine([], 0x7E, m) && !FenceLine([0x79], 0x7E, m)
  {
    forall m: nat ensures !FenceLine([0x78], 0x7E, m) && !FenceLine([], 0x7E, m) && !FenceLine([0x79], 0x7E, m) {
      TooShort([0x78], m);
      TooShort([], m);
      TooShort([0x79], m);
    }
  }

  lemma TooShort(l: Text, m: nat)
    requires |l| < 3
    ensures !FenceLine(l, 0x7E, m)
  {
  }

  /** So it is over the whole document: no boundary stands in a fence. */
  lemma BoundariesSpelled(doc: Text, p: nat)
    ensures Boundary(doc, p) <==>
      0 < p < |doc| && doc[p - 1] == 0x0A && !Fenced(doc, p) && BlankText(VisibleLine(doc, LineBegin(doc, p - 1)))
  {
    hide StateAfter, Fenced, VisibleLine, BlankText, LineBegin;
    if 0 < p < |doc| && LineStart(doc, p) { BetweenExactly(doc, p); }
  }

  // ------------------------------------------------------------ definitions

  lemma {:induction false} LabelEnds(l: Text, i: nat, r: nat)
    requires i <= r < |l| && Label(l[i..r]) && l[r] == 0x5D
    ensures CloseAt(l, i) == Some(r)
    decreases r - i
  {
    if i < r {
      var t := l[i..r];
      if t[0] == 0x5C {
        assert t[2..] == l[i + 2..r];
        LabelEnds(l, i + 2, r);
      } else {
        assert t[1..] == l[i + 1..r];
        LabelEnds(l, i + 1, r);
      }
    }
  }

  lemma {:induction false} EndIsLabel(l: Text, i: nat)
    requires CloseAt(l, i).Some?
    ensures var r := CloseAt(l, i).value; i <= r < |l| && l[r] == 0x5D && Label(l[i..r])
    decreases if i <= |l| then |l| - i else 0
  {
    var r := CloseAt(l, i).value;
    if l[i] == BACKSLASH {
      EndIsLabel(l, i + 2);
      assert l[i..r][2..] == l[i + 2..r];
    } else if l[i] != RBRACKET {
      EndIsLabel(l, i + 1);
      assert l[i..r][1..] == l[i + 1..r];
    }
  }

  lemma DefinitionIsFound(l: Text, n: nat, name: Text, rest: Text)
    requires n <= 3 && Label(name) && l == Repeat(0x20, n) + [0x5B] + name + [0x5D, 0x3A] + rest
    ensures IsDefinition(l)
  {
    hide Spaces, Label, CloseAt;
    var r := n + 1 + |name|;
    assert l[..n] == Repeat(0x20, n) && l[n] == 0x5B && l[n + 1..r] == name && l[r] == 0x5D && l[r + 1] == 0x3A;
    SpacesIs(l, n);
    LabelEnds(l, n + 1, r);
  }

  lemma DefinitionIsSpelled(l: Text)
    requires IsDefinition(l)
    ensures ReferenceLine(l)
  {
    hide Spaces, Label, CloseAt;
    var n, more := BehindSpaces(l);
    EndIsLabel(l, n + 1);
    var r := CloseAt(l, n + 1).value;
    var name, rest := l[n + 1..r], l[r + 2..];
    assert l[r..r + 2] == [0x5D, 0x3A];
    assert l == l[..n] + [0x5B] + name + [0x5D, 0x3A] + rest;
    assert l == Repeat(0x20, n) + [0x5B] + name + [0x5D, 0x3A] + rest;
  }

  /** The lines taken for definitions are exactly those. */
  lemma DefinitionExactly(l: Text)
    ensures IsDefinition(l) <==> ReferenceLine(l)
  {
    hide IsDefinition, Label;
    if ReferenceLine(l) {
      var n: nat, name: Text, rest: Text :|
        n <= 3 && Label(name) && l == Repeat(0x20, n) + [0x5B] + name + [0x5D, 0x3A] + rest;
      DefinitionIsFound(l, n, name, rest);
    }
    if IsDefinition(l) { DefinitionIsSpelled(l); }
  }

  /** What is carried in front of a window is set off from it by an empty line. */
  lemma PrefixIsSetOff(doc: Text)
    ensures var p := Prefix(doc); p == [] || (|p| >= 2 && p[|p| - 2] == 0x0A && p[|p| - 1] == 0x0A)
  {
    hide RefsFrom, JoinLines;
    var refs := RefsFrom(doc, None);
    if refs != [] { JoinedEnds(refs); }
  }

  lemma {:induction false} JoinedEnds(ls: seq<Text>)
    requires ls != []
    ensures JoinLines(ls) != [] && JoinLines(ls)[|JoinLines(ls)| - 1] == 0x0A
  {
    if |ls| > 1 { JoinedEnds(ls[1..]); } else { assert JoinLines(ls[1..]) == []; }
  }
}
