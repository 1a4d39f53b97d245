/** The line diff of apps/studio/core/studio_core.cpp. */
module Diff {
  import Lcs

  datatype Tag = Same | Removed | Added

  datatype DiffLine = DiffLine(tag: Tag, text: string)

  // ------------------------------------------------------------ lines

  /** `s.find('\n', start)`: the first newline at or after `start`, or the end. */
  function Newline(s: string, start: nat): (nl: nat)
    requires start <= |s|
    ensures start <= nl <= |s| && (nl < |s| ==> s[nl] == '\n')
    ensures forall i :: start <= i < nl ==> s[i] != '\n'
    decreases |s| - start
  {
    if start == |s| || s[start] == '\n' then start else Newline(s, start + 1)
  }

  ghost function LinesFrom(s: string, start: nat): seq<string>
    requires start <= |s|
    decreases |s| - start
  {
    if start == |s| then []
    else
      var nl := Newline(s, start);
      if nl == |s| then [s[start..]] else [s[start..nl]] + LinesFrom(s, nl + 1)
  }

  ghost function Lines(s: string): seq<string> {
    LinesFrom(s, 0)
  }

  ghost function Unlines(lines: seq<string>): string {
    if lines == [] then "" else lines[0] + "\n" + Unlines(lines[1..])
  }

  lemma LinesUnfold(s: string, start: nat)
    requires start < |s|
    ensures var nl := Newline(s, start);
      LinesFrom(s, start) == if nl == |s| then [s[start..]] else [s[start..nl]] + LinesFrom(s, nl + 1)
  {
    hide Newline;
  }

  lemma UnlinesCons(line: string, lines: seq<string>)
    ensures Unlines([line] + lines) == line + "\n" + Unlines(lines)
  {
    assert ([line] + lines)[1..] == lines;
  }

  /** Splitting loses nothing but the distinction between a last newline and none. */
  lemma {:induction false} LinesJoinBack(s: string, start: nat)
    requires start <= |s|
    ensures Unlines(LinesFrom(s, start)) ==
      if start == |s| || s[|s| - 1] == '\n' then s[start..] else s[start..] + "\n"
    decreases |s| - start
  {
    hide Newline, Unlines, LinesFrom;
    if start < |s| {
      var nl := Newline(s, start);
      LinesUnfold(s, start);
      if nl < |s| {
        LinesJoinBack(s, nl + 1);
        UnlinesCons(s[start..nl], LinesFrom(s, nl + 1));
        assert s[start..] == s[start..nl] + "\n" + s[nl + 1..];
      } else {
        LastLine(s[start..]);
        assert s[|s| - 1] != '\n';
      }
    } else {
      NoUnlines();
      assert LinesFrom(s, start) == [] by { NoLinesFrom(s); }
    }
  }

  lemma LastLine(line: string)
    ensures Unlines([line]) == line + "\n"
  {
    assert [line][1..] == [] && Unlines([]) == "";
    assert line + "\n" + "" == line + "\n";
  }

  lemma NoUnlines()
    ensures Unlines([]) == ""
  {
  }

  lemma NoLinesFrom(s: string)
    ensures LinesFrom(s, |s|) == []
  {
  }

  /** No line holds a newline. */
  lemma {:induction false} LinesAreLines(s: string, start: nat)
    requires start <= |s|
    ensures forall i :: 0 <= i < |LinesFrom(s, start)| ==> '\n' !in LinesFrom(s, start)[i]
    decreases |s| - start
  {
    hide Newline;
    if start < |s| {
      var nl := Newline(s, start);
      if nl < |s| { LinesAreLines(s, nl + 1); }
    }
  }

  method SplitLines(s: string) returns (lines: seq<string>)
    ensures lines == Lines(s)
  {
    hide Newline;
    lines := [];
    var start := 0;
    while start < |s|
      invariant start <= |s|
      invariant lines + LinesFrom(s, start) == Lines(s)
    {
      var nl := Newline(s, start);
      if nl == |s| {
        lines := lines + [s[start..]];
        break;
      }
      lines := lines + [s[start..nl]];
      start := nl + 1;
    }
  }

  // ------------------------------------------------------------ what a diff means

  /** The lines of the old text: kept and removed ones. */
  ghost function Before(d: seq<DiffLine>): seq<string> {
    if d == [] then []
    else (if d[0].tag == Added then [] else [d[0].text]) + Before(d[1..])
  }

  /** The lines of the new text: kept and added ones. */
  ghost function After(d: seq<DiffLine>): seq<string> {
    if d == [] then []
    else (if d[0].tag == Removed then [] else [d[0].text]) + After(d[1..])
  }

  ghost function Kept(d: seq<DiffLine>): seq<string> {
    if d == [] then []
    else (if d[0].tag == Same then [d[0].text] else []) + Kept(d[1..])
  }

  lemma {:induction false} BeforeConcat(d: seq<DiffLine>, e: seq<DiffLine>)
    ensures Before(d + e) == Before(d) + Before(e)
  {
    if d == [] {
      assert d + e == e;
    } else {
      assert (d + e)[1..] == d[1..] + e && (d + e)[0] == d[0];
      BeforeConcat(d[1..], e);
      BeforeUnfold(d);
      BeforeUnfold(d + e);
      hide Before;
    }
  }

  lemma BeforeUnfold(d: seq<DiffLine>)
    requires d != []
    ensures Before(d) == (if d[0].tag != Added then [d[0].text] else []) + Before(d[1..])
  {
  }

  lemma {:induction false} AfterConcat(d: seq<DiffLine>, e: seq<DiffLine>)
    ensures After(d + e) == After(d) + After(e)
  {
    if d == [] {
      assert d + e == e;
    } else {
      assert (d + e)[1..] == d[1..] + e && (d + e)[0] == d[0];
      AfterConcat(d[1..], e);
      AfterUnfold(d);
      AfterUnfold(d + e);
      hide After;
    }
  }

  lemma AfterUnfold(d: seq<DiffLine>)
    requires d != []
    ensures After(d) == (if d[0].tag != Removed then [d[0].text] else []) + After(d[1..])
  {
  }

  lemma {:induction false} KeptConcat(d: seq<DiffLine>, e: seq<DiffLine>)
    ensures Kept(d + e) == Kept(d) + Kept(e)
  {
    if d == [] {
      assert d + e == e;
    } else {
      assert (d + e)[1..] == d[1..] + e && (d + e)[0] == d[0];
      KeptConcat(d[1..], e);
      KeptUnfold(d);
      KeptUnfold(d + e);
      hide Kept;
    }
  }

  lemma KeptUnfold(d: seq<DiffLine>)
    requires d != []
    ensures Kept(d) == (if d[0].tag == Same then [d[0].text] else []) + Kept(d[1..])
  {
  }

  lemma Concat(d: seq<DiffLine>, e: seq<DiffLine>)
    ensures Before(d + e) == Before(d) + Before(e)
    ensures After(d + e) == After(d) + After(e)
    ensures Kept(d + e) == Kept(d) + Kept(e)
  {
    hide Before, After, Kept;
    BeforeConcat(d, e);
    AfterConcat(d, e);
    KeptConcat(d, e);
  }

  lemma Snoc(d: seq<DiffLine>, l: DiffLine)
    ensures Before(d + [l]) == Before(d) + if l.tag == Added then [] else [l.text]
    ensures After(d + [l]) == After(d) + if l.tag == Removed then [] else [l.text]
    ensures Kept(d + [l]) == Kept(d) + if l.tag == Same then [l.text] else []
  {
    Concat(d, [l]);
    assert [l][1..] == [];
  }

  /** Kept lines are common to both texts, so a diff never keeps more than a longest common subsequence. */
  lemma {:induction false} KeptIsCommon(d: seq<DiffLine>)
    ensures Lcs.IsCommon(Kept(d), Before(d), After(d))
    ensures |Kept(d)| <= Lcs.Length(Before(d), After(d))
  {
    if d != [] {
      KeptIsCommon(d[1..]);
      var k, b, a := Kept(d[1..]), Before(d[1..]), After(d[1..]);
      var x := [d[0].text];
      assert (x + k)[1..] == k && (x + b)[1..] == b && (x + a)[1..] == a && [] + k == k && [] + b == b && [] + a == a;
    }
    Lcs.LengthIsBound(Kept(d), Before(d), After(d));
  }

  /** All of `lines` with one tag. */
  ghost function Tagged(tag: Tag, lines: seq<string>): (d: seq<DiffLine>)
    ensures |d| == |lines|
  {
    seq(|lines|, i requires 0 <= i < |lines| => DiffLine(tag, lines[i]))
  }

  lemma {:induction false} TaggedMeaning(tag: Tag, lines: seq<string>)
    ensures Before(Tagged(tag, lines)) == if tag == Added then [] else lines
    ensures After(Tagged(tag, lines)) == if tag == Removed then [] else lines
    ensures Kept(Tagged(tag, lines)) == if tag == Same then lines else []
  {
    if lines != [] {
      var d := Tagged(tag, lines);
      assert d[1..] == Tagged(tag, lines[1..]) && d[0] == DiffLine(tag, lines[0]);
      TaggedMeaning(tag, lines[1..]);
      BeforeUnfold(d);
      AfterUnfold(d);
      KeptUnfold(d);
      hide Before, After, Kept, Tagged;
      assert lines == [lines[0]] + lines[1..];
    } else {
      assert Tagged(tag, lines) == [];
    }
  }

  // ------------------------------------------------------------ the order of a diff

  /** Removing the next old line first would cost a kept line. */
  ghost predicate RemovalLoses(a: seq<string>, b: seq<string>, i: nat, j: nat) {
    i < |a| && j <= |b| && Lcs.Length(a[i + 1..], b[j..]) < Lcs.Length(a[i..], b[j..])
  }

  /** An added line and a removed one behind it, with no kept line between them. */
  ghost predicate Hunk(d: seq<DiffLine>, k: nat, l: nat) {
    k < l < |d| && d[k].tag == Added && d[l].tag == Removed && forall m :: k < m < l ==> d[m].tag != Same
  }

  /** Between two kept lines the removed ones come first, unless that would cost a kept line. */
  ghost predicate RemovedFirst(d: seq<DiffLine>, a: seq<string>, b: seq<string>) {
    forall k: nat, l: nat :: k < l < |d| && Hunk(d, k, l) ==> RemovalLoses(a, b, |Before(d[..k])|, |After(d[..k])|)
  }

  /**
   * The line that comes next when `i` old and `j` new lines are done and the parts to compare end at
   * `n` and `m`: equal lines are kept at once, and an old line goes unless that costs a kept line.
   */
  ghost function Choice(a: seq<string>, b: seq<string>, i: nat, j: nat, n: nat, m: nat): Tag
    requires n <= |a| && m <= |b|
  {
    if i < n && j < m then if a[i] == b[j] then Same else if RemovalLoses(a, b, i, j) then Added else Removed
    else if i < n then Removed
    else if j < m then Added
    else Same
  }

  /** Every line of a diff is the one chosen there. */
  ghost predicate Chosen(d: seq<DiffLine>, a: seq<string>, b: seq<string>, n: nat, m: nat)
    requires n <= |a| && m <= |b|
  {
    forall k :: 0 <= k < |d| ==> d[k].tag == Choice(a, b, |Before(d[..k])|, |After(d[..k])|, n, m)
  }

  lemma ChosenSnoc(d: seq<DiffLine>, l: DiffLine, a: seq<string>, b: seq<string>, n: nat, m: nat)
    requires n <= |a| && m <= |b| && Chosen(d, a, b, n, m)
    requires l.tag == Choice(a, b, |Before(d)|, |After(d)|, n, m)
    ensures Chosen(d + [l], a, b, n, m)
  {
    hide Before, After, Choice;
    var e := d + [l];
    forall k | 0 <= k < |e| ensures e[k].tag == Choice(a, b, |Before(e[..k])|, |After(e[..k])|, n, m) {
      if k < |d| { assert e[..k] == d[..k]; } else { assert e[..k] == d; }
    }
  }

  /** The choice after `t` more lines of one tag. */
  ghost function ChoiceBy(tag: Tag, t: nat, a: seq<string>, b: seq<string>, i: nat, j: nat, n: nat, m: nat): Tag
    requires n <= |a| && m <= |b|
  {
    Choice(a, b, i + (if tag == Added then 0 else t), j + (if tag == Removed then 0 else t), n, m)
  }

  /** Lines of one tag put at the end, one by one. */
  lemma {:induction false} ChosenTagged(d: seq<DiffLine>, tag: Tag, ls: seq<string>, a: seq<string>, b: seq<string>, n: nat, m: nat)
    requires n <= |a| && m <= |b| && Chosen(d, a, b, n, m)
    requires forall t: nat :: t < |ls| ==> tag == ChoiceBy(tag, t, a, b, |Before(d)|, |After(d)|, n, m)
    ensures Chosen(d + Tagged(tag, ls), a, b, n, m)
    decreases |ls|
  {
    hide Before, After, Kept, Choice, Chosen;
    if ls == [] {
      assert d + Tagged(tag, ls) == d;
    } else {
      var init, last := ls[..|ls| - 1], ls[|ls| - 1];
      ChosenTagged(d, tag, init, a, b, n, m);
      var e := d + Tagged(tag, init);
      Concat(d, Tagged(tag, init));
      TaggedMeaning(tag, init);
      assert tag == ChoiceBy(tag, |init|, a, b, |Before(d)|, |After(d)|, n, m);
      ChosenSnoc(e, DiffLine(tag, last), a, b, n, m);
      assert d + Tagged(tag, ls) == e + [DiffLine(tag, last)];
    }
  }

  lemma {:induction false} LinesGrow(d: seq<DiffLine>, k: nat)
    requires k <= |d|
    ensures |Before(d[..k])| <= |Before(d)| && |After(d[..k])| <= |After(d)|
  {
    hide Before, After, Kept;
    Concat(d[..k], d[k..]);
    assert d == d[..k] + d[k..];
  }

  lemma NextLine(d: seq<DiffLine>, k: nat)
    requires k < |d|
    ensures |Before(d[..k + 1])| == |Before(d[..k])| + if d[k].tag == Added then 0 else 1
    ensures |After(d[..k + 1])| == |After(d[..k])| + if d[k].tag == Removed then 0 else 1
  {
    hide Before, After, Kept;
    Snoc(d[..k], d[k]);
    assert d[..k + 1] == d[..k] + [d[k]];
  }

  lemma TextAt(d: seq<DiffLine>, k: nat)
    requires k < |d|
    ensures d[k].tag != Added ==> |Before(d[..k])| < |Before(d)| && d[k].text == Before(d)[|Before(d[..k])|]
    ensures d[k].tag == Added ==> |After(d[..k])| < |After(d)| && d[k].text == After(d)[|After(d[..k])|]
  {
    hide Before, After, Kept;
    Snoc(d[..k], d[k]);
    Concat(d[..k + 1], d[k + 1..]);
    assert d[..k + 1] == d[..k] + [d[k]] && d == d[..k + 1] + d[k + 1..];
  }

  lemma {:induction false} SameSoFar(d: seq<DiffLine>, e: seq<DiffLine>, n: nat, m: nat, k: nat)
    requires Before(d) == Before(e) && After(d) == After(e) && n <= |Before(d)| && m <= |After(d)|
    requires Chosen(d, Before(d), After(d), n, m) && Chosen(e, Before(d), After(d), n, m) && k <= |d| && k <= |e|
    ensures d[..k] == e[..k]
  {
    hide Before, After, Choice;
    if k > 0 {
      SameSoFar(d, e, n, m, k - 1);
      TextAt(d, k - 1);
      TextAt(e, k - 1);
      assert d[..k] == d[..k - 1] + [d[k - 1]] && e[..k] == e[..k - 1] + [e[k - 1]];
    }
  }

  lemma NotLonger(d: seq<DiffLine>, e: seq<DiffLine>)
    requires Before(d) == Before(e) && After(d) == After(e) && |d| <= |e| && e[..|d|] == d
    ensures d == e
  {
    hide Before, After;
    if |d| < |e| {
      NextLine(e, |d|);
      LinesGrow(e, |d| + 1);
    } else {
      assert e[..|d|] == e;
    }
  }

  /** The choices leave only one diff between two texts. */
  lemma ChosenIsUnique(d: seq<DiffLine>, e: seq<DiffLine>, n: nat, m: nat)
    requires Before(d) == Before(e) && After(d) == After(e) && n <= |Before(d)| && m <= |After(d)|
    requires Chosen(d, Before(d), After(d), n, m) && Chosen(e, Before(d), After(d), n, m)
    ensures d == e
  {
    hide Before, After, Chosen;
    var k := if |d| <= |e| then |d| else |e|;
    SameSoFar(d, e, n, m, k);
    assert d[..|d|] == d && e[..|e|] == e;
    if |d| <= |e| { NotLonger(d, e); } else { NotLonger(e, d); }
  }

  /** A diff of chosen lines has the removed ones first. */
  lemma ChosenIsRemovedFirst(d: seq<DiffLine>, a: seq<string>, b: seq<string>)
    requires Before(d) == a && After(d) == b && Chosen(d, a, b, |a|, |b|)
    ensures RemovedFirst(d, a, b)
  {
    hide Before, After, RemovalLoses;
    forall k: nat, l: nat | k < l < |d| && Hunk(d, k, l)
      ensures RemovalLoses(a, b, |Before(d[..k])|, |After(d[..k])|)
    {
      NextLine(d, k);
      LinesGrow(d, k + 1);
      NextLine(d, l);
      LinesGrow(d, l + 1);
      LinesGrow(d[..l], k);
      assert d[..l][..k] == d[..k];
    }
  }

  /** A diff that keeps nothing and removes everything first. */
  lemma ReplacedIsRemovedFirst(a: seq<string>, b: seq<string>)
    ensures RemovedFirst([] + Tagged(Removed, a) + Tagged(Added, b), a, b)
  {
  }

  lemma ChoiceBehind(head: seq<string>, x: seq<string>, y: seq<string>, i: nat, j: nat, n: nat, m: nat)
    requires n <= |x| && m <= |y|
    ensures Choice(head + x, head + y, |head| + i, |head| + j, |head| + n, |head| + m) == Choice(x, y, i, j, n, m)
    ensures RemovalLoses(head + x, head + y, |head| + i, |head| + j) <==> RemovalLoses(x, y, i, j)
  {
    hide Lcs.Length;
    var a, b := head + x, head + y;
    if i < |x| && j <= |y| {
      assert a[|head| + i..] == x[i..] && a[|head| + i + 1..] == x[i + 1..] && b[|head| + j..] == y[j..];
    }
  }

  /** Common lines put in front. */
  lemma ChosenBehind(head: seq<string>, rest: seq<DiffLine>, x: seq<string>, y: seq<string>, n: nat, m: nat)
    requires n <= |x| && m <= |y| && Chosen(rest, x, y, n, m)
    ensures Chosen([] + Tagged(Same, head) + rest, head + x, head + y, |head| + n, |head| + m)
  {
    hide Before, After, Kept, Choice;
    var d := [] + Tagged(Same, head) + rest;
    var a, b := head + x, head + y;
    forall k | 0 <= k < |d| ensures d[k].tag == Choice(a, b, |Before(d[..k])|, |After(d[..k])|, |head| + n, |head| + m) {
      if k < |head| {
        FrontIsKept(head, rest, k);
        KeptInFront(head, x, y, k, n, m);
      } else {
        BackIsShifted(head, rest, k);
        ChoiceBehind(head, x, y, |Before(rest[..k - |head|])|, |After(rest[..k - |head|])|, n, m);
      }
    }
  }

  lemma KeptInFront(head: seq<string>, x: seq<string>, y: seq<string>, k: nat, n: nat, m: nat)
    requires n <= |x| && m <= |y| && k < |head|
    ensures Choice(head + x, head + y, k, k, |head| + n, |head| + m) == Same
  {
  }

  lemma FrontIsKept(head: seq<string>, rest: seq<DiffLine>, k: nat)
    requires k <= |head|
    ensures var d := [] + Tagged(Same, head) + rest; |Before(d[..k])| == k && |After(d[..k])| == k
  {
    hide Before, After, Kept;
    var d := [] + Tagged(Same, head) + rest;
    TaggedMeaning(Same, head[..k]);
    assert d[..k] == Tagged(Same, head[..k]);
  }

  lemma BackIsShifted(head: seq<string>, rest: seq<DiffLine>, k: nat)
    requires |head| <= k <= |head| + |rest|
    ensures var d := [] + Tagged(Same, head) + rest; var r := rest[..k - |head|];
      |Before(d[..k])| == |head| + |Before(r)| && |After(d[..k])| == |head| + |After(r)|
  {
    hide Before, After, Kept;
    var d, r := [] + Tagged(Same, head) + rest, rest[..k - |head|];
    TaggedMeaning(Same, head);
    Concat(Tagged(Same, head), r);
    assert d[..k] == Tagged(Same, head) + r;
  }

  lemma RemovedFirstBehind(head: seq<string>, rest: seq<DiffLine>, x: seq<string>, y: seq<string>)
    requires RemovedFirst(rest, x, y)
    ensures RemovedFirst([] + Tagged(Same, head) + rest, head + x, head + y)
  {
    hide Before, After, RemovalLoses, Tagged, Hunk;
    var d, h := [] + Tagged(Same, head) + rest, |head|;
    forall k: nat, l: nat | k < l < |d| && Hunk(d, k, l)
      ensures RemovalLoses(head + x, head + y, |Before(d[..k])|, |After(d[..k])|)
    {
      PutBehind(head, rest);
      HunkBehind(rest, d, h, k, l);
      BackIsShifted(head, rest, k);
      ChoiceBehind(head, x, y, |Before(rest[..k - h])|, |After(rest[..k - h])|, 0, 0);
    }
  }

  lemma PutBehind(head: seq<string>, rest: seq<DiffLine>)
    ensures var d := [] + Tagged(Same, head) + rest;
      |d| == |head| + |rest| && (forall m :: 0 <= m < |head| ==> d[m].tag == Same) && forall m :: |head| <= m < |d| ==> d[m] == rest[m - |head|]
  {
  }

  lemma HunkBehind(rest: seq<DiffLine>, d: seq<DiffLine>, h: nat, k: nat, l: nat)
    requires |d| == h + |rest| && (forall m :: 0 <= m < h ==> d[m].tag == Same) && forall m :: h <= m < |d| ==> d[m] == rest[m - h]
    requires Hunk(d, k, l)
    ensures k >= h && Hunk(rest, k - h, l - h)
  {
    forall m | k - h < m < l - h ensures rest[m].tag != Same { assert d[m + h] == rest[m]; }
  }

  lemma LosesInFront(x: seq<string>, y: seq<string>, tail: seq<string>, i: nat, j: nat)
    requires i < |x| && j <= |y|
    ensures RemovalLoses(x + tail, y + tail, i, j) <==> RemovalLoses(x, y, i, j)
  {
    hide Lcs.Length;
    var a, b := x + tail, y + tail;
    assert a[i..] == x[i..] + tail && a[i + 1..] == x[i + 1..] + tail && b[j..] == y[j..] + tail;
    Lcs.SharedSuffix(x[i..], y[j..], tail);
    Lcs.SharedSuffix(x[i + 1..], y[j..], tail);
  }

  lemma ChoiceInFront(x: seq<string>, y: seq<string>, tail: seq<string>, i: nat, j: nat)
    ensures Choice(x + tail, y + tail, i, j, |x|, |y|) == Choice(x, y, i, j, |x|, |y|)
  {
    if i < |x| && j < |y| { LosesInFront(x, y, tail, i, j); }
    hide RemovalLoses;
  }

  /** Common lines put at the end. */
  lemma ChosenInFront(mid: seq<DiffLine>, x: seq<string>, y: seq<string>, tail: seq<string>)
    requires Before(mid) == x && After(mid) == y && Chosen(mid, x, y, |x|, |y|)
    ensures Chosen(mid + Tagged(Same, tail), x + tail, y + tail, |x|, |y|)
  {
    hide Before, After, Choice;
    var a, b := x + tail, y + tail;
    forall k | 0 <= k < |mid| ensures mid[k].tag == Choice(a, b, |Before(mid[..k])|, |After(mid[..k])|, |x|, |y|) {
      ChoiceInFront(x, y, tail, |Before(mid[..k])|, |After(mid[..k])|);
    }
    forall t: nat | t < |tail| ensures ChoiceBy(Same, t, a, b, |x|, |y|, |x|, |y|) == Same {
      PastBoth(a, b, |x| + t, |y| + t, |x|, |y|);
    }
    ChosenTagged(mid, Same, tail, a, b, |x|, |y|);
  }

  lemma PastBoth(a: seq<string>, b: seq<string>, i: nat, j: nat, n: nat, m: nat)
    requires n <= |a| && m <= |b| && n <= i && m <= j
    ensures Choice(a, b, i, j, n, m) == Same
  {
  }

  lemma RemovedFirstInFront(mid: seq<DiffLine>, x: seq<string>, y: seq<string>, tail: seq<string>)
    requires Before(mid) == x && After(mid) == y && RemovedFirst(mid, x, y)
    ensures RemovedFirst(mid + Tagged(Same, tail), x + tail, y + tail)
  {
    hide Before, After, RemovalLoses, Tagged, Hunk;
    var d := mid + Tagged(Same, tail);
    forall k: nat, l: nat | k < l < |d| && Hunk(d, k, l)
      ensures RemovalLoses(x + tail, y + tail, |Before(d[..k])|, |After(d[..k])|)
    {
      HunkInFront(mid, tail, k, l);
      var i, j := |Before(mid[..k])|, |After(mid[..k])|;
      LosesAt(x, y, i, j);
      LosesInFront(x, y, tail, i, j);
    }
  }

  lemma HunkInFront(mid: seq<DiffLine>, tail: seq<string>, k: nat, l: nat)
    requires Hunk(mid + Tagged(Same, tail), k, l)
    ensures Hunk(mid, k, l) && (mid + Tagged(Same, tail))[..k] == mid[..k]
  {
    var d := mid + Tagged(Same, tail);
    assert l < |mid|;
    forall m | k < m < l ensures mid[m].tag != Same { assert d[m] == mid[m]; }
  }

  lemma LosesAt(a: seq<string>, b: seq<string>, i: nat, j: nat)
    requires RemovalLoses(a, b, i, j)
    ensures i < |a| && j <= |b|
  {
  }

  // ------------------------------------------------------------ the algorithm

  /** How far two lists agree from the front, once they agree for `n` lines. */
  ghost function Pre(a: seq<string>, b: seq<string>, n: nat): (r: nat)
    requires n <= |a| && n <= |b| && a[..n] == b[..n]
    ensures r <= |a| && r <= |b| && a[..r] == b[..r]
    decreases |a| - n
  {
    if n < |a| && n < |b| && a[n] == b[n] then Pre(a, b, n + 1) else n
  }

  ghost predicate SameEnd(a: seq<string>, b: seq<string>, n: nat) {
    n <= |a| && n <= |b| && a[|a| - n..] == b[|b| - n..]
  }

  /** How far they agree from the back. */
  ghost function Suf(a: seq<string>, b: seq<string>, n: nat): (r: nat)
    requires SameEnd(a, b, n)
    ensures SameEnd(a, b, r)
    decreases |a| - n
  {
    if n < |a| && n < |b| && a[|a| - 1 - n] == b[|b| - 1 - n] then Suf(a, b, n + 1) else n
  }

  /** Both lists without their common end. */
  ghost function Fronts(x: seq<string>, y: seq<string>): (m: (seq<string>, seq<string>))
    ensures |m.0| <= |x| && |m.1| <= |y|
  {
    var suf := Suf(x, y, 0);
    (x[..|x| - suf], y[..|y| - suf])
  }

  /** The part that differs: both texts without their common ends. */
  ghost function Middle(a: seq<string>, b: seq<string>): (m: (seq<string>, seq<string>))
    ensures Pre(a, b, 0) + |m.0| <= |a| && Pre(a, b, 0) + |m.1| <= |b|
  {
    var pre := Pre(a, b, 0);
    Fronts(a[pre..], b[pre..])
  }

  method CommonPrefix(a: seq<string>, b: seq<string>) returns (pre: nat)
    ensures pre <= |a| && pre <= |b| && a[..pre] == b[..pre]
    ensures pre < |a| && pre < |b| ==> a[pre] != b[pre]
    ensures pre == Pre(a, b, 0)
  {
    pre := 0;
    while pre < |a| && pre < |b| && a[pre] == b[pre]
      invariant pre <= |a| && pre <= |b| && a[..pre] == b[..pre]
      invariant Pre(a, b, pre) == Pre(a, b, 0)
    {
      pre := pre + 1;
    }
  }

  /** One more common line at the end. */
  lemma LongerSuffix(a: seq<string>, b: seq<string>, n: nat)
    requires n < |a| && n < |b| && SameEnd(a, b, n) && a[|a| - 1 - n] == b[|b| - 1 - n]
    ensures SameEnd(a, b, n + 1)
  {
    assert a[|a| - (n + 1)..] == [a[|a| - 1 - n]] + a[|a| - n..];
    assert b[|b| - (n + 1)..] == [b[|b| - 1 - n]] + b[|b| - n..];
  }

  lemma SufUnfold(a: seq<string>, b: seq<string>, n: nat)
    requires SameEnd(a, b, n)
    ensures !(n < |a| && n < |b| && a[|a| - 1 - n] == b[|b| - 1 - n]) ==> Suf(a, b, n) == n
    ensures n < |a| && n < |b| && a[|a| - 1 - n] == b[|b| - 1 - n] ==>
      SameEnd(a, b, n + 1) && Suf(a, b, n) == Suf(a, b, n + 1)
  {
    hide SameEnd;
    if n < |a| && n < |b| && a[|a| - 1 - n] == b[|b| - 1 - n] { LongerSuffix(a, b, n); }
  }

  method CommonSuffix(a: seq<string>, b: seq<string>) returns (suf: nat)
    ensures SameEnd(a, b, suf)
    ensures suf < |a| && suf < |b| ==> a[|a| - 1 - suf] != b[|b| - 1 - suf]
    ensures suf == Suf(a, b, 0)
  {
    suf := 0;
    hide Suf, SameEnd;
    while suf < |a| && suf < |b| && a[|a| - 1 - suf] == b[|b| - 1 - suf]
      invariant suf <= |a| && suf <= |b| && SameEnd(a, b, suf)
      invariant Suf(a, b, suf) == Suf(a, b, 0)
    {
      SufUnfold(a, b, suf);
      suf := suf + 1;
    }
    SufUnfold(a, b, suf);
  }

  /** `lines` pushed one by one under one tag. */
  method PushAll(out: seq<DiffLine>, tag: Tag, lines: seq<string>) returns (r: seq<DiffLine>)
    ensures r == out + Tagged(tag, lines)
  {
    r := out;
    for i := 0 to |lines|
      invariant r == out + Tagged(tag, lines[..i])
    {
      r := r + [DiffLine(tag, lines[i])];
    }
    assert lines[..|lines|] == lines;
  }

  ghost predicate TableDone(dp: array2<nat>, a: seq<string>, b: seq<string>, i: nat)
    reads dp
  {
    dp.Length0 == |a| + 1 && dp.Length1 == |b| + 1 &&
    forall p, q :: i <= p <= |a| && 0 <= q <= |b| ==> dp[p, q] == Lcs.Length(a[p..], b[q..])
  }

  /** A cell of the table, from its neighbours. */
  lemma CellIs(a: seq<string>, b: seq<string>, i: nat, j: nat)
    requires i < |a| && j < |b|
    ensures Lcs.Length(a[i..], b[j..]) ==
      if a[i] == b[j] then Lcs.Length(a[i + 1..], b[j + 1..]) + 1
      else Lcs.Max(Lcs.Length(a[i + 1..], b[j..]), Lcs.Length(a[i..], b[j + 1..]))
  {
    assert a[i..][1..] == a[i + 1..] && b[j..][1..] == b[j + 1..];
  }

  lemma EdgeIs(a: seq<string>, b: seq<string>, i: nat, j: nat)
    requires i <= |a| && j <= |b| && (i == |a| || j == |b|)
    ensures Lcs.Length(a[i..], b[j..]) == 0
  {
  }

  /** One row of the table, filled from its right end. */
  method FillRow(a: seq<string>, b: seq<string>, dp: array2<nat>, i: nat)
    requires i < |a| && TableDone(dp, a, b, i + 1) && dp[i, |b|] == 0
    modifies dp
    ensures TableDone(dp, a, b, i) && forall p :: 0 <= p < i ==> dp[p, |b|] == old(dp[p, |b|])
  {
    hide Lcs.Length;
    EdgeIs(a, b, i, |b|);
    for j := |b| downto 0
      invariant TableDone(dp, a, b, i + 1)
      invariant forall q :: j <= q <= |b| ==> dp[i, q] == Lcs.Length(a[i..], b[q..])
      invariant forall p :: 0 <= p < i ==> dp[p, |b|] == old(dp[p, |b|])
    {
      CellIs(a, b, i, j);
      dp[i, j] := if a[i] == b[j] then dp[i + 1, j + 1] + 1 else Lcs.Max(dp[i + 1, j], dp[i, j + 1]);
    }
  }

  /** The table, filled backwards: cell (i, j) is the LCS length of what follows i and j. */
  method FillTable(a: seq<string>, b: seq<string>) returns (dp: array2<nat>)
    ensures fresh(dp) && TableDone(dp, a, b, 0)
  {
    hide Lcs.Length;
    var n, m := |a|, |b|;
    dp := new nat[n + 1, m + 1]((i, j) => 0);
    forall q | 0 <= q <= m ensures Lcs.Length(a[n..], b[q..]) == 0 { EdgeIs(a, b, n, q); }
    for i := n downto 0
      invariant TableDone(dp, a, b, i)
      invariant forall p :: 0 <= p < i ==> dp[p, m] == 0
    {
      FillRow(a, b, dp, i);
    }
  }

  /** The greedy walk over the table keeps as many lines as the table promises. */
  method Walk(a: seq<string>, b: seq<string>, dp: array2<nat>) returns (out: seq<DiffLine>)
    requires TableDone(dp, a, b, 0)
    ensures Before(out) == a && After(out) == b
    ensures |Kept(out)| == Lcs.Length(a, b)
    ensures Chosen(out, a, b, |a|, |b|)
  {
    hide Before, After, Kept, Lcs.Length, Chosen, Choice;
    var i, j := 0, 0;
    out := [];
    Nothing();
    while i < |a| && j < |b|
      invariant i <= |a| && j <= |b|
      invariant Before(out) == a[..i] && After(out) == b[..j]
      invariant |Kept(out)| + Lcs.Length(a[i..], b[j..]) == Lcs.Length(a, b)
      invariant Chosen(out, a, b, |a|, |b|)
    {
      CellIs(a, b, i, j);
      ChoiceIs(a, b, i, j);
      var line: DiffLine;
      if a[i] == b[j] {
        line := DiffLine(Same, a[i]);
        i, j := i + 1, j + 1;
      } else if dp[i + 1, j] >= dp[i, j + 1] {
        line := DiffLine(Removed, a[i]);
        i := i + 1;
      } else {
        line := DiffLine(Added, b[j]);
        j := j + 1;
      }
      Snoc(out, line);
      ChosenSnoc(out, line, a, b, |a|, |b|);
      out := out + [line];
    }
    EdgeIs(a, b, i, j);
    ChosenEnds(out, a, b, i, j);
    var rest := PushAll([], Removed, a[i..]);
    rest := PushAll(rest, Added, b[j..]);
    Replaced(a[i..], b[j..]);
    Concat(out, rest);
    out := out + rest;
  }

  lemma Nothing()
    ensures Before([]) == [] && After([]) == [] && Kept([]) == []
    ensures forall a, b, n: nat, m: nat :: n <= |a| && m <= |b| ==> Chosen([], a, b, n, m)
  {
  }

  /** What the table says about the choice. */
  lemma ChoiceIs(a: seq<string>, b: seq<string>, i: nat, j: nat)
    requires i < |a| && j < |b|
    ensures Choice(a, b, i, j, |a|, |b|) ==
      if a[i] == b[j] then Same
      else if Lcs.Length(a[i + 1..], b[j..]) >= Lcs.Length(a[i..], b[j + 1..]) then Removed
      else Added
  {
    CellIs(a, b, i, j);
    hide Lcs.Length;
  }

  /** One list is used up, and the rest of the other follows. */
  lemma ChosenEnds(d: seq<DiffLine>, a: seq<string>, b: seq<string>, i: nat, j: nat)
    requires i <= |a| && j <= |b| && (i == |a| || j == |b|)
    requires Before(d) == a[..i] && After(d) == b[..j] && Chosen(d, a, b, |a|, |b|)
    ensures Chosen(d + ([] + Tagged(Removed, a[i..]) + Tagged(Added, b[j..])), a, b, |a|, |b|)
  {
    hide Before, After, Kept, Chosen, RemovalLoses;
    ChosenTagged(d, Removed, a[i..], a, b, |a|, |b|);
    var e := d + Tagged(Removed, a[i..]);
    Concat(d, Tagged(Removed, a[i..]));
    TaggedMeaning(Removed, a[i..]);
    ChosenTagged(e, Added, b[j..], a, b, |a|, |b|);
    assert d + ([] + Tagged(Removed, a[i..]) + Tagged(Added, b[j..])) == e + Tagged(Added, b[j..]);
  }

  /** Everything removed and then everything added. */
  lemma Replaced(a: seq<string>, b: seq<string>)
    ensures var d := [] + Tagged(Removed, a) + Tagged(Added, b); Before(d) == a && After(d) == b && Kept(d) == []
  {
    assert [] + Tagged(Removed, a) == Tagged(Removed, a);
    Concat(Tagged(Removed, a), Tagged(Added, b));
    TaggedMeaning(Removed, a);
    TaggedMeaning(Added, b);
  }

  /** The changed middle: by the table when it is small enough, else replaced wholesale. */
  method DiffMiddle(a: seq<string>, b: seq<string>) returns (out: seq<DiffLine>)
    ensures Before(out) == a && After(out) == b
    ensures |a| * |b| <= 1_000_000 ==> |Kept(out)| == Lcs.Length(a, b) && Chosen(out, a, b, |a|, |b|)
    ensures RemovedFirst(out, a, b)
  {
    hide Before, After, Kept, Chosen, RemovedFirst, Lcs.Length;
    if |a| * |b| <= 1_000_000 {
      var dp := FillTable(a, b);
      out := Walk(a, b, dp);
      ChosenIsRemovedFirst(out, a, b);
    } else {
      out := PushAll([], Removed, a);
      out := PushAll(out, Added, b);
      Replaced(a, b);
      ReplacedIsRemovedFirst(a, b);
    }
  }

  /** The diff of two line lists: common ends trimmed, the middle compared. */
  method DiffTrimmed(a: seq<string>, b: seq<string>) returns (out: seq<DiffLine>)
    ensures Before(out) == a && After(out) == b
    ensures var m := Middle(a, b); |m.0| * |m.1| <= 1_000_000 ==> |Kept(out)| == Lcs.Length(a, b) && ChosenLines(out, a, b)
    ensures RemovedFirst(out, a, b)
  {
    hide Before, After, Kept, Pre, Fronts, Lcs.Length, Tagged, RemovedFirst, Chosen;
    var pre := CommonPrefix(a, b);
    out := PushAll([], Same, a[..pre]);
    var x, y := a[pre..], b[pre..];
    var rest := DiffFronts(x, y);
    Behind(a[..pre], rest, out + rest);
    RemovedFirstBehind(a[..pre], rest, x, y);
    ghost var m := Fronts(x, y);
    if |m.0| * |m.1| <= 1_000_000 { ChosenBehind(a[..pre], rest, x, y, |m.0|, |m.1|); }
    out := out + rest;
    SamePrefix(a, b, pre);
  }

  /** Every line of a diff is the one chosen there, when the common ends are left out of the comparison. */
  ghost predicate ChosenLines(d: seq<DiffLine>, a: seq<string>, b: seq<string>) {
    var pre, m := Pre(a, b, 0), Middle(a, b);
    Chosen(d, a, b, pre + |m.0|, pre + |m.1|)
  }

  /** Behind the common start. */
  method DiffFronts(x: seq<string>, y: seq<string>) returns (out: seq<DiffLine>)
    ensures Before(out) == x && After(out) == y
    ensures var m := Fronts(x, y); |m.0| * |m.1| <= 1_000_000 ==> |Kept(out)| == Lcs.Length(x, y) && Chosen(out, x, y, |m.0|, |m.1|)
    ensures RemovedFirst(out, x, y)
  {
    hide Before, After, Kept, Suf, Fronts, Lcs.Length, Tagged, RemovedFirst, Chosen;
    var suf := CommonSuffix(x, y);
    var mx, my, tail := x[..|x| - suf], y[..|y| - suf], x[|x| - suf..];
    FrontsAre(x, y, suf, mx, my, tail);
    hide SameEnd;
    var middle := DiffMiddle(mx, my);
    out := PushAll(middle, Same, tail);
    InFront(middle, tail, out);
    RemovedFirstInFront(middle, mx, my, tail);
    if |mx| * |my| <= 1_000_000 { ChosenInFront(middle, mx, my, tail); }
  }

  /**
   * The diff of two texts is an edit script from one to the other. When the part that differs is
   * small enough for the table, no edit script keeps more lines, and every line is the one `Choice`
   * says. In any case the removed lines of a hunk come first unless that would cost a kept line.
   */
  method DiffLines(before: string, after: string) returns (out: seq<DiffLine>)
    ensures Before(out) == Lines(before) && After(out) == Lines(after)
    ensures var m := Middle(Lines(before), Lines(after)); |m.0| * |m.1| <= 1_000_000 ==>
      |Kept(out)| == Lcs.Length(Lines(before), Lines(after)) && ChosenLines(out, Lines(before), Lines(after))
    ensures RemovedFirst(out, Lines(before), Lines(after))
  {
    hide Before, After, Kept, Middle, Lcs.Length, Lines, RemovedFirst, ChosenLines;
    var a := SplitLines(before);
    var b := SplitLines(after);
    out := DiffTrimmed(a, b);
  }

  lemma SamePrefix(a: seq<string>, b: seq<string>, n: nat)
    requires n <= |a| && n <= |b| && a[..n] == b[..n]
    ensures a == a[..n] + a[n..] && b == a[..n] + b[n..]
  {
  }

  lemma FrontsAre(x: seq<string>, y: seq<string>, suf: nat, mx: seq<string>, my: seq<string>, tail: seq<string>)
    requires SameEnd(x, y, suf) && suf == Suf(x, y, 0)
    requires mx == x[..|x| - suf] && my == y[..|y| - suf] && tail == x[|x| - suf..]
    ensures Fronts(x, y) == (mx, my) && x == mx + tail && y == my + tail
  {
    hide Suf;
    SameSuffix(x, y, suf);
  }

  lemma SameSuffix(x: seq<string>, y: seq<string>, n: nat)
    requires n <= |x| && n <= |y| && x[|x| - n..] == y[|y| - n..]
    ensures x == x[..|x| - n] + x[|x| - n..] && y == y[..|y| - n] + x[|x| - n..]
  {
  }

  /** Common lines in front are kept, and leaving them out loses no common line. */
  lemma Behind(head: seq<string>, rest: seq<DiffLine>, out: seq<DiffLine>)
    requires out == [] + Tagged(Same, head) + rest
    ensures Before(out) == head + Before(rest) && After(out) == head + After(rest)
    ensures |Kept(out)| - Lcs.Length(Before(out), After(out)) == |Kept(rest)| - Lcs.Length(Before(rest), After(rest))
  {
    hide Before, After, Kept, Lcs.Length, Tagged;
    assert [] + Tagged(Same, head) == Tagged(Same, head);
    TaggedMeaning(Same, head);
    Concat(Tagged(Same, head), rest);
    Lcs.SharedPrefix(head, Before(rest), After(rest));
  }

  /** The same of common lines at the end. */
  lemma InFront(rest: seq<DiffLine>, tail: seq<string>, out: seq<DiffLine>)
    requires out == rest + Tagged(Same, tail)
    ensures Before(out) == Before(rest) + tail && After(out) == After(rest) + tail
    ensures |Kept(out)| - Lcs.Length(Before(out), After(out)) == |Kept(rest)| - Lcs.Length(Before(rest), After(rest))
  {
    hide Before, After, Kept, Lcs.Length, Tagged;
    TaggedMeaning(Same, tail);
    Concat(rest, Tagged(Same, tail));
    Lcs.SharedSuffix(Before(rest), After(rest), tail);
  }
}
