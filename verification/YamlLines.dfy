/** What the C line reader makes of YAML that the writers do not write: other quotes, comments, flow lists. */
module YamlLines {
  import opened Bytes
  import opened Json
  import opened Yaml
  import D = Metadata
  import M = Manifest
  import P = Policy
  import S = Schema
  import U = UstarFormat

  // ------------------------------------------------------------ scalars

  /** Every single quote doubled. */
  ghost function Doubled(s: Text): Text {
    if s == [] then [] else (if s[0] == 0x27 then [0x27, 0x27] else [s[0]]) + Doubled(s[1..])
  }

  lemma {:induction false} InSingleReads(s: Text, tail: Text)
    requires tail == [] || tail[0] != 0x27
    ensures InSingle(Doubled(s) + ([0x27] + tail)) == s
  {
    hide InSingle;
    var end := [0x27] + tail;
    if s == [] {
      assert Doubled(s) + end == end;
      QuoteEnds(tail);
    } else {
      InSingleReads(s[1..], tail);
      var one := if s[0] == 0x27 then [0x27, 0x27] else [s[0]];
      assert Doubled(s) + end == one + (Doubled(s[1..]) + end);
      OneSingle(s[0], Doubled(s[1..]) + end);
      assert s == [s[0]] + s[1..];
    }
  }

  lemma QuoteEnds(tail: Text)
    requires tail == [] || tail[0] != 0x27
    ensures InSingle([0x27] + tail) == []
  {
  }

  lemma OneSingle(c: byte, rest: Text)
    ensures InSingle((if c == 0x27 then [0x27, 0x27] else [c]) + rest) == [c] + InSingle(rest)
  {
    assert ([0x27, 0x27] + rest)[2..] == rest && ([c] + rest)[1..] == rest;
  }

  /** `'it''s'` is `it's`, whatever follows the closing quote. */
  lemma SingleQuotedReads(s: Text, tail: Text)
    requires tail == [] || tail[0] != 0x27
    ensures ReadScalar([0x27] + Doubled(s) + [0x27] + tail) == s
  {
    hide InSingle, Doubled, InDouble, TrimRight, CommentAt;
    var v := [0x27] + Doubled(s) + [0x27] + tail;
    InSingleReads(s, tail);
    assert v[1..] == Doubled(s) + ([0x27] + tail);
  }

  /** A double-quoted scalar ends at its quote; `\\n`, `\\t`, `\\r` and `\\0` are control bytes, any other escape is its own letter. */
  lemma DoubleQuotedReads(c: byte, tail: Text)
    ensures InDouble([0x22] + tail) == []
    ensures InDouble([0x5C, c] + tail) ==
      [if c == 0x6E then 0x0A else if c == 0x74 then 0x09 else if c == 0x72 then 0x0D else if c == 0x30 then 0x00 else c] + InDouble(tail)
    ensures c != 0x22 && c != 0x5C ==> InDouble([c] + tail) == [c] + InDouble(tail)
  {
    assert ([0x5C, c] + tail)[2..] == tail && ([c] + tail)[1..] == tail;
  }

  /** No hash behind a blank. */
  ghost predicate NoSharp(s: Text) {
    forall i :: 0 < i < |s| && s[i] == 0x23 ==> s[i - 1] != 0x20 && s[i - 1] != 0x09
  }

  lemma {:induction false} CommentIs(s: Text, i: nat, n: nat)
    requires i <= n <= |s| && (forall k :: i <= k < n && s[k] == HASH && k > 0 ==> !Blank(s[k - 1]))
    requires n < |s| ==> s[n] == HASH && n > 0 && Blank(s[n - 1])
    ensures CommentAt(s, i) == n
    decreases n - i
  {
    if i < n { CommentIs(s, i + 1, n); }
  }

  lemma {:induction false} TrimRightIs(s: Text, n: nat)
    requires n <= |s| && (forall k :: n <= k < |s| ==> Blank(s[k])) && (n > 0 ==> !Blank(s[n - 1]))
    ensures TrimRight(s) == s[..n]
    decreases |s|
  {
    if n < |s| {
      TrimRightIs(s[..|s| - 1], n);
      assert s[..|s| - 1][..n] == s[..n];
    } else {
      assert s[..n] == s;
    }
  }

  /** A plain scalar ends before its comment. */
  lemma CommentIsCut(s: Text, gap: Text, comment: Text)
    requires s != [] && s[0] != 0x22 && s[0] != 0x27 && !Blank(s[|s| - 1]) && NoSharp(s)
    requires gap != [] && forall i :: 0 <= i < |gap| ==> Blank(gap[i])
    ensures ReadScalar(s + gap + [0x23] + comment) == s && ReadScalar(s) == s
  {
    var v, n := s + gap + [0x23] + comment, |s| + |gap|;
    assert v[..|s|] == s && v[|s|..n] == gap && v[n] == 0x23;
    forall k | |s| <= k < n ensures Blank(v[k]) { assert v[k] == v[|s|..n][k - |s|]; }
    forall k | 0 < k < n && v[k] == HASH ensures !Blank(v[k - 1]) {
      assert k < |s|;
      assert v[k] == s[k] && v[k - 1] == s[k - 1];
    }
    assert v[n - 1] == gap[|gap| - 1];
    CommentIs(v, 0, n);
    forall k | |s| <= k < n ensures Blank(v[..n][k]) { assert v[..n][k] == gap[k - |s|]; }
    TrimRightIs(v[..n], |s|);
    assert v[..n][..|s|] == s;
    CommentIs(s, 0, |s|);
    TrimRightIs(s, |s|);
    assert s[..|s|] == s;
  }

  // ------------------------------------------------------------ lines that say nothing

  /** A comment, an empty line and a document marker change nothing. */
  lemma SilentLines(line: Text, key: D.Want, want: S.Want, meta: D.State, st: S.State, path: Text, inList: bool)
    requires TrimLeft(line) == [] || TrimLeft(line)[0] == 0x23
    ensures D.LineStep(line, key, meta) == D.Go(meta) && S.LineStep(line, want, st) == S.Go(st) && P.LineStep(line, path, inList) == P.Go(inList)
  {
  }

  lemma MarkersAreSilent(line: Text, key: D.Want, want: S.Want, meta: D.State, st: S.State)
    requires [0x2D, 0x2D, 0x2D] <= TrimLeft(line)
    ensures D.LineStep(line, key, meta) == D.Go(meta) && S.LineStep(line, want, st) == S.Go(st)
  {
  }

  /** A colon separates only before a blank or at the end of the line. */
  lemma ColonNeedsBlank(k: Text, v: Text)
    requires k != [] && !Blank(k[0]) && !Blank(k[|k| - 1]) && v != [] && !Blank(v[0]) && !Blank(v[|v| - 1])
    requires forall i :: 0 <= i < |k| && k[i] == 0x3A ==> i + 1 < |k| && !Blank(k[i + 1])
    ensures SplitLine(k + [0x3A, 0x20] + v, 0) == Some((k, v)) && SplitLine(k, 0) == None
  {
    hide Trim;
    var s := k + [0x3A, 0x20] + v;
    assert s[..|k|] == k && s[|k| + 1..] == [0x20] + v;
    forall i | 0 <= i < |k| && s[i] == 0x3A ensures !Blank(s[i + 1]) { assert s[i] == k[i] && s[i + 1] == k[i + 1]; }
    NoSplit(s, 0, |k|);
    SnugTrims(k);
    SnugTrims(v);
    NoSplit(k, 0, |k|);
  }

  lemma {:induction false} NoSplit(s: Text, i: nat, j: nat)
    requires i <= j <= |s| && forall k :: i <= k < j && s[k] == 0x3A ==> k + 1 < |s| && !Blank(s[k + 1])
    ensures SplitLine(s, i) == SplitLine(s, j)
    decreases j - i
  {
    if i < j { NoSplit(s, i + 1, j); }
  }

  /** The next key at the margin ends the list of sections, and the list of sealed files. */
  lemma TopKeyEnds(line: Text, want: S.Want, st: S.State, path: Text)
    requires line != [] && !Blank(line[0]) && line[0] != 0x23 && !([0x2D, 0x2D, 0x2D] <= line)
    ensures st.inSections ==> S.LineStep(line, want, st) == S.Stop
    ensures (SplitLine(line, 0).None? || U.Field(SplitLine(line, 0).value.0) != M.Ascii("encrypted_files")) ==>
      P.LineStep(line, path, true) == P.Go(false)
  {
    hide SplitLine, M.Ascii;
    assert TrimLeft(line) == line;
  }

  /** An author may be a list item without a key. */
  lemma PlainAuthorReads(name: Text, index: nat, st: D.State)
    requires st.inAuthors && st.seen == index
    requires name != [] && !Blank(name[0]) && !Blank(name[|name| - 1]) && SplitLine(name, 0).None?
    ensures D.LineStep([0x20, 0x20, 0x2D, 0x20] + name, D.NthAuthor(index), st) == D.Take(ReadScalar(name))
  {
    hide ReadScalar, SplitLine, TrimLeft, Trim, M.Ascii, U.Field;
    ItemBody(name);
    SnugTrims(name);
    var body := [0x2D, 0x20] + name;
    assert body[1..] == [0x20] + name && body[0] == 0x2D && body[1] == 0x20;
    NoMarker(body);
  }

  lemma ItemBody(name: Text)
    ensures TrimLeft([0x20, 0x20, 0x2D, 0x20] + name) == [0x2D, 0x20] + name
  {
    var body := [0x2D, 0x20] + name;
    assert TrimLeft(body) == body;
    assert ([0x20] + body)[1..] == body && ([0x20] + ([0x20] + body))[1..] == [0x20] + body;
    assert [0x20, 0x20, 0x2D, 0x20] + name == [0x20] + ([0x20] + body);
  }

  lemma NoMarker(body: Text)
    requires |body| >= 2 && body[1] == 0x20
    ensures !(DASHES <= body)
  {
    assert DASHES[1] == 0x2D;
  }

  /** The words taken for true, in any case. */
  lemma TruthsSpelled(v: Text)
    ensures S.Truthy(v) <==>
      (var w := Lower(v);
       w == M.Ascii("true") || w == M.Ascii("yes") || w == M.Ascii("on") || w == M.Ascii("y") || w == M.Ascii("1"))
  {
    hide M.Ascii;
    assert S.TRUTHS[0] in S.TRUTHS && S.TRUTHS[1] in S.TRUTHS && S.TRUTHS[2] in S.TRUTHS && S.TRUTHS[3] in S.TRUTHS && S.TRUTHS[4] in S.TRUTHS;
  }

  // ------------------------------------------------------------ flow lists

  /** A name without anything the reader gives a meaning. */
  ghost predicate FlowName(n: Text) {
    n != [] && forall i :: 0 <= i < |n| ==>
      n[i] > 0x20 && n[i] != 0x22 && n[i] != 0x23 && n[i] != 0x27 && n[i] != 0x2C && n[i] != 0x5D
  }

  /** `a, b]`: the rest of a list from one of its names on. */
  ghost function FlowRest(ns: seq<Text>): Text
    requires ns != []
  {
    if |ns| == 1 then ns[0] + [0x5D] else ns[0] + [0x2C, 0x20] + FlowRest(ns[1..])
  }

  lemma {:induction false} FlowSeeks(val: Text, start: nat, i: nat, j: nat, path: Text)
    requires start <= i <= j < |val| && forall k :: i <= k < j ==> val[k] != 0 && val[k] != 0x2C && val[k] != 0x5D
    ensures P.FlowNames(val, start, i, path) <==> P.FlowNames(val, start, j, path)
    decreases j - i
  {
    hide P.Names;
    if i < j { FlowSeeks(val, start, i + 1, j, path); }
  }

  lemma NameAlone(n: Text, path: Text)
    requires FlowName(n)
    ensures P.Names(n, path) <==> n == path
    ensures P.Names([0x20] + n, path) <==> n == path
  {
    assert Trim(n) == n && Trim([0x20] + n) == n by { SnugTrims(n); }
    CommentIs(n, 0, |n|);
    TrimRightIs(n, |n|);
    assert n[..|n|] == n;
    M.PlainKey(n);
  }

  /** The item from `start`, whose name stands at `at`, and then the rest of the list. */
  lemma {:induction false} FlowListed(val: Text, start: nat, at: nat, ns: seq<Text>, path: Text)
    requires ns != [] && forall i :: 0 <= i < |ns| ==> FlowName(ns[i])
    requires start <= at <= |val| && val[at..] == FlowRest(ns) && (at == start || (at == start + 1 && val[start] == 0x20))
    ensures P.FlowNames(val, start, start, path) <==> path in ns
    decreases |ns|
  {
    hide P.Names, FlowName;
    var n, e := ns[0], at + |ns[0]|;
    ItemStands(val, start, at, ns);
    FlowSeeks(val, start, start, e, path);
    NameAlone(n, path);
    assert P.Names(val[start..e], path) <==> n == path;
    if |ns| > 1 {
      FlowListed(val, e + 1, e + 2, ns[1..], path);
      assert path in ns <==> path == n || path in ns[1..];
    }
  }

  lemma ItemStands(val: Text, start: nat, at: nat, ns: seq<Text>)
    requires ns != [] && FlowName(ns[0]) && start <= at <= |val| && val[at..] == FlowRest(ns)
    requires at == start || (at == start + 1 && val[start] == 0x20)
    ensures var e := at + |ns[0]|;
      e < |val| && val[start..e] == (if at == start then ns[0] else [0x20] + ns[0]) &&
      (forall k :: start <= k < e ==> val[k] != 0 && val[k] != 0x2C && val[k] != 0x5D) &&
      (if |ns| == 1 then val[e] == 0x5D else e + 2 <= |val| && val[e] == 0x2C && val[e + 1] == 0x20 && val[e + 2..] == FlowRest(ns[1..]))
  {
    var n, e := ns[0], at + |ns[0]|;
    var t := val[at..];
    assert t[..|n|] == n && val[at..e] == t[..|n|];
    assert val[e] == t[|n|];
    if |ns| > 1 {
      assert val[e + 1] == t[|n| + 1] && val[e + 2..] == t[|n| + 2..] == FlowRest(ns[1..]);
    }
    assert val[start..e] == val[start..at] + val[at..e];
    forall k | start <= k < e ensures val[k] != 0 && val[k] != 0x2C && val[k] != 0x5D {
      if k >= at { assert val[k] == val[at..e][k - at] == n[k - at]; }
    }
  }

  /** `encrypted_files: [a, b]` names exactly its items. */
  lemma FlowListNames(ns: seq<Text>, path: Text)
    requires ns != [] && forall i :: 0 <= i < |ns| ==> FlowName(ns[i])
    ensures P.FlowNames([0x5B] + FlowRest(ns), 1, 1, path) <==> path in ns
  {
    hide FlowRest, FlowName;
    var val := [0x5B] + FlowRest(ns);
    assert val[1..] == FlowRest(ns);
    FlowListed(val, 1, 1, ns, path);
  }
}
