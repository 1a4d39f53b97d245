/** The loops behind the YAML scalars and lines: src/serialize/writers.cpp and micro/src/yaml_min.c. */
module YamlCode {
  import opened Bytes
  import opened Json
  import opened Index
  import opened Ustar
  import opened Yaml
  import U = UstarFormat
  import M = Manifest
  import Tar

  // ------------------------------------------------------------ writing

  /** `is_reserved_word`. */
  method IsReservedWord(s: Text) returns (r: bool)
    ensures r <==> Lower(s) in RESERVED
  {
    hide M.Ascii;
    var lower: Text := [];
    for i := 0 to |s|
      invariant |lower| == i && forall k :: 0 <= k < i ==> lower[k] == LowerByte(s[k])
    {
      lower := lower + [LowerByte(s[i])];
    }
    assert lower == Lower(s);
    for i := 0 to |RESERVED|
      invariant forall k :: 0 <= k < i ==> RESERVED[k] != lower
    {
      if RESERVED[i] == lower {
        return true;
      }
    }
    r := false;
  }

  /** `is_plain_safe`. */
  method IsPlainSafe(s: Text) returns (r: bool)
    ensures r <==> PlainSafe(s)
  {
    hide M.Ascii, PlainByte, Lower, IsDigit, IsSpaceByte;
    if s == [] || IsSpaceByte(s[0]) || IsSpaceByte(s[|s| - 1]) || s[0] in INDICATORS || IsDigit(s[0]) {
      return false;
    }
    if (s[0] == 0x2B || s[0] == 0x2E) && |s| > 1 && IsDigit(s[1]) {
      return false;
    }
    for i := 0 to |s|
      invariant forall k :: 0 <= k < i ==> PlainByte(s[k])
    {
      if !PlainByte(s[i]) {
        return false;
      }
    }
    var reserved := IsReservedWord(s);
    r := !reserved;
  }

  lemma {:induction false} QuotedBytesSnoc(s: Text, c: byte)
    ensures QuotedBytes(s + [c]) == QuotedBytes(s) + QuotedByte(c)
  {
    hide QuotedByte;
    if s == [] {
      assert [c][1..] == [];
    } else {
      assert (s + [c])[1..] == s[1..] + [c];
      QuotedBytesSnoc(s[1..], c);
    }
  }

  /** `double_quoted`. */
  method WriteDoubleQuoted(s: Text) returns (out: Text)
    ensures out == DoubleQuoted(s)
  {
    hide QuotedByte;
    out := [QUOTE];
    for i := 0 to |s|
      invariant out == [QUOTE] + QuotedBytes(s[..i])
    {
      assert s[..i + 1] == s[..i] + [s[i]];
      QuotedBytesSnoc(s[..i], s[i]);
      out := out + QuotedByte(s[i]);
    }
    assert s[..|s|] == s;
    out := out + [QUOTE];
  }

  method WriteScalar(s: Text) returns (out: Text)
    ensures out == Scalar(s)
  {
    hide PlainSafe, DoubleQuoted;
    var plain := IsPlainSafe(s);
    if plain {
      return s;
    }
    out := WriteDoubleQuoted(s);
  }

  // ------------------------------------------------------------ content.md on its way in

  /** Line ends folded to LF. */
  ghost function FoldCr(s: Text): Text {
    if s == [] then []
    else if s[0] == CR then [LF] + FoldCr(if |s| > 1 && s[1] == LF then s[2..] else s[1..])
    else [s[0]] + FoldCr(s[1..])
  }

  ghost function DropLfs(s: Text): (r: Text)
    ensures r == [] || r[|r| - 1] != LF
    ensures |r| <= |s| && r == s[..|r|]
  {
    if s != [] && s[|s| - 1] == LF then DropLfs(s[..|s| - 1]) else s
  }

  /** Text with LF line ends and exactly one at its end. */
  ghost function CanonicalText(s: Text): Text {
    if s == [] then [] else DropLfs(FoldCr(s)) + [LF]
  }

  ghost predicate IsCanonical(s: Text) {
    s == [] || (CR !in s && s[|s| - 1] == LF && (|s| == 1 || s[|s| - 2] != LF))
  }

  lemma {:induction false} FoldIsFree(s: Text)
    ensures CR !in FoldCr(s) && (s != [] ==> FoldCr(s) != [])
    ensures CR !in s ==> FoldCr(s) == s
    decreases |s|
  {
    if s != [] {
      var t := if s[0] == CR && |s| > 1 && s[1] == LF then s[2..] else s[1..];
      FoldIsFree(t);
      assert [s[0]] + s[1..] == s;
    }
  }

  lemma DropLfsOnce(s: Text)
    requires s == [] || s[|s| - 1] != LF
    ensures DropLfs(s + [LF]) == s
  {
    var t := s + [LF];
    assert t[..|t| - 1] == s;
    assert DropLfs(s) == s;
  }

  /** The canonical texts are exactly the fixed points, and one pass reaches one. */
  lemma CanonicalTextIsCanonical(s: Text)
    ensures IsCanonical(CanonicalText(s))
    ensures CanonicalText(s) == s <==> IsCanonical(s)
    ensures CanonicalText(CanonicalText(s)) == CanonicalText(s)
  {
    FoldIsFree(s);
    if IsCanonical(s) {
      CanonicalFixed(s);
    }
    if s != [] {
      var r := DropLfs(FoldCr(s));
      assert forall i :: 0 <= i < |r| ==> r[i] == FoldCr(s)[i];
      CanonicalFixed(CanonicalText(s));
    }
  }

  lemma CanonicalFixed(s: Text)
    requires IsCanonical(s)
    ensures CanonicalText(s) == s
  {
    FoldIsFree(s);
    if s != [] {
      var r := s[..|s| - 1];
      assert s == r + [LF];
      DropLfsOnce(r);
    }
  }

  /** `canonicalize_content`. */
  method CanonicalizeContent(text: Text) returns (out: Text)
    ensures out == CanonicalText(text)
  {
    hide FoldCr, DropLfs;
    out := [];
    var i := 0;
    assert text[0..] == text;
    while i < |text|
      invariant i <= |text| && out + FoldCr(text[i..]) == FoldCr(text)
    {
      FoldOne(out, text, i);
      if text[i] == CR {
        out := out + [LF];
        if i + 1 < |text| && text[i + 1] == LF {
          i := i + 1;
        }
      } else {
        out := out + [text[i]];
      }
      i := i + 1;
    }
    assert text[i..] == [];
    FoldNothing(out);
    FoldIsFree(text);
    out := OneLineEnd(out);
  }

  /** One turn of the first loop: a carriage return, with or without a line end behind it, becomes a line end. */
  lemma FoldOne(out: Text, text: Text, i: nat)
    requires i < |text|
    ensures var step := if text[i] == CR && i + 1 < |text| && text[i + 1] == LF then 2 else 1;
      out + FoldCr(text[i..]) == (out + [if text[i] == CR then LF else text[i]]) + FoldCr(text[i + step..])
  {
    var t := text[i..];
    var step := if t[0] == CR && |t| > 1 && t[1] == LF then 2 else 1;
    assert t[step..] == text[i + step..];
    var c := if t[0] == CR then LF else t[0];
    assert out + ([c] + FoldCr(t[step..])) == (out + [c]) + FoldCr(t[step..]);
  }

  lemma FoldNothing(out: Text)
    ensures out + FoldCr([]) == out && FoldCr([]) == []
  {
  }

  /** The end of `canonicalize_content`: trailing line ends collapsed to one. */
  method OneLineEnd(text: Text) returns (out: Text)
    ensures out == if text == [] then [] else DropLfs(text) + [LF]
  {
    out := text;
    while |out| >= 2 && out[|out| - 1] == LF && out[|out| - 2] == LF
      invariant DropLfs(out) == DropLfs(text) && (out == [] <==> text == [])
    {
      out := out[..|out| - 1];
    }
    if out != [] && out[|out| - 1] == LF {
      assert out == out[..|out| - 1] + [LF];
    }
    if out != [] && out[|out| - 1] != LF {
      out := out + [LF];
    }
  }

  // ------------------------------------------------------------ reading lines

  lemma {:induction false} LineEndAt(t: Text, n: nat)
    requires n <= |t| && LF !in t[..n] && (n < |t| ==> t[n] == LF)
    ensures LineEnd(t) == n
  {
    if n > 0 {
      assert t[0] == t[..n][0];
      assert t[1..][..n - 1] == t[..n][1..];
      LineEndAt(t[1..], n - 1);
    }
  }

  /** A loop reading one line of `u`: what it has seen, and what is left. */
  ghost predicate Reading(u: Text, seen: Text, rest: Text, open: bool, any: bool) {
    LF !in seen &&
    if open then u == seen + rest && (any <==> seen != [])
    else if any then u != [] && (u == seen + [LF] + rest || (u == seen && rest == []))
    else u == [] && seen == []
  }

  lemma ReadsNothing(u: Text)
    ensures Reading(u, [], u, true, false)
  {
    assert [] + u == u;
  }

  lemma ReadsEnd(u: Text, seen: Text, any: bool)
    requires Reading(u, seen, [], true, any)
    ensures Reading(u, seen, [], false, any)
  {
    assert seen + [] == seen;
  }

  lemma ReadsBreak(u: Text, seen: Text, rest: Text, any: bool)
    requires Reading(u, seen, [LF] + rest, true, any)
    ensures Reading(u, seen, rest, false, true)
  {
    assert seen + ([LF] + rest) == seen + [LF] + rest;
  }

  lemma ReadsByte(u: Text, seen: Text, ch: byte, rest: Text, any: bool)
    requires Reading(u, seen, [ch] + rest, true, any) && ch != LF
    ensures Reading(u, seen + [ch], rest, true, true)
  {
    assert seen + ([ch] + rest) == (seen + [ch]) + rest;
  }

  lemma ReadsLine(u: Text, seen: Text, rest: Text)
    requires Reading(u, seen, rest, false, true)
    ensures u != [] && LineEnd(u) == |seen| <= |u| && u[..|seen|] == seen
    ensures rest == if |seen| < |u| then u[|seen| + 1..] else []
  {
    assert u[..|seen|] == seen;
    LineEndAt(u, |seen|);
  }

  lemma ReadsNone(u: Text, seen: Text, rest: Text)
    requires Reading(u, seen, rest, false, false)
    ensures u == [] && seen == []
  {
  }

  lemma FirstAndRest(t: Text)
    requires t != []
    ensures t == [t[0]] + t[1..]
  {
  }

  /** The buffer holds the line as far as it fits. */
  ghost predicate Held(buf: Text, seen: Text, len: nat, cut: bool) {
    len <= |buf| && len == (if |seen| < M.LINE_MAX then |seen| else M.LINE_MAX - 1) &&
    (cut <==> |seen| >= M.LINE_MAX) && buf[..len] == seen[..len]
  }

  lemma HeldByte(buf: Text, seen: Text, len: nat, cut: bool, ch: byte)
    requires Held(buf, seen, len, cut) && |buf| == M.LINE_MAX
    ensures len < M.LINE_MAX
    ensures len + 1 < M.LINE_MAX ==> Held(buf[len := ch], seen + [ch], len + 1, cut)
    ensures len + 1 >= M.LINE_MAX ==> Held(buf, seen + [ch], len, true)
  {
    if len + 1 < M.LINE_MAX {
      assert buf[len := ch][..len + 1] == buf[..len] + [ch];
      assert (seen + [ch])[..len + 1] == seen[..len] + [ch];
    } else {
      assert (seen + [ch])[..len] == seen[..len];
    }
  }

  /** Storing into an array is updating its contents. */
  method Store(v: array<byte>, at: nat, c: byte)
    requires at < v.Length
    modifies v
    ensures v[..] == old(v[..])[at := c]
  {
    v[at] := c;
  }

  /** `mm_line` without the carriage return: the bytes up to the line end, as far as they fit. */
  method GatherLine(c: Cursor, buf: array<byte>) returns (any: bool, len: nat, cut: bool)
    requires c.Valid() && buf.Length == M.LINE_MAX && buf != c.buf
    modifies c, c.buf, buf
    ensures c.Valid() && (any <==> old(c.Rest()) != [])
    ensures any ==> (var t := old(c.Rest()); var n := LineEnd(t);
      len == (if n < M.LINE_MAX then n else M.LINE_MAX - 1) && buf[..len] == t[..len] &&
      (cut <==> n >= M.LINE_MAX) && c.Rest() == if n < |t| then t[n + 1..] else [])
    ensures !any ==> len == 0
  {
    hide LineEnd, Reading, Held, Cursor.Valid, Cursor.Rest;
    ghost var t := c.Rest();
    ghost var seen: Text := [];
    any, len, cut := false, 0, false;
    var open := true;
    ReadsNothing(t);
    HeldNothing(buf[..]);
    while open
      invariant c.Valid() && Reading(t, seen, c.Rest(), open, any) && Held(buf[..], seen, len, cut)
      decreases |c.Rest()|, open
    {
      ghost var rest := c.Rest();
      var ch := c.Next();
      if ch.None? {
        ReadsEnd(t, seen, any);
        open := false;
      } else {
        FirstAndRest(rest);
        if ch.value == LF {
          ReadsBreak(t, seen, c.Rest(), any);
          any, open := true, false;
        } else {
          ReadsByte(t, seen, ch.value, c.Rest(), any);
          HeldByte(buf[..], seen, len, cut, ch.value);
          any := true;
          seen := seen + [ch.value];
          if len + 1 < M.LINE_MAX {
            Store(buf, len, ch.value);
            len := len + 1;
          } else {
            cut := true;
          }
        }
      }
    }
    if any {
      ReadsLine(t, seen, c.Rest());
      HeldLine(buf[..], t, seen, len, cut);
    } else {
      ReadsNone(t, seen, c.Rest());
      HeldLine(buf[..], t, seen, len, cut);
    }
  }

  lemma HeldNothing(buf: Text)
    ensures Held(buf, [], 0, false)
  {
  }

  lemma HeldLine(buf: Text, t: Text, seen: Text, len: nat, cut: bool)
    requires Held(buf, seen, len, cut) && |seen| <= |t| && t[..|seen|] == seen
    ensures len <= |buf| && len <= |t| && buf[..len] == t[..len]
    ensures len == (if |seen| < M.LINE_MAX then |seen| else M.LINE_MAX - 1) && (cut <==> |seen| >= M.LINE_MAX)
  {
    assert seen[..len] == t[..|seen|][..len] == t[..len];
  }

  /** `mm_line`. */
  method ReadLine(c: Cursor, buf: array<byte>) returns (st: Status, len: nat, cut: bool)
    requires c.Valid() && buf.Length == M.LINE_MAX && buf != c.buf
    modifies c, c.buf, buf
    ensures c.Valid()
    ensures st == if old(c.Rest()) == [] then E_NOT_FOUND else OK
    ensures st == OK ==> (var l := NextLine(old(c.Rest()));
      len < M.LINE_MAX && buf[..len] == l.text && (cut <==> l.cut) && c.Rest() == l.rest)
  {
    hide LineEnd, Cursor.Valid, Cursor.Rest;
    var any;
    any, len, cut := GatherLine(c, buf);
    if !any && len == 0 {
      return E_NOT_FOUND, 0, false;
    }
    ghost var t := buf[..len];
    if len > 0 && buf[len - 1] == CR {
      assert buf[..len - 1] == t[..|t| - 1];
      len := len - 1;
    }
    assert buf[..len] == DropCr(t);
    buf[len] := 0;
    st := OK;
  }

  /** `mm_trim` on `line[at..at + len]`. */
  method TrimRange(line: array<byte>, at: nat, len: nat) returns (from: nat, size: nat)
    requires at + len <= line.Length
    ensures at <= from && from + size <= at + len && line[from..from + size] == Trim(line[at..at + len])
  {
    from, size := at, len;
    while size > 0 && Blank(line[from])
      invariant at <= from && from + size == at + len
      invariant TrimLeft(line[from..from + size]) == TrimLeft(line[at..at + len])
    {
      assert line[from..from + size][1..] == line[from + 1..from + size];
      from, size := from + 1, size - 1;
    }
    assert line[from..from + size] == TrimLeft(line[at..at + len]);
    size := TrimEnd(line, from, size);
  }

  method TrimEnd(line: array<byte>, at: nat, len: nat) returns (size: nat)
    requires at + len <= line.Length
    ensures size <= len && line[at..at + size] == TrimRight(line[at..at + len])
  {
    size := len;
    while size > 0 && Blank(line[at + size - 1])
      invariant size <= len && TrimRight(line[at..at + size]) == TrimRight(line[at..at + len])
    {
      assert line[at..at + size][..size - 1] == line[at..at + size - 1];
      size := size - 1;
    }
  }

  /** `mm_split`: where key and value lie in the buffer. */
  method SplitRange(line: array<byte>, at: nat, len: nat)
    returns (found: bool, key: nat, keyLen: nat, val: nat, valLen: nat)
    requires at + len <= line.Length
    ensures found <==> SplitLine(line[at..at + len], 0).Some?
    ensures found ==> at <= key && key + keyLen < val && val + valLen <= at + len
    ensures found ==> SplitLine(line[at..at + len], 0).value == (line[key..key + keyLen], line[val..val + valLen])
  {
    hide Trim;
    ghost var s := line[at..at + len];
    key, keyLen, val, valLen := 0, 0, 0, 0;
    for i := 0 to len
      invariant SplitLine(s, 0) == SplitLine(s, i)
    {
      assert line[at + i] == s[i];
      if line[at + i] == COLON && (i + 1 == len || Blank(line[at + i + 1])) {
        key, keyLen := TrimRange(line, at, i);
        val, valLen := TrimRange(line, at + i + 1, len - (i + 1));
        assert s[..i] == line[at..at + i];
        assert s[i + 1..] == line[at + i + 1..at + len];
        return keyLen > 0, key, keyLen, val, valLen;
      }
    }
    found := false;
  }

  /** A key in the buffer, compared as a C string. */
  method KeyIs(line: array<byte>, at: nat, len: nat, name: Text) returns (same: bool)
    requires at + len <= line.Length
    ensures same <==> U.Field(line[at..at + len]) == name
  {
    var text := Tar.ReadField(line[at..at + len]);
    same := text == name;
  }

  // ------------------------------------------------------------ scalars, in place

  /** Rewriting a range in place: `n` bytes are written, what is read from `i` on is untouched. */
  ghost predicate Rewriting(a: Text, was: Text, from: nat, len: nat, n: nat, i: nat) {
    && |a| == |was| && n < i <= len && from + len <= |a|
    && a[..from] == was[..from] && a[from + len..] == was[from + len..]
    && a[from + i..from + len] == was[from + i..from + len]
  }

  lemma RewritingStep(a: Text, was: Text, from: nat, len: nat, n: nat, i: nat, j: nat, c: byte)
    requires Rewriting(a, was, from, len, n, i) && i < j <= len
    ensures Rewriting(a[from + n := c], was, from, len, n + 1, j)
    ensures a[from + n := c][from..from + n + 1] == a[from..from + n] + [c]
  {
    assert a[from + j..from + len] == a[from + i..from + len][j - i..];
    assert was[from + j..from + len] == was[from + i..from + len][j - i..];
  }

  lemma RewritingReads(a: Text, was: Text, from: nat, len: nat, n: nat, i: nat, k: nat)
    requires Rewriting(a, was, from, len, n, i) && i <= k < len
    ensures a[from + k] == was[from + 1..from + len][k - 1]
  {
    assert a[from + k] == a[from + i..from + len][k - i];
    assert was[from + k] == was[from + i..from + len][k - i];
  }

  /** One byte of a double-quoted text, from position `i` on. */
  lemma DoubleStep(w: Text, i: nat)
    requires i < |w|
    ensures InDouble(w[i..]) ==
      if w[i] == QUOTE then []
      else if w[i] == BACKSLASH && i + 1 < |w| then [Escaped(w[i + 1])] + InDouble(w[i + 2..])
      else [w[i]] + InDouble(w[i + 1..])
  {
    assert w[i..][1..] == w[i + 1..];
    if i + 1 < |w| { assert w[i..][2..] == w[i + 2..]; }
  }

  lemma SingleStep(w: Text, i: nat)
    requires i < |w|
    ensures InSingle(w[i..]) ==
      if w[i] != APOSTROPHE then [w[i]] + InSingle(w[i + 1..])
      else if i + 1 < |w| && w[i + 1] == APOSTROPHE then [APOSTROPHE] + InSingle(w[i + 2..])
      else []
  {
    assert w[i..][1..] == w[i + 1..];
    if i + 1 < |w| { assert w[i..][2..] == w[i + 2..]; }
  }

  lemma Shift(done: Text, c: byte, rest: Text)
    ensures done + ([c] + rest) == (done + [c]) + rest
  {
  }

  lemma RewritingLater(a: Text, was: Text, from: nat, len: nat, n: nat, i: nat, j: nat)
    requires Rewriting(a, was, from, len, n, i) && i <= j <= len
    ensures Rewriting(a, was, from, len, n, j)
  {
    assert a[from + j..from + len] == a[from + i..from + len][j - i..];
    assert was[from + j..from + len] == was[from + i..from + len][j - i..];
  }

  /** What is written and what is still to be read make up the whole double-quoted text. */
  ghost predicate DoubleRun(a: Text, was: Text, from: nat, len: nat, n: nat, i: nat) {
    && Rewriting(a, was, from, len, n, i)
    && a[from..from + n] + InDouble(was[from + 1..from + len][i - 1..]) == InDouble(was[from + 1..from + len])
  }

  lemma DoubleStart(was: Text, from: nat, len: nat)
    requires from + len <= |was| && len >= 1
    ensures DoubleRun(was, was, from, len, 0, 1)
  {
    var w := was[from + 1..from + len];
    assert w[0..] == w && was[from..from] + InDouble(w) == InDouble(w);
  }

  lemma DoubleAdvance(a: Text, was: Text, from: nat, len: nat, n: nat, i: nat)
    requires DoubleRun(a, was, from, len, n, i) && i < len
    ensures from + len <= |a| && n < i
    ensures a[from + i] == QUOTE ==> DoubleDone(a, was, from, len, n)
    ensures a[from + i] == BACKSLASH && i + 1 < len ==>
      DoubleRun(a[from + n := Escaped(a[from + i + 1])], was, from, len, n + 1, i + 2)
    ensures a[from + i] != QUOTE && !(a[from + i] == BACKSLASH && i + 1 < len) ==>
      DoubleRun(a[from + n := a[from + i]], was, from, len, n + 1, i + 1)
  {
    hide InDouble, Rewriting;
    assert n < i <= len && from + len <= |a| == |was| by { Bounds(a, was, from, len, n, i); }
    var w := was[from + 1..from + len];
    RewritingReads(a, was, from, len, n, i, i);
    DoubleStep(w, i - 1);
    var done := a[from..from + n];
    assert done + [] == done;
    if a[from + i] == QUOTE {
      RewritingLater(a, was, from, len, n, i, len);
    } else if a[from + i] == BACKSLASH && i + 1 < len {
      RewritingReads(a, was, from, len, n, i, i + 1);
      var c := Escaped(a[from + i + 1]);
      RewritingStep(a, was, from, len, n, i, i + 2, c);
      Shift(done, c, InDouble(w[i + 1..]));
    } else {
      RewritingStep(a, was, from, len, n, i, i + 1, a[from + i]);
      Shift(done, a[from + i], InDouble(w[i..]));
    }
  }

  lemma Bounds(a: Text, was: Text, from: nat, len: nat, n: nat, i: nat)
    requires Rewriting(a, was, from, len, n, i)
    ensures n < i <= len && from + len <= |a| == |was|
  {
  }

  ghost predicate DoubleDone(a: Text, was: Text, from: nat, len: nat, n: nat) {
    Rewriting(a, was, from, len, n, len) && a[from..from + n] == InDouble(was[from + 1..from + len])
  }

  lemma DoubleFinish(a: Text, was: Text, from: nat, len: nat, n: nat)
    requires DoubleRun(a, was, from, len, n, len)
    ensures DoubleDone(a, was, from, len, n)
  {
    assert a[from..from + n] + [] == a[from..from + n];
  }

  /** The double-quoted branch of `mm_scalar`: read ahead, written behind, in one buffer. */
  method UnquoteDouble(v: array<byte>, from: nat, len: nat) returns (n: nat)
    requires from + len <= v.Length && len >= 1
    modifies v
    ensures DoubleDone(v[..], old(v[..]), from, len, n)
  {
    hide DoubleRun, DoubleDone;
    ghost var was := v[..];
    n := 0;
    var i := 1;
    DoubleStart(was, from, len);
    while i < len
      invariant n < i <= len && DoubleRun(v[..], was, from, len, n, i)
    {
      DoubleAdvance(v[..], was, from, len, n, i);
      var c := v[from + i];
      if c == QUOTE {
        return;
      }
      if c == BACKSLASH && i + 1 < len {
        i := i + 1;
        c := Escaped(v[from + i]);
      }
      Store(v, from + n, c);
      n := n + 1;
      i := i + 1;
    }
    DoubleFinish(v[..], was, from, len, n);
  }

  ghost predicate SingleRun(a: Text, was: Text, from: nat, len: nat, n: nat, i: nat) {
    && Rewriting(a, was, from, len, n, i)
    && a[from..from + n] + InSingle(was[from + 1..from + len][i - 1..]) == InSingle(was[from + 1..from + len])
  }

  ghost predicate SingleDone(a: Text, was: Text, from: nat, len: nat, n: nat) {
    Rewriting(a, was, from, len, n, len) && a[from..from + n] == InSingle(was[from + 1..from + len])
  }

  lemma SingleStart(was: Text, from: nat, len: nat)
    requires from + len <= |was| && len >= 1
    ensures SingleRun(was, was, from, len, 0, 1)
  {
    var w := was[from + 1..from + len];
    assert w[0..] == w && was[from..from] + InSingle(w) == InSingle(w);
  }

  lemma SingleAdvance(a: Text, was: Text, from: nat, len: nat, n: nat, i: nat)
    requires SingleRun(a, was, from, len, n, i) && i < len
    ensures from + len <= |a| && n < i
    ensures a[from + i] != APOSTROPHE ==> SingleRun(a[from + n := a[from + i]], was, from, len, n + 1, i + 1)
    ensures a[from + i] == APOSTROPHE && i + 1 < len && a[from + i + 1] == APOSTROPHE ==>
      SingleRun(a[from + n := APOSTROPHE], was, from, len, n + 1, i + 2)
    ensures a[from + i] == APOSTROPHE && !(i + 1 < len && a[from + i + 1] == APOSTROPHE) ==>
      SingleDone(a, was, from, len, n)
  {
    hide InSingle, Rewriting;
    assert n < i <= len && from + len <= |a| == |was| by { Bounds(a, was, from, len, n, i); }
    var w := was[from + 1..from + len];
    RewritingReads(a, was, from, len, n, i, i);
    if i + 1 < len { RewritingReads(a, was, from, len, n, i, i + 1); }
    SingleStep(w, i - 1);
    var done := a[from..from + n];
    assert done + [] == done;
    if a[from + i] != APOSTROPHE {
      RewritingStep(a, was, from, len, n, i, i + 1, a[from + i]);
      Shift(done, a[from + i], InSingle(w[i..]));
    } else if i + 1 < len && a[from + i + 1] == APOSTROPHE {
      RewritingStep(a, was, from, len, n, i, i + 2, APOSTROPHE);
      Shift(done, APOSTROPHE, InSingle(w[i + 1..]));
    } else {
      RewritingLater(a, was, from, len, n, i, len);
    }
  }

  lemma SingleFinish(a: Text, was: Text, from: nat, len: nat, n: nat)
    requires SingleRun(a, was, from, len, n, len)
    ensures SingleDone(a, was, from, len, n)
  {
    assert a[from..from + n] + [] == a[from..from + n];
  }

  /** The single-quoted branch. */
  method UnquoteSingle(v: array<byte>, from: nat, len: nat) returns (n: nat)
    requires from + len <= v.Length && len >= 1
    modifies v
    ensures SingleDone(v[..], old(v[..]), from, len, n)
  {
    hide SingleRun, SingleDone;
    ghost var was := v[..];
    n := 0;
    var i := 1;
    SingleStart(was, from, len);
    while i < len
      invariant n < i <= len && SingleRun(v[..], was, from, len, n, i)
    {
      SingleAdvance(v[..], was, from, len, n, i);
      var c := v[from + i];
      if c == APOSTROPHE {
        if i + 1 == len || v[from + i + 1] != APOSTROPHE {
          return;
        }
        i := i + 1;
      }
      Store(v, from + n, c);
      n := n + 1;
      i := i + 1;
    }
    SingleFinish(v[..], was, from, len, n);
  }

  /** The unquoted branch. */
  method CutComment(v: array<byte>, from: nat, len: nat) returns (n: nat)
    requires from + len <= v.Length
    ensures n <= len
    ensures var w := v[from..from + len]; v[from..from + n] == TrimRight(w[..CommentAt(w, 0)])
  {
    ghost var w := v[from..from + len];
    var end := len;
    for i := 0 to len
      invariant CommentAt(w, 0) == CommentAt(w, i)
    {
      assert w[i] == v[from + i] && (i > 0 ==> w[i - 1] == v[from + i - 1]);
      if v[from + i] == HASH && i > 0 && Blank(v[from + i - 1]) {
        end := i;
        break;
      }
    }
    assert end == CommentAt(w, 0);
    assert v[from..from + end] == w[..end];
    n := TrimEnd(v, from, end);
  }

  /** `mm_scalar`: the scalar in `v[from..from + len]` resolved in place. */
  method ResolveScalar(v: array<byte>, from: nat, len: nat) returns (n: nat)
    requires from + len <= v.Length
    modifies v
    ensures n <= len && v[from..from + n] == ReadScalar(old(v[from..from + len]))
    ensures v[..from] == old(v[..from]) && v[from + len..] == old(v[from + len..])
  {
    hide InDouble, InSingle, CommentAt, TrimRight;
    ghost var w, was := v[from..from + len], v[..];
    assert len > 0 ==> w[0] == v[from] && w[1..] == v[from + 1..from + len];
    if len >= 2 && v[from] == QUOTE {
      n := UnquoteDouble(v, from, len);
    } else if len >= 2 && v[from] == APOSTROPHE {
      n := UnquoteSingle(v, from, len);
    } else {
      n := CutComment(v, from, len);
    }
  }

  /** The indentation of a line. */
  method IndentOf(line: array<byte>, len: nat) returns (indent: nat)
    requires len <= line.Length
    ensures indent <= len && line[indent..len] == TrimLeft(line[..len])
    ensures indent == 0 <==> |TrimLeft(line[..len])| == len
  {
    indent := 0;
    assert line[0..len] == line[..len];
    while indent < len && Blank(line[indent])
      invariant indent <= len && TrimLeft(line[indent..len]) == TrimLeft(line[..len])
    {
      assert line[indent..len][1..] == line[indent + 1..len];
      indent := indent + 1;
    }
  }

  /** Lines that carry nothing: blank, a comment, or a document marker. */
  method IsIdle(line: array<byte>, at: nat, len: nat) returns (idle: bool)
    requires at + len <= line.Length
    ensures var body := line[at..at + len]; idle <==> body == [] || body[0] == HASH || DASHES <= body
  {
    DashesAre(line[at..at + len]);
    if len == 0 || line[at] == HASH {
      return true;
    }
    idle := len >= 3 && line[at] == DASH && line[at + 1] == DASH && line[at + 2] == DASH;
  }

  lemma DashesAre(body: Text)
    ensures DASHES <= body <==> |body| >= 3 && body[0] == DASH && body[1] == DASH && body[2] == DASH
  {
    if |body| >= 3 && body[0] == DASH && body[1] == DASH && body[2] == DASH {
      assert body[..3] == DASHES;
    }
  }

  /** The text of an item after its dash. */
  method AfterDash(line: array<byte>, at: nat, len: nat) returns (from: nat, size: nat)
    requires at + len <= line.Length && len > 0
    ensures at <= from && from + size <= at + len && line[from..from + size] == Trim(line[at..at + len][1..])
  {
    assert line[at..at + len][1..] == line[at + 1..at + len];
    from, size := TrimRange(line, at + 1, len - 1);
  }
}
