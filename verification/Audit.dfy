/**
 * The audit log (src/serialize/audit_log.cpp, src/core/audit_ops.cpp): a chain of entries, each
 * naming the digest of the line before it, and a signed checkpoint of its head. The digest and the
 * signature scheme are parameters.
 */
module Audit {
  import opened Bytes
  import opened Json
  import opened Layout
  import opened Container
  import opened Yaml
  import opened YamlCode
  import M = Manifest


  datatype Entry = Entry(timestamp: Text, action: Text, actor: Text, prev: Text)

  // ------------------------------------------------------------ lines

  /** `audit_entry_to_line`. */
  function LineOf(e: Entry): Text {
    e.timestamp + [TAB] + e.action + [TAB] + e.actor + [TAB] + e.prev
  }

  ghost function Print(es: seq<Entry>): Text {
    if es == [] then [] else LineOf(es[0]) + [LF] + Print(es[1..])
  }

  ghost function TabEnd(t: Text): (n: nat)
    ensures n <= |t| && TAB !in t[..n] && (n < |t| ==> t[n] == TAB)
  {
    if t == [] || t[0] == TAB then 0
    else
      var n := TabEnd(t[1..]);
      assert t[..n + 1] == [t[0]] + t[1..][..n];
      n + 1
  }

  /** The tab-separated fields of a line. */
  ghost function Fields(line: Text): (fs: seq<Text>)
    ensures fs != []
    decreases |line|
  {
    var n := TabEnd(line);
    if n == |line| then [line] else [line[..n]] + Fields(line[n + 1..])
  }

  ghost function ParseLine(line: Text): Option<Entry> {
    var fs := Fields(line);
    if |fs| == 4 then Some(Entry(fs[0], fs[1], fs[2], fs[3])) else None
  }

  /** `parse_audit_log`: empty lines are passed over, any other must have four fields. */
  ghost function Parse(t: Text): Option<seq<Entry>>
    decreases |t|
  {
    if t == [] then Some([])
    else
      var n := LineEnd(t);
      var rest := Parse(if n < |t| then t[n + 1..] else []);
      if n == 0 then rest
      else if ParseLine(t[..n]).None? || rest.None? then None
      else Some([ParseLine(t[..n]).value] + rest.value)
  }

  // ------------------------------------------------------------ printing and parsing

  ghost predicate FieldText(f: Text) {
    TAB !in f && LF !in f
  }

  ghost predicate CleanEntry(e: Entry) {
    FieldText(e.timestamp) && FieldText(e.action) && FieldText(e.actor) && FieldText(e.prev)
  }

  ghost predicate Clean(es: seq<Entry>) {
    forall i :: 0 <= i < |es| ==> CleanEntry(es[i])
  }

  lemma {:induction false} TabEndIs(t: Text, n: nat)
    requires n <= |t| && TAB !in t[..n] && (n < |t| ==> t[n] == TAB)
    ensures TabEnd(t) == n
  {
    if n > 0 {
      assert t[0] == t[..n][0] && t[1..][..n - 1] == t[..n][1..];
      TabEndIs(t[1..], n - 1);
    }
  }

  lemma FieldsStep(f: Text, rest: Text)
    requires TAB !in f
    ensures Fields(f + [TAB] + rest) == [f] + Fields(rest) && Fields(f) == [f]
  {
    var t := f + [TAB] + rest;
    assert t[..|f|] == f && t[|f| + 1..] == rest && f[..|f|] == f;
    TabEndIs(t, |f|);
    TabEndIs(f, |f|);
  }

  /** A written line parses back to its entry. */
  lemma LineRoundTrip(e: Entry)
    requires CleanEntry(e)
    ensures ParseLine(LineOf(e)) == Some(e) && LF !in LineOf(e) && LineOf(e) != []
  {
    hide Fields;
    var c := e.prev;
    var b := e.actor + [TAB] + c;
    var a := e.action + [TAB] + b;
    assert LineOf(e) == e.timestamp + [TAB] + a;
    FieldsStep(e.timestamp, a);
    FieldsStep(e.action, b);
    FieldsStep(e.actor, c);
    FieldsStep(c, []);
  }

  /** Hence two clean entries with one line are one entry. */
  lemma LineDecides(d: Entry, e: Entry)
    requires CleanEntry(d) && CleanEntry(e) && LineOf(d) == LineOf(e)
    ensures d == e
  {
    hide LineOf, ParseLine, CleanEntry;
    LineRoundTrip(d);
    LineRoundTrip(e);
  }

  ghost function JoinTabs(fs: seq<Text>): Text
    requires fs != []
  {
    if |fs| == 1 then fs[0] else fs[0] + [TAB] + JoinTabs(fs[1..])
  }

  lemma {:induction false} FieldsJoin(line: Text)
    ensures JoinTabs(Fields(line)) == line
    ensures forall i :: 0 <= i < |Fields(line)| ==> TAB !in Fields(line)[i]
    ensures LF !in line ==> forall i :: 0 <= i < |Fields(line)| ==> LF !in Fields(line)[i]
    decreases |line|
  {
    var n := TabEnd(line);
    if n < |line| {
      var rest := line[n + 1..];
      FieldsJoin(rest);
      assert line == line[..n] + [TAB] + rest;
      assert Fields(line)[1..] == Fields(rest);
      forall i | 0 <= i < |Fields(line)|
        ensures TAB !in Fields(line)[i] && (LF !in line ==> LF !in Fields(line)[i])
      {
        if i > 0 { assert Fields(line)[i] == Fields(rest)[i - 1]; }
      }
    } else {
      assert line[..n] == line;
    }
  }

  /** What parses is clean, and prints as the line it came from: the digest of an entry is that of its line. */
  lemma ParsedLine(line: Text)
    requires ParseLine(line).Some? && LF !in line
    ensures CleanEntry(ParseLine(line).value) && LineOf(ParseLine(line).value) == line
  {
    var fs := Fields(line);
    FieldsJoin(line);
    hide Fields;
    var a, b := fs[1..], fs[2..];
    assert a[1..] == b && b[1..] == [fs[3]];
    assert JoinTabs(b) == fs[2] + [TAB] + fs[3];
    assert JoinTabs(a) == fs[1] + [TAB] + JoinTabs(b);
  }

  lemma {:induction false} ParsedIsClean(t: Text)
    requires Parse(t).Some?
    ensures Clean(Parse(t).value)
    decreases |t|
  {
    hide ParseLine, CleanEntry;
    if t != [] {
      var n := LineEnd(t);
      var rest := if n < |t| then t[n + 1..] else [];
      ParsedIsClean(rest);
      if n > 0 { ParsedLine(t[..n]); }
    }
  }

  ghost function Cons(line: Text, rest: Option<seq<Entry>>): Option<seq<Entry>> {
    if line == [] then rest
    else if ParseLine(line).None? || rest.None? then None
    else Some([ParseLine(line).value] + rest.value)
  }

  lemma ParseUnfold(l: Text, rest: Text)
    requires LF !in l
    ensures Parse(l + [LF] + rest) == Cons(l, Parse(rest))
  {
    hide ParseLine;
    LineEndIs(l, rest);
    var t := l + [LF] + rest;
    assert t[..|l|] == l && t[|l| + 1..] == rest;
  }

  ghost function Both(a: Option<seq<Entry>>, b: Option<seq<Entry>>): Option<seq<Entry>> {
    if a.None? || b.None? then None else Some(a.value + b.value)
  }

  lemma ConsBoth(l: Text, a: Option<seq<Entry>>, b: Option<seq<Entry>>)
    ensures Cons(l, Both(a, b)) == Both(Cons(l, a), b)
  {
    hide ParseLine;
    if ParseLine(l).Some? && a.Some? && b.Some? {
      assert [ParseLine(l).value] + (a.value + b.value) == ([ParseLine(l).value] + a.value) + b.value;
    }
  }

  lemma ParseNothing(b: Option<seq<Entry>>)
    ensures Parse([]) == Some([]) && Both(Some([]), b) == b
  {
    if b.Some? { assert [] + b.value == b.value; }
  }

  /** A text of complete lines parses line group by line group. */
  lemma {:induction false} ParseConcat(a: Text, b: Text)
    requires a == [] || a[|a| - 1] == LF
    ensures Parse(a + b) == Both(Parse(a), Parse(b))
    decreases |a|
  {
    hide ParseLine, Parse, Cons, Both;
    if a == [] {
      assert a + b == b;
      ParseNothing(Parse(b));
    } else {
      LineBreakIn(a);
      var n := LineEnd(a);
      var l, rest := a[..n], a[n + 1..];
      assert a == l + [LF] + rest;
      assert a + b == l + [LF] + (rest + b);
      ParseUnfold(l, rest);
      ParseUnfold(l, rest + b);
      ParseConcat(rest, b);
      ConsBoth(l, Parse(rest), Parse(b));
    }
  }

  lemma ParseOneLine(l: Text)
    requires LF !in l && l != []
    ensures Parse(l + [LF]) == if ParseLine(l).None? then None else Some([ParseLine(l).value])
    ensures Parse(l) == Parse(l + [LF])
  {
    hide ParseLine;
    ParseUnfold(l, []);
    ParseNothing(None);
    assert l + [LF] + [] == l + [LF];
    assert l[..|l|] == l;
    LineEndAt(l, |l|);
    if ParseLine(l).Some? { assert [ParseLine(l).value] + [] == [ParseLine(l).value]; }
  }

  /** A printed log parses back to itself. */
  lemma {:induction false} LogRoundTrip(es: seq<Entry>)
    requires Clean(es)
    ensures Parse(Print(es)) == Some(es)
  {
    hide LineOf, ParseLine, CleanEntry;
    if es != [] {
      LogRoundTrip(es[1..]);
      LineRoundTrip(es[0]);
      ParseOneLine(LineOf(es[0]));
      ParseConcat(LineOf(es[0]) + [LF], Print(es[1..]));
      assert [es[0]] + es[1..] == es;
    }
  }

  // ------------------------------------------------------------ the chain

  function Genesis(): Text {
    Repeat(ZERO, 64)
  }

  type Hash = Text -> Text

  ghost predicate Chained(es: seq<Entry>, prev: Text, hash: Hash) {
    es == [] || (es[0].prev == prev && Chained(es[1..], hash(LineOf(es[0])), hash))
  }

  ghost predicate ChainValid(es: seq<Entry>, hash: Hash) {
    Chained(es, Genesis(), hash)
  }

  /** `current_head`, of a parsed log. */
  function HeadOf(es: seq<Entry>, hash: Hash): Text {
    if es == [] then Genesis() else hash(LineOf(es[|es| - 1]))
  }

  lemma {:induction false} ChainedSnoc(es: seq<Entry>, e: Entry, prev: Text, hash: Hash)
    ensures Chained(es + [e], prev, hash) <==>
      Chained(es, prev, hash) && e.prev == (if es == [] then prev else hash(LineOf(es[|es| - 1])))
    decreases |es|
  {
    hide LineOf;
    if es == [] {
      assert [e][1..] == [] && es + [e] == [e];
    } else {
      assert (es + [e])[1..] == es[1..] + [e];
      ChainedSnoc(es[1..], e, hash(LineOf(es[0])), hash);
    }
  }

  /** A digest is text a field can hold. */
  ghost predicate Digests(hash: Hash) {
    forall x :: FieldText(hash(x))
  }

  /** What `audit_append` appends. */
  function NewEntry(es: seq<Entry>, action: Text, actor: Text, timestamp: Text, hash: Hash): Entry {
    Entry(timestamp, action, actor, HeadOf(es, hash))
  }

  /** A text that a line can be put behind. */
  predicate Ended(t: Text) {
    t == [] || t[|t| - 1] == LF
  }

  /**
   * Whatever the fields, appending to a chain-valid log adds the entry to what is parsed exactly when
   * the text ends its last line and no field holds a tab or a line end; then the chain stays valid.
   * Fields without line ends that do hold a tab, and unfinished texts, leave a log that does not parse.
   */
  lemma AppendKeepsChain(t: Text, action: Text, actor: Text, timestamp: Text, hash: Hash)
    requires Digests(hash) && Parse(t).Some? && ChainValid(Parse(t).value, hash)
    ensures var e := NewEntry(Parse(t).value, action, actor, timestamp, hash);
      var after := Parse(t + LineOf(e) + [LF]);
      var good := Ended(t) && FieldText(action) && FieldText(actor) && FieldText(timestamp);
      (after == Some(Parse(t).value + [e]) <==> good) &&
      (good ==> ChainValid(after.value, hash)) &&
      (!good && LF !in action && LF !in actor && LF !in timestamp ==> after == None)
  {
    hide LineOf, Parse, Chained, Digests, Fields;
    var es := Parse(t).value;
    var e := NewEntry(es, action, actor, timestamp, hash);
    var after := Parse(t + LineOf(e) + [LF]);
    NewPrevIsField(es, hash);
    if after == Some(es + [e]) {
      ParsedIsClean(t + LineOf(e) + [LF]);
      assert (es + [e])[|es|] == e;
    }
    if LF !in action && LF !in actor && LF !in timestamp {
      OneLineEntry(e);
      AppendParses(t, e);
      ChainedSnoc(es, e, Genesis(), hash);
    }
  }

  /** A log that a tab in the action makes unreadable. */
  lemma TabBreaksLog(actor: Text, timestamp: Text, hash: Hash)
    requires Digests(hash) && LF !in actor && LF !in timestamp
    ensures Parse([] + LineOf(NewEntry([], [TAB], actor, timestamp, hash)) + [LF]) == None
  {
    hide LineOf, Digests;
    ParseNothing(None);
    assert [TAB][0] == TAB;
    AppendKeepsChain([], [TAB], actor, timestamp, hash);
  }

  lemma NewPrevIsField(es: seq<Entry>, hash: Hash)
    requires Digests(hash)
    ensures FieldText(HeadOf(es, hash))
  {
    hide LineOf, FieldText;
    GenesisIsField();
  }

  /** Fields without line ends make one line, and parse back only when they are free of tabs. */
  lemma OneLineEntry(e: Entry)
    requires LF !in e.timestamp && LF !in e.action && LF !in e.actor && FieldText(e.prev)
    ensures LF !in LineOf(e) && LineOf(e) != [] && |Fields(LineOf(e))| >= 4
    ensures ParseLine(LineOf(e)) == if CleanEntry(e) then Some(e) else None
  {
    LineFields(e);
    hide Fields;
    OneField(e.timestamp);
    OneField(e.action);
    OneField(e.actor);
    OneField(e.prev);
    if CleanEntry(e) { LineRoundTrip(e); }
  }

  lemma LineFields(e: Entry)
    ensures |Fields(LineOf(e))| == |Fields(e.timestamp)| + |Fields(e.action)| + |Fields(e.actor)| + |Fields(e.prev)|
  {
    hide Fields;
    var a, b, c := e.timestamp + [TAB], e.timestamp + [TAB] + e.action + [TAB], e.timestamp + [TAB] + e.action + [TAB] + e.actor + [TAB];
    OneTab();
    FieldsOfConcat(e.timestamp, [TAB]);
    FieldsOfConcat(a, e.action);
    FieldsOfConcat(a + e.action, [TAB]);
    FieldsOfConcat(b, e.actor);
    FieldsOfConcat(b + e.actor, [TAB]);
    FieldsOfConcat(c, e.prev);
  }

  lemma OneTab()
    ensures |Fields([TAB])| == 2
  {
    FieldsStep([], []);
    assert [] + [TAB] + [] == [TAB];
  }

  lemma OneField(f: Text)
    ensures |Fields(f)| == 1 <==> TAB !in f
  {
    FieldCount(f);
    hide Fields;
    assert TabEnd(f) == |f| ==> f[..TabEnd(f)] == f;
  }

  lemma AppendParses(t: Text, e: Entry)
    requires Parse(t).Some? && LF !in LineOf(e) && LineOf(e) != [] && |Fields(LineOf(e))| >= 4
    ensures var one := ParseLine(LineOf(e));
      Parse(t + LineOf(e) + [LF]) == if Ended(t) && one.Some? then Some(Parse(t).value + [one.value]) else None
  {
    hide LineOf, Parse, ParseLine, Fields;
    if Ended(t) {
      assert t + LineOf(e) + [LF] == t + (LineOf(e) + [LF]);
      ParseConcat(t, LineOf(e) + [LF]);
      ParseOneLine(LineOf(e));
    } else {
      RunsIntoLast(t, e);
    }
  }

  lemma GenesisIsField()
    ensures FieldText(Genesis())
  {
  }

  lemma FieldCount(t: Text)
    ensures |Fields(t)| == if TabEnd(t) == |t| then 1 else 1 + |Fields(t[TabEnd(t) + 1..])|
  {
    hide TabEnd;
  }

  /** A last field that runs on into more text. */
  lemma FieldRunsOn(f: Text, b: Text)
    requires TAB !in f
    ensures |Fields(f + b)| == |Fields(b)|
  {
    hide TabEnd, Fields;
    var m, t := TabEnd(b), f + b;
    assert t[..|f| + m] == f + b[..m];
    TabEndIs(t, |f| + m);
    FieldCount(t);
    FieldCount(b);
    if m < |b| { assert t[|f| + m + 1..] == b[m + 1..]; }
  }

  lemma {:induction false} FieldsOfConcat(a: Text, b: Text)
    ensures |Fields(a + b)| == |Fields(a)| + |Fields(b)| - 1
    decreases |a|
  {
    var n := TabEnd(a);
    if n == |a| {
      assert a[..n] == a;
      FieldRunsOn(a, b);
    } else {
      var f, rest := a[..n], a[n + 1..];
      assert a == f + [TAB] + rest && a + b == f + [TAB] + (rest + b);
      FieldsStep(f, rest);
      FieldsStep(f, rest + b);
      hide Fields;
      FieldsOfConcat(rest, b);
    }
  }

  /** The text splits before its unfinished last line. */
  lemma {:induction false} LastLine(t: Text) returns (done: Text, last: Text)
    requires t != [] && t[|t| - 1] != LF
    ensures t == done + last && LF !in last && last != [] && (done == [] || done[|done| - 1] == LF)
    decreases |t|
  {
    hide LineEnd;
    var n := LineEnd(t);
    if n == |t| {
      done, last := [], t;
      assert t[..n] == t;
    } else {
      var front, rest := t[..n + 1], t[n + 1..];
      assert t == front + rest && front[n] == LF;
      var d, l := LastLine(rest);
      done, last := front + d, l;
      assert front + (d + l) == (front + d) + l;
    }
  }

  lemma RunsIntoLast(t: Text, e: Entry)
    requires Parse(t).Some? && !Ended(t) && LF !in LineOf(e) && |Fields(LineOf(e))| >= 4
    ensures Parse(t + LineOf(e) + [LF]) == None
  {
    hide Parse, LineOf, Fields;
    var done, last := LastLine(t);
    ParseConcat(done, last);
    ParseOneLine(last);
    var l := last + LineOf(e);
    FieldsOfConcat(last, LineOf(e));
    assert t + LineOf(e) + [LF] == done + (l + [LF]);
    ParseConcat(done, l + [LF]);
    ParseOneLine(l);
  }

  // ------------------------------------------------------------ checkpoints

  /** The loop of `audit_verify_checkpoint`: the head is met while the chain is intact. */
  ghost predicate Reaches(es: seq<Entry>, prev: Text, head: Text, hash: Hash) {
    es != [] && es[0].prev == prev &&
    (hash(LineOf(es[0])) == head || Reaches(es[1..], hash(LineOf(es[0])), head, hash))
  }

  ghost predicate HeadIntact(es: seq<Entry>, head: Text, hash: Hash) {
    head == Genesis() || Reaches(es, Genesis(), head, hash)
  }

  /** Two different lines with one digest. */
  ghost predicate Collision(a: seq<Entry>, b: seq<Entry>, hash: Hash) {
    exists i, j :: 0 <= i < |a| && 0 <= j < |b| && LineOf(a[i]) != LineOf(b[j]) && hash(LineOf(a[i])) == hash(LineOf(b[j]))
  }

  /** A line that digests to the genesis value. */
  ghost predicate ZeroLine(es: seq<Entry>, hash: Hash) {
    exists i :: 0 <= i < |es| && hash(LineOf(es[i])) == Genesis()
  }

  /** The digest function has visibly failed on these logs. */
  ghost predicate Broken(a: seq<Entry>, b: seq<Entry>, hash: Hash) {
    Collision(a, b, hash) || ZeroLine(a, hash) || ZeroLine(b, hash)
  }

  lemma {:induction false} ReachesAt(es: seq<Entry>, prev: Text, head: Text, hash: Hash) returns (k: nat)
    requires Reaches(es, prev, head, hash)
    ensures k < |es| && Chained(es[..k + 1], prev, hash) && hash(LineOf(es[k])) == head
  {
    hide LineOf;
    if hash(LineOf(es[0])) == head {
      k := 0;
      assert es[..1] == [es[0]] && [es[0]][1..] == [];
    } else {
      var next := hash(LineOf(es[0]));
      var j := ReachesAt(es[1..], next, head, hash);
      k := j + 1;
      assert es[..k + 1][1..] == es[1..][..k];
    }
  }

  /** In a chain, every entry names the digest of the one before it. */
  lemma {:induction false} ChainLink(es: seq<Entry>, prev: Text, hash: Hash, i: nat)
    requires Chained(es, prev, hash) && i < |es|
    ensures es[i].prev == if i == 0 then prev else hash(LineOf(es[i - 1]))
  {
    hide LineOf;
    if i > 0 { ChainLink(es[1..], hash(LineOf(es[0])), hash, i - 1); }
  }

  /** Equal digests at two places of two chains trace both back to their start. */
  lemma {:induction false} TraceBack(a: seq<Entry>, b: seq<Entry>, i: nat, k: nat, hash: Hash)
    requires Clean(a) && Clean(b) && i < |a| && k < |b|
    requires ChainValid(a, hash) && Chained(b[..k + 1], Genesis(), hash)
    requires hash(LineOf(a[i])) == hash(LineOf(b[k]))
    requires !Collision(a, b, hash) && !ZeroLine(a, hash) && !ZeroLine(b, hash)
    ensures i == k && a[..i + 1] == b[..k + 1]
    decreases i
  {
    hide LineOf, Chained, CleanEntry, Genesis;
    assert LineOf(a[i]) == LineOf(b[k]);
    LineDecides(a[i], b[k]);
    ChainLink(a, Genesis(), hash, i);
    ChainLink(b[..k + 1], Genesis(), hash, k);
    if i > 0 && k > 0 {
      ChainPrefix(b[..k + 1], Genesis(), hash, k);
      assert b[..k + 1][..k] == b[..k];
      TraceBack(a, b, i - 1, k - 1, hash);
      assert a[..i + 1] == a[..i] + [a[i]] && b[..k + 1] == b[..k] + [b[k]];
    }
  }

  lemma {:induction false} ChainPrefix(es: seq<Entry>, prev: Text, hash: Hash, n: nat)
    requires Chained(es, prev, hash) && n <= |es|
    ensures Chained(es[..n], prev, hash)
  {
    hide LineOf;
    if n > 0 {
      assert es[..n][1..] == es[1..][..n - 1];
      ChainPrefix(es[1..], hash(LineOf(es[0])), hash, n - 1);
    }
  }

  lemma {:induction false} PrefixReaches(a: seq<Entry>, b: seq<Entry>, prev: Text, hash: Hash)
    requires a != [] && a <= b && Chained(a, prev, hash)
    ensures Reaches(b, prev, HeadOf(a, hash), hash)
  {
    hide LineOf;
    assert b[0] == a[0];
    if |a| > 1 {
      assert a[1..] <= b[1..] && HeadOf(a[1..], hash) == HeadOf(a, hash);
      PrefixReaches(a[1..], b[1..], hash(LineOf(a[0])), hash);
    }
  }

  /**
   * A checkpoint of a non-empty chain-valid log holds for another log exactly when the first is a
   * prefix of the second, unless two different lines share a digest or one digests to genesis.
   */
  lemma CheckpointMeansPrefix(a: seq<Entry>, b: seq<Entry>, hash: Hash)
    requires Clean(a) && Clean(b) && a != [] && ChainValid(a, hash)
    ensures a <= b ==> HeadIntact(b, HeadOf(a, hash), hash)
    ensures HeadIntact(b, HeadOf(a, hash), hash) ==> a <= b || Broken(a, b, hash)
  {
    hide LineOf, Chained, Reaches, Clean, Collision, ZeroLine, Genesis;
    if a <= b { PrefixReaches(a, b, Genesis(), hash); }
    if !Collision(a, b, hash) && !ZeroLine(a, hash) && !ZeroLine(b, hash) {
      LastIsNotZero(a, hash);
      if Reaches(b, Genesis(), HeadOf(a, hash), hash) {
        var k := ReachesAt(b, Genesis(), HeadOf(a, hash), hash);
        TraceBack(a, b, |a| - 1, k, hash);
        assert a[..|a|] == a;
      }
    }
  }

  lemma LastIsNotZero(a: seq<Entry>, hash: Hash)
    requires a != [] && !ZeroLine(a, hash)
    ensures HeadOf(a, hash) != Genesis()
  {
  }

  /** A checkpoint of the empty log holds for every log. */
  lemma EmptyCheckpointHolds(b: seq<Entry>, hash: Hash)
    ensures HeadIntact(b, HeadOf([], hash), hash)
  {
    hide LineOf;
  }

  // ------------------------------------------------------------ the code

  lemma FieldsUnfold(line: Text, pos: nat, tab: nat)
    requires pos <= tab <= |line| && tab - pos == TabEnd(line[pos..])
    ensures Fields(line[pos..]) ==
      if tab == |line| then [line[pos..]] else [line[pos..tab]] + Fields(line[tab + 1..])
  {
    hide TabEnd;
    var rest := line[pos..];
    assert rest[..tab - pos] == line[pos..tab];
    if tab < |line| { assert rest[tab - pos + 1..] == line[tab + 1..]; }
  }

  lemma Regroup(a: seq<Text>, x: Text, b: seq<Text>)
    ensures a + ([x] + b) == (a + [x]) + b
  {
  }

  /** The field loop of `parse_audit_log`, for one line that is not empty. */
  method SplitFields(line: Text) returns (e: Option<Entry>)
    ensures e == ParseLine(line)
  {
    hide TabEnd, Fields;
    var fields: seq<Text> := [];
    var pos := 0;
    assert line[0..] == line;
    while true
      invariant pos <= |line| && |fields| <= 4
      invariant fields + Fields(line[pos..]) == Fields(line)
      decreases |line| - pos
    {
      var tab := FindTab(line, pos);
      FieldsUnfold(line, pos, tab);
      if |fields| >= 4 {
        return None;
      }
      if tab == |line| {
        fields := fields + [line[pos..]];
        break;
      }
      Regroup(fields, line[pos..tab], Fields(line[tab + 1..]));
      fields := fields + [line[pos..tab]];
      pos := tab + 1;
    }
    e := if |fields| != 4 then None else Some(Entry(fields[0], fields[1], fields[2], fields[3]));
  }

  /** `std::string_view::find` of a tab, the end of the line when there is none. */
  method FindTab(line: Text, from: nat) returns (at: nat)
    requires from <= |line|
    ensures from <= at <= |line| && at - from == TabEnd(line[from..])
  {
    at := from;
    while at < |line| && line[at] != TAB
      invariant from <= at <= |line| && TAB !in line[from..at]
    {
      assert line[from..at + 1] == line[from..at] + [line[at]];
      at := at + 1;
    }
    assert line[from..][..at - from] == line[from..at];
    TabEndIs(line[from..], at - from);
  }

  method FindLine(t: Text, from: nat) returns (at: nat)
    requires from <= |t|
    ensures from <= at <= |t| && at - from == LineEnd(t[from..])
  {
    at := from;
    while at < |t| && t[at] != LF
      invariant from <= at <= |t| && LF !in t[from..at]
    {
      assert t[from..at + 1] == t[from..at] + [t[at]];
      at := at + 1;
    }
    assert t[from..][..at - from] == t[from..at];
    LineEndAt(t[from..], at - from);
  }

  lemma ParseStep(t: Text)
    requires t != []
    ensures Parse(t) == Cons(t[..LineEnd(t)], Parse(if LineEnd(t) < |t| then t[LineEnd(t) + 1..] else []))
  {
    hide ParseLine;
  }

  /** `parse_audit_log`. */
  method ParseLog(text: Text) returns (out: Option<seq<Entry>>)
    ensures out == Parse(text)
  {
    hide ParseLine, Parse, LineEnd;
    var es: seq<Entry> := [];
    var start := 0;
    assert text[0..] == text;
    ParseNothing(Parse(text));
    while start < |text|
      invariant start <= |text| && Both(Some(es), Parse(text[start..])) == Parse(text)
      decreases |text| - start
    {
      ghost var rest := text[start..];
      var nl := FindLine(text, start);
      var line := text[start..nl];
      var next := if nl == |text| then nl else nl + 1;
      ParseStep(rest);
      assert rest[..nl - start] == line;
      assert text[next..] == if nl - start < |rest| then rest[nl - start + 1..] else [];
      ghost var more := Parse(text[next..]);
      start := next;
      if line == [] {
        continue;
      }
      var e := SplitFields(line);
      if e.None? {
        return None;
      }
      if more.Some? { assert es + ([e.value] + more.value) == (es + [e.value]) + more.value; }
      es := es + [e.value];
    }
    assert text[start..] == [];
    ParseNothing(Some(es));
    assert es + [] == es;
    out := Some(es);
  }

  /** The text of the log as the code reads it: none is an empty log. */
  function LogText(files: map<Text, Text>): Text {
    if LOG in files then files[LOG] else []
  }

  /** `read_audit_log`. */
  method ReadLog(dir: Dir) returns (es: Option<seq<Entry>>)
    ensures es == Parse(LogText(dir.files))
  {
    hide Parse, M.Ascii;
    var raw := dir.Read(LOG);
    if raw.None? {
      ParseNothing(None);
      return Some([]);
    }
    es := ParseLog(raw.value);
  }

  /** `audit_append`: nothing is written when the log does not parse. */
  method Append(dir: Dir, action: Text, actor: Text, timestamp: Text, hash: Hash) returns (ok: bool)
    modifies dir
    ensures ok <==> Parse(LogText(old(dir.files))).Some?
    ensures !ok ==> dir.files == old(dir.files)
    ensures ok ==>
      var text := LogText(old(dir.files));
      dir.files == old(dir.files)[LOG := text + LineOf(NewEntry(Parse(text).value, action, actor, timestamp, hash)) + [LF]]
    ensures ok ==>
      var text := LogText(old(dir.files));
      dir.files == old(dir.files)[M.Ascii("audit.log") :=
        text + (timestamp + [0x09] + action + [0x09] + actor + [0x09] + HeadOf(Parse(text).value, hash)) + [0x0A]]
  {
    hide Parse, M.Ascii;
    var es := ReadLog(dir);
    if es.None? {
      return false;
    }
    var e := Entry(timestamp, action, actor, HeadOf(es.value, hash));
    ghost var text := LogText(dir.files);
    assert text + (LineOf(e) + [LF]) == text + LineOf(e) + [LF];
    dir.Append(LOG, LineOf(e) + [LF]);
    ok := true;
  }

  /** `audit_verify`: the first broken entry, or none. */
  method Verify(es: seq<Entry>, hash: Hash) returns (ok: bool, broken: nat)
    ensures ok <==> ChainValid(es, hash)
    ensures !ok ==> broken < |es| && ChainValid(es[..broken], hash) && !ChainValid(es[..broken + 1], hash)
  {
    hide LineOf;
    var expected := Genesis();
    assert es[0..] == es && es[..0] == [];
    broken := 0;
    for i := 0 to |es|
      invariant expected == HeadOf(es[..i], hash) && ChainValid(es[..i], hash)
      invariant ChainValid(es, hash) <==> Chained(es[i..], expected, hash)
    {
      assert es[i..][1..] == es[i + 1..] && es[..i + 1] == es[..i] + [es[i]];
      ChainedSnoc(es[..i], es[i], Genesis(), hash);
      if es[i].prev != expected {
        return false, i;
      }
      expected := hash(LineOf(es[i]));
    }
    ok := true;
  }

  /** What a detached signature check reports. */
  datatype Checked = Checked(valid: bool, kid: Text)

  datatype CheckpointResult = CheckpointResult(present: bool, valid: bool, kid: Text, head: Text)

  /** The chain walk of `audit_verify_checkpoint`. */
  method HeadReached(es: seq<Entry>, head: Text, hash: Hash) returns (intact: bool)
    ensures intact <==> HeadIntact(es, head, hash)
  {
    hide LineOf;
    intact := head == Genesis();
    var expected := Genesis();
    assert es[0..] == es;
    for i := 0 to |es|
      invariant HeadIntact(es, head, hash) <==> intact || Reaches(es[i..], expected, head, hash)
    {
      assert es[i..][1..] == es[i + 1..];
      if es[i].prev != expected {
        return;
      }
      var h := hash(LineOf(es[i]));
      if h == head {
        return true;
      }
      expected := h;
    }
  }

  ghost function CheckpointOf(files: map<Text, Text>, read: Text -> Option<(Text, Text)>, check: (Text, Text) -> Option<Checked>, hash: Hash): Option<CheckpointResult> {
    if CHECKPOINT !in files then Some(CheckpointResult(false, false, [], []))
    else if read(files[CHECKPOINT]).None? then None
    else
      var head, signature := read(files[CHECKPOINT]).value.0, read(files[CHECKPOINT]).value.1;
      var checked, es := check(signature, head), Parse(LogText(files));
      if checked.None? || es.None? then None
      else Some(CheckpointResult(true, checked.value.valid && HeadIntact(es.value, head, hash), checked.value.kid, head))
  }

  /** `audit_verify_checkpoint`; reading the stored pair and checking the signature are parameters. */
  method VerifyCheckpoint(dir: Dir, read: Text -> Option<(Text, Text)>, check: (Text, Text) -> Option<Checked>, hash: Hash)
    returns (r: Option<CheckpointResult>)
    ensures r == CheckpointOf(dir.files, read, check, hash)
  {
    hide Parse, M.Ascii, HeadIntact;
    var raw := dir.Read(CHECKPOINT);
    if raw.None? {
      return Some(CheckpointResult(false, false, [], []));
    }
    var pair := read(raw.value);
    if pair.None? {
      return None;
    }
    var checked := check(pair.value.1, pair.value.0);
    if checked.None? {
      return None;
    }
    var es := ReadLog(dir);
    if es.None? {
      return None;
    }
    var intact := HeadReached(es.value, pair.value.0, hash);
    r := Some(CheckpointResult(true, checked.value.valid && intact, checked.value.kid, pair.value.0));
  }

  /** `audit_checkpoint`: the head of the log, signed and stored. */
  method SignCheckpoint(dir: Dir, sign: Text -> Option<Text>, store: (Text, Text) -> Text, hash: Hash) returns (ok: bool)
    modifies dir
    ensures var es := Parse(LogText(old(dir.files)));
      ok == (es.Some? && sign(HeadOf(es.value, hash)).Some?) &&
      dir.files == if !ok then old(dir.files) else
        old(dir.files)[CHECKPOINT := store(HeadOf(es.value, hash), sign(HeadOf(es.value, hash)).value)]
  {
    hide Parse, M.Ascii, HeadOf;
    var es := ReadLog(dir);
    if es.None? {
      return false;
    }
    var head := HeadOf(es.value, hash);
    var jws := sign(head);
    if jws.None? {
      return false;
    }
    dir.Write(CHECKPOINT, store(head, jws.value));
    ok := true;
  }

  /**
   * From checkpointing to checking: the checkpoint made of one container's non-empty chain-valid log,
   * carried into another container, is reported valid there exactly when its signature checks and the
   * first log is a prefix of the second - or else a collision or a line digesting to genesis is at hand.
   */
  lemma CarriedCheckpoint(first: map<Text, Text>, second: map<Text, Text>, signature: Text,
                          read: Text -> Option<(Text, Text)>, check: (Text, Text) -> Option<Checked>, hash: Hash)
    requires Parse(LogText(first)).Some? && Parse(LogText(second)).Some?
    requires var a := Parse(LogText(first)).value;
      a != [] && ChainValid(a, hash) &&
      CHECKPOINT in second && read(second[CHECKPOINT]) == Some((HeadOf(a, hash), signature)) &&
      check(signature, HeadOf(a, hash)).Some?
    ensures var a, b := Parse(LogText(first)).value, Parse(LogText(second)).value;
      var r := CheckpointOf(second, read, check, hash);
      r.Some? && r.value.present && r.value.head == HeadOf(a, hash) &&
      (r.value.valid ==> check(signature, HeadOf(a, hash)).value.valid) &&
      (r.value.valid ==> a <= b || Broken(a, b, hash)) &&
      (check(signature, HeadOf(a, hash)).value.valid && a <= b ==> r.value.valid)
  {
    hide Parse, ChainValid, HeadOf, HeadIntact, Broken, Clean, M.Ascii;
    ParsedIsClean(LogText(first));
    ParsedIsClean(LogText(second));
    CheckpointMeansPrefix(Parse(LogText(first)).value, Parse(LogText(second)).value, hash);
  }
}
