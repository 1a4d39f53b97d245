/**
 * encryption/policy.yaml: written by `encryption_policy_to_yaml` (src/serialize/policy_yaml.cpp); the
 * C reader takes one fact from it, which members are ciphertext (micro/src/yaml_min.c).
 */
module Policy {
  import opened Bytes
  import opened Json
  import opened Layout
  import opened Index
  import opened Ustar
  import opened Yaml
  import opened YamlCode
  import D = Metadata
  import U = UstarFormat
  import M = Manifest

  const METHOD := M.Ascii("method")
  const MANAGEMENT := M.Ascii("key_management")
  const ENCRYPTED := M.Ascii("encrypted_files")
  const STRUCTURE := M.Ascii("structure")
  const BOUND := M.Ascii("bound_sections")
  const RECIPIENTS := M.Ascii("recipients")
  const ENC := M.Ascii("enc")
  const WRAPPED := M.Ascii("wrapped_key")

  datatype Recipient = Recipient(id: Text, enc: Text, wrappedKey: Text)

  datatype Policy = Policy(cipher: Text, management: Text, files: seq<Text>, bound: Option<seq<Text>>, recipients: seq<Recipient>)

  // ------------------------------------------------------------ what is written

  /** `key: value` with the value as it is. */
  ghost function Raw(k: Text, v: Text): Text {
    k + [COLON, SPACE] + v
  }

  ghost function Items(fs: seq<Text>): seq<Text> {
    if fs == [] then [] else [ItemLine(fs[0])] + Items(fs[1..])
  }

  ghost function BoundItems(ss: seq<Text>): seq<Text> {
    if ss == [] then [] else [InnerLine([DASH, SPACE] + ss[0])] + BoundItems(ss[1..])
  }

  ghost function BoundLines(p: Policy): seq<Text> {
    match p.bound
    case None => []
    case Some(ss) =>
      if ss == [] then [STRUCTURE + [COLON], [SPACE, SPACE] + Raw(BOUND, D.NOTHING)]
      else [STRUCTURE + [COLON], [SPACE, SPACE] + BOUND + [COLON]] + BoundItems(ss)
  }

  ghost function RecipientLines(rs: seq<Recipient>): seq<Text> {
    if rs == [] then []
    else
      [ItemLine(Raw(D.ID, rs[0].id)), InnerLine(Raw(ENC, rs[0].enc)), InnerLine(Raw(WRAPPED, rs[0].wrappedKey))]
      + RecipientLines(rs[1..])
  }

  /** What follows the list of files. */
  ghost function Tail(p: Policy): seq<Text> {
    BoundLines(p) + ([RECIPIENTS + [COLON]] + RecipientLines(p.recipients))
  }

  ghost function PolicyLines(p: Policy): seq<Text> {
    [Raw(METHOD, p.cipher), Raw(MANAGEMENT, p.management), ENCRYPTED + [COLON]] + (Items(p.files) + Tail(p))
  }

  // ------------------------------------------------------------ the walk

  datatype Step = Go(inList: bool) | Hit

  /** A list item, compared as a C string once it is resolved. */
  ghost predicate Names(item: Text, path: Text) {
    var v := ReadScalar(Trim(item));
    v != [] && U.Field(v) == path
  }

  /** The items of a flow list, from the one that starts at `start`; `i` looks for its end, a NUL among others. */
  ghost predicate FlowNames(val: Text, start: nat, i: nat, path: Text)
    requires start <= i
    decreases if i <= |val| then |val| + 1 - i else 0
  {
    if i > |val| then false
    else if i < |val| && val[i] != 0 && val[i] != COMMA && val[i] != RBRACKET then FlowNames(val, start, i + 1, path)
    else
      Names(val[start..i], path) ||
      if i < |val| && val[i] == RBRACKET then false else FlowNames(val, i + 1, i + 1, path)
  }

  ghost function LineStep(line: Text, path: Text, inList: bool): Step {
    var body := TrimLeft(line);
    if body == [] || body[0] == HASH then Go(inList)
    else if |body| == |line| then TopStep(body, path)
    else if inList && body[0] == DASH && Names(body[1..], path) then Hit
    else Go(inList)
  }

  ghost function TopStep(body: Text, path: Text): Step {
    var kv := SplitLine(body, 0);
    if kv.None? || U.Field(kv.value.0) != ENCRYPTED then Go(false)
    else
      var val := kv.value.1;
      if val == [] then Go(true)
      else if val[0] == LBRACKET && FlowNames(val, 1, 1, path) then Hit
      else Go(false)
  }

  /** `mcdf_micro_is_sealed` over what is left of the policy. */
  ghost predicate SealedFrom(t: Text, path: Text, inList: bool)
    decreases |t|
  {
    t != [] && (
      var l := NextLine(t);
      l.cut || match LineStep(l.text, path, inList)
        case Hit => true
        case Go(next) => SealedFrom(l.rest, path, next))
  }

  /** The walk over a list of lines, none of them too long for the buffer. */
  ghost predicate OverLines(ls: seq<Text>, path: Text, inList: bool) {
    ls != [] && match LineStep(ls[0], path, inList)
      case Hit => true
      case Go(next) => OverLines(ls[1..], path, next)
  }

  /** Lines that do not fit are never a reason to call a member plaintext. */
  lemma {:induction false} SealedOrUnreadable(ls: seq<Text>, path: Text, inList: bool)
    requires AllWhole(ls)
    ensures var r := SealedFrom(JoinLines(ls), path, inList);
      r == OverLines(ls, path, inList) || (r && !AllFit(ls))
    decreases |ls|
  {
    hide LineStep, NextLine, Whole, JoinLines;
    if ls != [] {
      var l, more := ls[0], ls[1..];
      assert [l] + more == ls;
      if |l| < M.LINE_MAX {
        NextWrittenLine(l, more);
        var step := LineStep(l, path, inList);
        if step.Go? { SealedOrUnreadable(more, path, step.inList); }
      } else {
        NextLongLine(l, more);
      }
    } else {
      Empty(path, inList);
    }
  }

  lemma Empty(path: Text, inList: bool)
    ensures !SealedFrom(JoinLines([]), path, inList)
  {
  }

  // ------------------------------------------------------------ reading back what was written

  /** A member name that stands in a list as it is. */
  ghost predicate Bare(f: Text) {
    f != [] && 0 !in f && Trim(f) == f && ReadScalar(f) == f
  }

  /** Reading an item never makes it longer, and only a bare name keeps its length. */
  lemma ReadingShortens(f: Text)
    ensures |U.Field(ReadScalar(Trim(f)))| <= |ReadScalar(Trim(f))| <= |f|
    ensures |U.Field(ReadScalar(Trim(f)))| == |f| > 0 ==> Bare(f)
  {
    TrimShortens(f);
    FieldShortens(ReadScalar(Trim(f)));
    ScalarShortens(Trim(f));
  }

  lemma TrimShortens(f: Text)
    ensures |Trim(f)| <= |f| && (|Trim(f)| == |f| ==> Trim(f) == f)
  {
    LeftShortens(f);
    RightShortens(TrimLeft(f));
  }

  lemma {:induction false} LeftShortens(f: Text)
    ensures |TrimLeft(f)| <= |f| && (|TrimLeft(f)| == |f| ==> TrimLeft(f) == f)
  {
    if f != [] && Blank(f[0]) { LeftShortens(f[1..]); }
  }

  lemma {:induction false} RightShortens(f: Text)
    ensures |TrimRight(f)| == |f| ==> TrimRight(f) == f
  {
  }

  lemma ScalarShortens(v: Text)
    ensures |ReadScalar(v)| <= |v| && (|ReadScalar(v)| == |v| ==> ReadScalar(v) == v)
  {
    hide InDouble, InSingle;
    RightShortens(v[..CommentAt(v, 0)]);
    assert v[..|v|] == v;
  }

  lemma FieldShortens(v: Text)
    ensures |U.Field(v)| <= |v| && (|U.Field(v)| == |v| ==> U.Field(v) == v && 0 !in v)
  {
    assert v[..|v|] == v;
  }

  /** An item names what it says exactly when it is bare. */
  lemma NamesItself(f: Text)
    ensures Names(f, f) <==> Bare(f)
  {
    hide ReadScalar, Trim;
    ReadingShortens(f);
    if Bare(f) { M.PlainKey(f); }
  }

  /** Names without quotes, blanks and comment signs are. */
  lemma OrdinaryNames(f: Text)
    requires f != [] && forall i :: 0 <= i < |f| ==> f[i] > 0x20 && f[i] != HASH && f[i] != QUOTE && f[i] != APOSTROPHE
    ensures Bare(f)
  {
    NoHash(f, 0);
    assert f[..|f|] == f;
  }

  lemma {:induction false} NoHash(s: Text, i: nat)
    requires i <= |s| && forall k :: 0 <= k < |s| ==> s[k] != HASH
    ensures CommentAt(s, i) == |s|
    decreases |s| - i
  {
    if i < |s| { NoHash(s, i + 1); }
  }

  /** Text that does not break its line. */
  ghost predicate OneLine(s: Text) {
    LF !in s && (s != [] ==> s[|s| - 1] != CR)
  }

  ghost predicate Writable(p: Policy) {
    && OneLine(p.cipher) && OneLine(p.management)
    && (forall i :: 0 <= i < |p.files| ==> OneLine(p.files[i]))
    && (p.bound.Some? ==> forall i :: 0 <= i < |p.bound.value| ==> OneLine(p.bound.value[i]))
    && forall i :: 0 <= i < |p.recipients| ==>
      OneLine(p.recipients[i].id) && OneLine(p.recipients[i].enc) && OneLine(p.recipients[i].wrappedKey)
  }

  lemma StepGo(l: Text, ls: seq<Text>, path: Text, inList: bool)
    ensures OverLines([l] + ls, path, inList) <==>
      match LineStep(l, path, inList)
      case Hit => true
      case Go(next) => OverLines(ls, path, next)
  {
    hide LineStep;
    assert ([l] + ls)[1..] == ls;
  }

  /** Whatever the value, the key of a raw line is its key. */
  lemma RawSplits(k: Text, v: Text)
    requires KeyName(k)
    ensures SplitLine(Raw(k, v), 0).Some? && SplitLine(Raw(k, v), 0).value.0 == k
    ensures SplitLine(k + [COLON], 0) == Some((k, []))
  {
    var s := Raw(k, v);
    SplitSkips(s, 0, |k|);
    SnugTrims(k);
    assert s[..|k|] == k;
    EntrySplits(k, []);
    hide Trim;
  }

  /** A line at the margin under any other key closes the list. */
  lemma OtherKeyStep(k: Text, v: Text, path: Text, inList: bool)
    requires KeyName(k) && k != ENCRYPTED
    ensures LineStep(Raw(k, v), path, inList) == Go(false)
    ensures LineStep(k + [COLON], path, inList) == Go(false)
  {
    RawSplits(k, v);
    M.PlainKey(k);
    assert TrimLeft(Raw(k, v)) == Raw(k, v) && TrimLeft(k + [COLON]) == k + [COLON];
    hide SplitLine, TrimLeft, U.Field, M.Ascii;
  }

  lemma ListOpens(path: Text, inList: bool)
    ensures LineStep(ENCRYPTED + [COLON], path, inList) == Go(true)
  {
    PolicyNames();
    RawSplits(ENCRYPTED, []);
    M.PlainKey(ENCRYPTED);
    assert TrimLeft(ENCRYPTED + [COLON]) == ENCRYPTED + [COLON];
    hide SplitLine, TrimLeft, U.Field, M.Ascii;
  }

  lemma PolicyNames()
    ensures KeyName(METHOD) && KeyName(MANAGEMENT) && KeyName(ENCRYPTED) && KeyName(STRUCTURE) && KeyName(RECIPIENTS)
    ensures METHOD != ENCRYPTED && MANAGEMENT != ENCRYPTED && STRUCTURE != ENCRYPTED && RECIPIENTS != ENCRYPTED
  {
    assert METHOD[0] == 0x6D && MANAGEMENT[0] == 0x6B && ENCRYPTED[0] == 0x65 && STRUCTURE[0] == 0x73 && RECIPIENTS[0] == 0x72;
  }

  lemma ItemStep(f: Text, path: Text)
    ensures LineStep(ItemLine(f), path, true) == if Names(f, path) then Hit else Go(true)
  {
    var l := ItemLine(f);
    assert l == [SPACE] + ([SPACE] + ([DASH, SPACE] + f));
    assert l[1..] == [SPACE] + ([DASH, SPACE] + f) && l[1..][1..] == [DASH, SPACE] + f;
    assert TrimLeft([DASH, SPACE] + f) == [DASH, SPACE] + f;
    assert TrimLeft(l) == [DASH, SPACE] + f;
    assert ([DASH, SPACE] + f)[1..] == [SPACE] + f && ([SPACE] + f)[1..] == f;
    assert TrimLeft([SPACE] + f) == TrimLeft(f);
    hide ReadScalar, TrimLeft, TrimRight, TopStep, U.Field;
  }

  /** Indented lines outside a list say nothing. */
  lemma IndentedStep(e: Text, path: Text)
    ensures LineStep([SPACE, SPACE] + e, path, false) == Go(false)
  {
    var l := [SPACE, SPACE] + e;
    assert l[1..] == [SPACE] + e;
    assert TrimLeft(l) == TrimLeft(l[1..]);
    hide TopStep, Names;
  }

  /** Some listed name is read as this path. */
  ghost predicate Listed(fs: seq<Text>, path: Text) {
    exists f :: f in fs && Names(f, path)
  }

  lemma ListedUnfold(fs: seq<Text>, path: Text)
    requires fs != []
    ensures Listed(fs, path) <==> Names(fs[0], path) || Listed(fs[1..], path)
  {
    hide Names;
    assert forall f :: f in fs <==> f == fs[0] || f in fs[1..];
  }

  lemma {:induction false} FilesListed(fs: seq<Text>, rest: seq<Text>, path: Text)
    ensures OverLines(Items(fs) + rest, path, true) <==> Listed(fs, path) || OverLines(rest, path, true)
    decreases |fs|
  {
    hide LineStep, OverLines, Names, ItemLine;
    if fs == [] {
      assert Items(fs) + rest == rest;
    } else {
      assert Items(fs) + rest == [ItemLine(fs[0])] + (Items(fs[1..]) + rest);
      ItemStep(fs[0], path);
      StepGo(ItemLine(fs[0]), Items(fs[1..]) + rest, path, true);
      FilesListed(fs[1..], rest, path);
      ListedUnfold(fs, path);
    }
  }

  ghost predicate AllIndented(ls: seq<Text>) {
    ls == [] || ([SPACE, SPACE] <= ls[0] && AllIndented(ls[1..]))
  }

  lemma {:induction false} IndentedIsSilent(ls: seq<Text>, rest: seq<Text>, path: Text)
    requires AllIndented(ls)
    ensures OverLines(ls + rest, path, false) <==> OverLines(rest, path, false)
    decreases |ls|
  {
    hide LineStep, OverLines;
    if ls == [] {
      assert ls + rest == rest;
    } else {
      assert ls + rest == [ls[0]] + (ls[1..] + rest);
      assert ls[0] == [SPACE, SPACE] + ls[0][2..];
      IndentedStep(ls[0][2..], path);
      StepGo(ls[0], ls[1..] + rest, path, false);
      IndentedIsSilent(ls[1..], rest, path);
    }
  }

  lemma {:induction false} RecipientsAreIndented(rs: seq<Recipient>)
    ensures AllIndented(RecipientLines(rs))
  {
    hide Raw;
    if rs != [] {
      RecipientsAreIndented(rs[1..]);
      var a, b, c := ItemLine(Raw(D.ID, rs[0].id)), InnerLine(Raw(ENC, rs[0].enc)), InnerLine(Raw(WRAPPED, rs[0].wrappedKey));
      ThreeIndented(a, b, c, RecipientLines(rs[1..]));
    }
  }

  lemma ThreeIndented(a: Text, b: Text, c: Text, more: seq<Text>)
    requires [SPACE, SPACE] <= a && [SPACE, SPACE] <= b && [SPACE, SPACE] <= c && AllIndented(more)
    ensures AllIndented([a, b, c] + more)
  {
    assert ([a, b, c] + more)[1..] == [b, c] + more && ([b, c] + more)[1..] == [c] + more && ([c] + more)[1..] == more;
    assert AllIndented([c] + more) && AllIndented([b, c] + more);
  }

  lemma {:induction false} BoundAreIndented(ss: seq<Text>)
    ensures AllIndented(BoundItems(ss))
  {
    if ss != [] { BoundAreIndented(ss[1..]); }
  }

  /** What follows the list names nothing, however the list ended. */
  lemma TailIsSilent(p: Policy, path: Text)
    ensures !OverLines(Tail(p), path, true)
  {
    PolicyNames();
    hide LineStep, OverLines, M.Ascii, KeyName, AllIndented;
    var rs, last := RecipientLines(p.recipients), [RECIPIENTS + [COLON]];
    RecipientsAreIndented(p.recipients);
    IndentedIsSilent(rs, [], path);
    assert rs + [] == rs;
    NoLines(path, false);
    OtherKeyStep(RECIPIENTS, [], path, true);
    OtherKeyStep(RECIPIENTS, [], path, false);
    StepGo(RECIPIENTS + [COLON], rs, path, true);
    StepGo(RECIPIENTS + [COLON], rs, path, false);
    if p.bound.Some? {
      var head := STRUCTURE + [COLON];
      var inner := BoundInner(p.bound.value);
      OtherKeyStep(STRUCTURE, [], path, true);
      InnerIsIndented(p.bound.value);
      IndentedIsSilent(inner, last + rs, path);
      StepGo(head, inner + (last + rs), path, true);
      BoundLinesAre(p);
      assert BoundLines(p) + (last + rs) == [head] + (inner + (last + rs));
    } else {
      assert BoundLines(p) + (last + rs) == last + rs;
    }
  }

  lemma NoLines(path: Text, inList: bool)
    ensures !OverLines([], path, inList)
  {
  }

  ghost function BoundInner(ss: seq<Text>): seq<Text> {
    if ss == [] then [[SPACE, SPACE] + Raw(BOUND, D.NOTHING)] else [[SPACE, SPACE] + BOUND + [COLON]] + BoundItems(ss)
  }

  lemma InnerIsIndented(ss: seq<Text>)
    ensures AllIndented(BoundInner(ss))
  {
    hide Raw, M.Ascii;
    BoundAreIndented(ss);
    assert BoundInner(ss)[1..] == BoundItems(ss);
    assert BoundInner(ss)[0] == [SPACE, SPACE] + BoundInner(ss)[0][2..];
  }

  lemma BoundLinesAre(p: Policy)
    requires p.bound.Some?
    ensures BoundLines(p) == [STRUCTURE + [COLON]] + BoundInner(p.bound.value)
  {
    hide Raw, M.Ascii, BoundItems;
    var ss, head := p.bound.value, STRUCTURE + [COLON];
    PutTogether(head, [SPACE, SPACE] + Raw(BOUND, D.NOTHING), []);
    PutTogether(head, [SPACE, SPACE] + BOUND + [COLON], BoundItems(ss));
  }

  lemma PutTogether(a: Text, b: Text, rest: seq<Text>)
    ensures [a, b] + rest == [a] + ([b] + rest) && [a, b] == [a] + [b]
  {
  }

  /** The reader names what the listed names are read as. */
  lemma NamesListed(p: Policy, path: Text)
    ensures OverLines(PolicyLines(p), path, false) <==> Listed(p.files, path)
  {
    PolicyNames();
    hide LineStep, OverLines, M.Ascii, KeyName, Tail, Names, Raw;
    var rest := Items(p.files) + Tail(p);
    var a, b, c := Raw(METHOD, p.cipher), Raw(MANAGEMENT, p.management), ENCRYPTED + [COLON];
    assert PolicyLines(p) == [a] + ([b] + ([c] + rest));
    OtherKeyStep(METHOD, p.cipher, path, false);
    OtherKeyStep(MANAGEMENT, p.management, path, false);
    ListOpens(path, false);
    StepGo(a, [b] + ([c] + rest), path, false);
    StepGo(b, [c] + rest, path, false);
    StepGo(c, rest, path, false);
    FilesListed(p.files, Tail(p), path);
    TailIsSilent(p, path);
  }

  /** The reader names exactly the listed files. */
  ghost predicate ReadRight(p: Policy) {
    forall path :: OverLines(PolicyLines(p), path, false) <==> path in p.files
  }

  /** It does exactly when every listed name is bare. */
  lemma ListedExactly(p: Policy)
    ensures ReadRight(p) <==> forall f :: f in p.files ==> Bare(f)
  {
    hide OverLines, PolicyLines, Bare;
    if forall f :: f in p.files ==> Bare(f) {
      forall path ensures OverLines(PolicyLines(p), path, false) <==> path in p.files { BareListed(p, path); }
    }
    if ReadRight(p) {
      forall f | f in p.files ensures Bare(f) { AllBare(p, f); }
    }
  }

  lemma BareListed(p: Policy, path: Text)
    requires forall f :: f in p.files ==> Bare(f)
    ensures OverLines(PolicyLines(p), path, false) <==> path in p.files
  {
    hide OverLines, PolicyLines, Bare, ReadScalar, Trim;
    NamesListed(p, path);
    if path in p.files { NamesItself(path); }
    forall f | f in p.files && Names(f, path) ensures f == path { NamesItself(f); }
  }

  ghost function Longest(fs: seq<Text>): (n: nat)
    ensures forall f :: f in fs ==> |f| <= n
  {
    if fs == [] then 0
    else
      var n := Longest(fs[1..]);
      if |fs[0]| > n then |fs[0]| else n
  }

  /** A listed name that is not bare would be what a longer listed name is read as, and that one again. */
  lemma {:induction false} AllBare(p: Policy, f: Text)
    requires ReadRight(p) && f in p.files
    ensures Bare(f)
    decreases Longest(p.files) - |f|
  {
    hide OverLines, PolicyLines, Bare, ReadScalar, Trim;
    NamesItself(f);
    if !Bare(f) {
      NamesListed(p, f);
      var g :| g in p.files && Names(g, f);
      ReadingShortens(g);
      NamesItself(g);
      AllBare(p, g);
    }
  }

  /** `a #b` is written as it is and read as `a`: a policy that lists it alone does not name it. */
  lemma SharpNameIsLost(p: Policy)
    requires p.files == [[0x61, SPACE, HASH, 0x62]]
    ensures !OverLines(PolicyLines(p), p.files[0], false) && OverLines(PolicyLines(p), [0x61], false)
  {
    var f: Text := [0x61, SPACE, HASH, 0x62];
    assert TrimLeft(f) == f && TrimRight(f) == f;
    assert CommentAt(f, 2) == 2 && CommentAt(f, 1) == 2 && CommentAt(f, 0) == 2;
    assert f[..2] == [0x61, SPACE] && [0x61, SPACE][..1] == [0x61];
    assert TrimRight([0x61]) == [0x61];
    assert TrimRight([0x61, SPACE]) == [0x61];
    assert ReadScalar(f) == [0x61];
    M.PlainKey([0x61]);
    hide OverLines, PolicyLines, ReadScalar, Trim;
    NamesListed(p, f);
    NamesListed(p, [0x61]);
    assert Names(f, [0x61]) && f in p.files;
  }

  // ------------------------------------------------------------ written lines are whole

  lemma RawIsWhole(k: Text, v: Text)
    requires KeyName(k) && OneLine(v)
    ensures Whole(Raw(k, v)) && Whole(ItemLine(Raw(k, v))) && Whole(InnerLine(Raw(k, v)))
    ensures Whole(k + [COLON]) && Whole([SPACE, SPACE] + k + [COLON]) && Whole([SPACE, SPACE] + Raw(k, v))
  {
    var r := Raw(k, v);
    assert v != [] ==> r[|r| - 1] == v[|v| - 1];
    assert ItemLine(r)[|ItemLine(r)| - 1] == r[|r| - 1] && InnerLine(r)[|InnerLine(r)| - 1] == r[|r| - 1];
  }

  lemma {:induction false} ItemsAreWhole(fs: seq<Text>)
    requires forall i :: 0 <= i < |fs| ==> OneLine(fs[i])
    ensures AllWhole(Items(fs))
  {
    if fs != [] {
      var f, l := fs[0], ItemLine(fs[0]);
      assert f != [] ==> l[|l| - 1] == f[|f| - 1];
      assert Whole(l);
      ItemsAreWhole(fs[1..]);
    }
  }

  lemma {:induction false} BoundItemsAreWhole(ss: seq<Text>)
    requires forall i :: 0 <= i < |ss| ==> OneLine(ss[i])
    ensures AllWhole(BoundItems(ss))
  {
    if ss != [] {
      var s := ss[0];
      var l := InnerLine([DASH, SPACE] + s);
      assert s != [] ==> l[|l| - 1] == s[|s| - 1];
      assert Whole(l);
      BoundItemsAreWhole(ss[1..]);
    }
  }

  lemma {:induction false} RecipientsAreWhole(rs: seq<Recipient>)
    requires forall i :: 0 <= i < |rs| ==> OneLine(rs[i].id) && OneLine(rs[i].enc) && OneLine(rs[i].wrappedKey)
    ensures AllWhole(RecipientLines(rs))
  {
    InnerNames();
    hide Whole, ItemLine, InnerLine, Raw, OneLine, KeyName, M.Ascii;
    if rs != [] {
      RawIsWhole(D.ID, rs[0].id);
      RawIsWhole(ENC, rs[0].enc);
      RawIsWhole(WRAPPED, rs[0].wrappedKey);
      RecipientsAreWhole(rs[1..]);
      var a, b, c := ItemLine(Raw(D.ID, rs[0].id)), InnerLine(Raw(ENC, rs[0].enc)), InnerLine(Raw(WRAPPED, rs[0].wrappedKey));
      var more := RecipientLines(rs[1..]);
      Three(a, b, c, more);
    }
  }

  lemma Three(a: Text, b: Text, c: Text, more: seq<Text>)
    requires Whole(a) && Whole(b) && Whole(c) && AllWhole(more)
    ensures AllWhole([a, b, c] + more)
  {
    hide Whole;
    assert ([a, b, c] + more)[1..] == [b, c] + more && ([b, c] + more)[1..] == [c] + more && ([c] + more)[1..] == more;
    assert AllWhole([c] + more) && AllWhole([b, c] + more);
  }

  lemma InnerNames()
    ensures KeyName(D.ID) && KeyName(ENC) && KeyName(WRAPPED) && KeyName(BOUND) && OneLine(D.NOTHING)
  {
    assert D.NOTHING == [LBRACKET, RBRACKET];
  }

  lemma OneWhole(l: Text)
    requires Whole(l)
    ensures AllWhole([l])
  {
    assert [l][1..] == [];
  }

  lemma TailIsWhole(p: Policy)
    requires Writable(p)
    ensures AllWhole(Tail(p))
  {
    PolicyNames();
    InnerNames();
    hide AllWhole, Whole, OneLine, KeyName, M.Ascii, Raw;
    RecipientsAreWhole(p.recipients);
    assert OneLine([]) by { Blank0(); }
    RawIsWhole(RECIPIENTS, []);
    OneWhole(RECIPIENTS + [COLON]);
    AllWholeConcat([RECIPIENTS + [COLON]], RecipientLines(p.recipients));
    if p.bound.Some? {
      RawIsWhole(STRUCTURE, []);
      OneWhole(STRUCTURE + [COLON]);
      RawIsWhole(BOUND, D.NOTHING);
      OneWhole([SPACE, SPACE] + Raw(BOUND, D.NOTHING));
      OneWhole([SPACE, SPACE] + BOUND + [COLON]);
      BoundItemsAreWhole(p.bound.value);
      AllWholeConcat([[SPACE, SPACE] + BOUND + [COLON]], BoundItems(p.bound.value));
      BoundLinesAre(p);
      AllWholeConcat([STRUCTURE + [COLON]], BoundInner(p.bound.value));
    } else {
      NoneWhole();
    }
    AllWholeConcat(BoundLines(p), [RECIPIENTS + [COLON]] + RecipientLines(p.recipients));
  }

  lemma Blank0()
    ensures OneLine([])
  {
  }

  lemma NoneWhole()
    ensures AllWhole([])
  {
  }

  lemma PolicyIsWhole(p: Policy)
    requires Writable(p)
    ensures AllWhole(PolicyLines(p))
  {
    PolicyNames();
    hide AllWhole, Whole, OneLine, KeyName, M.Ascii, Raw, Bare, Tail;
    ItemsAreWhole(p.files);
    TailIsWhole(p);
    RawIsWhole(METHOD, p.cipher);
    RawIsWhole(MANAGEMENT, p.management);
    assert OneLine([]) by { Blank0(); }
    RawIsWhole(ENCRYPTED, []);
    NoneWhole();
    var a, b, c := Raw(METHOD, p.cipher), Raw(MANAGEMENT, p.management), ENCRYPTED + [COLON];
    Three(a, b, c, []);
    assert [a, b, c] + [] == [a, b, c];
    AllWholeConcat(Items(p.files), Tail(p));
    AllWholeConcat([a, b, c], Items(p.files) + Tail(p));
  }

  /**
   * The C reader calls exactly what the listed names are read as sealed, and more only when some line
   * does not fit its buffer. Where all names are bare, that is exactly the listed members.
   */
  lemma SealedIffListed(p: Policy, path: Text)
    requires Writable(p)
    ensures var sealed := SealedFrom(JoinLines(PolicyLines(p)), path, false);
      (Listed(p.files, path) ==> sealed) &&
      (AllFit(PolicyLines(p)) ==> (sealed <==> Listed(p.files, path))) &&
      ((forall f :: f in p.files ==> Bare(f)) ==> (Listed(p.files, path) <==> path in p.files))
  {
    hide PolicyLines, OverLines, SealedFrom, JoinLines, AllWhole, AllFit, Writable, Bare, Listed;
    PolicyIsWhole(p);
    SealedOrUnreadable(PolicyLines(p), path, false);
    NamesListed(p, path);
    if forall f :: f in p.files ==> Bare(f) { BareListed(p, path); }
  }

  // ------------------------------------------------------------ the code

  /** One item of a list, compared with the path. */
  method IsNamed(line: array<byte>, at: nat, len: nat, path: Text) returns (r: bool)
    requires at + len <= line.Length
    modifies line
    ensures r <==> Names(old(line[at..at + len]), path)
    ensures line[..at] == old(line[..at]) && line[at + len..] == old(line[at + len..])
  {
    hide ReadScalar, Trim, U.Field;
    var item, size := TrimRange(line, at, len);
    ghost var was := line[..];
    var n := ResolveScalar(line, item, size);
    assert line[..at] == line[..item][..at] == was[..item][..at] == was[..at];
    assert line[at + len..] == line[item + size..][at + len - item - size..];
    assert was[at + len..] == was[item + size..][at + len - item - size..];
    if n == 0 {
      return false;
    }
    r := KeyIs(line, item, n, path);
  }

  /** From `start` on the buffer still holds the list as it was read. */
  ghost predicate StillHolds(line: Text, at: nat, len: nat, val: Text, start: nat) {
    at + len <= |line| && |val| == len && (start <= len ==> line[at + start..at + len] == val[start..])
  }

  lemma HoldsAt(line: Text, at: nat, len: nat, val: Text, start: nat, i: nat)
    requires StillHolds(line, at, len, val, start) && start <= i <= len
    ensures i < len ==> line[at + i] == val[i]
    ensures line[at + start..at + i] == val[start..i]
  {
    if i < len { assert line[at + i] == line[at + start..at + len][i - start]; }
    assert line[at + start..at + i] == line[at + start..at + len][..i - start];
    assert val[start..i] == val[start..][..i - start];
  }

  lemma HoldsLater(before: Text, after: Text, at: nat, len: nat, val: Text, start: nat, i: nat)
    requires StillHolds(before, at, len, val, start) && start <= i <= len && |after| == |before|
    requires after[at + i..] == before[at + i..]
    ensures StillHolds(after, at, len, val, i + 1)
  {
    if i < len {
      forall k | i < k < len ensures after[at + k] == val[k] {
        assert after[at + k] == after[at + i..][k - i] && before[at + k] == before[at + i..][k - i];
        assert before[at + k] == before[at + start..at + len][k - start];
        assert val[k] == val[start..][k - start];
      }
      assert after[at + (i + 1)..at + len] == val[i + 1..];
    }
  }

  /** The flow-list loop; items are resolved in place once their delimiter has been read. */
  method FlowLoop(line: array<byte>, at: nat, len: nat, path: Text) returns (r: bool)
    requires at + len <= line.Length && len >= 1
    modifies line
    ensures r <==> FlowNames(old(line[at..at + len]), 1, 1, path)
  {
    hide Names, StillHolds;
    ghost var val := line[at..at + len];
    var i, start := 1, 1;
    FlowStart(line[..], at, len, val);
    while i <= len
      invariant 1 <= start <= i <= len + 1 && StillHolds(line[..], at, len, val, start)
      invariant FlowNames(val, 1, 1, path) <==> FlowNames(val, start, i, path)
    {
      HoldsAt(line[..], at, len, val, start, i);
      var delim := if i < len then line[at + i] else 0;
      if delim != 0 && delim != COMMA && delim != RBRACKET {
        i := i + 1;
        continue;
      }
      ghost var before := line[..];
      assert line[at + start..at + i] == before[at + start..at + i];
      var hit := IsNamed(line, at + start, i - start, path);
      if hit {
        return true;
      }
      if i < len && delim == RBRACKET {
        return false;
      }
      SameTail(before, line[..], at + start + (i - start), at + i);
      HoldsLater(before, line[..], at, len, val, start, i);
      i := i + 1;
      start := i;
    }
    r := false;
  }

  /** `[a`, a NUL, `b]` names `b`. */
  lemma NulEndsItem()
    ensures FlowNames([LBRACKET, 0x61, 0, 0x62, RBRACKET], 1, 1, [0x62])
  {
    var val: Text, b: Text := [LBRACKET, 0x61, 0, 0x62, RBRACKET], [0x62];
    assert val[3..4] == b;
    OrdinaryNames(b);
    NamesItself(b);
    hide Names;
    assert FlowNames(val, 3, 4, b) && FlowNames(val, 3, 3, b);
    assert FlowNames(val, 1, 2, b);
  }

  lemma FlowStart(line: Text, at: nat, len: nat, val: Text)
    requires at + len <= |line| && len >= 1 && val == line[at..at + len]
    ensures StillHolds(line, at, len, val, 1)
  {
  }

  lemma SameTail(before: Text, after: Text, m: nat, n: nat)
    requires m == n <= |before| == |after| && after[m..] == before[m..]
    ensures after[n..] == before[n..]
  {
  }

  method DoTop(line: array<byte>, len: nat, path: Text) returns (step: Step)
    requires len <= line.Length
    modifies line
    ensures step == TopStep(old(line[0..len]), path)
  {
    hide SplitLine, U.Field, M.Ascii, FlowNames;
    var found, key, keyLen, val, valLen := SplitRange(line, 0, len);
    if !found {
      return Go(false);
    }
    var same := KeyIs(line, key, keyLen, ENCRYPTED);
    if !same {
      return Go(false);
    }
    if valLen == 0 {
      return Go(true);
    }
    if line[val] == LBRACKET {
      var hit := FlowLoop(line, val, valLen, path);
      if hit {
        return Hit;
      }
    }
    step := Go(false);
  }

  method DoLine(line: array<byte>, len: nat, path: Text, inList: bool) returns (step: Step)
    requires len <= line.Length
    modifies line
    ensures step == LineStep(old(line[..len]), path, inList)
  {
    hide TrimLeft, TopStep, Names;
    var indent := IndentOf(line, len);
    if indent == len || line[indent] == HASH {
      return Go(inList);
    }
    if indent == 0 {
      step := DoTop(line, len, path);
      return;
    }
    if !inList || line[indent] != DASH {
      return Go(inList);
    }
    assert line[indent..len][1..] == line[indent + 1..len];
    var hit := IsNamed(line, indent + 1, len - indent - 1, path);
    step := if hit then Hit else Go(inList);
  }

  method WalkLines(c: Cursor, path: Text) returns (r: bool)
    requires c.Valid()
    modifies c, c.buf
    ensures r <==> SealedFrom(old(c.Rest()), path, false)
  {
    hide LineStep, NextLine, Cursor.Valid, Cursor.Rest;
    var line := new byte[M.LINE_MAX];
    var inList := false;
    ghost var t := c.Rest();
    while true
      invariant c.Valid() && (SealedFrom(c.Rest(), path, inList) <==> SealedFrom(t, path, false))
      decreases |c.Rest()|
    {
      var status, len, cut := ReadLine(c, line);
      if status == E_NOT_FOUND {
        return false;
      }
      if cut {
        return true;
      }
      var step := DoLine(line, len, path, inList);
      if step == Hit {
        return true;
      }
      inList := step.inList;
    }
  }

  /** `mcdf_micro_is_sealed`. */
  method IsSealed(r: Reader, path: Text) returns (sealed: bool)
    requires r.Valid()
    ensures sealed <==> match FirstWith(r.index, POLICY, 0)
      case None => false
      case Some(i) => SealedFrom(Contents(r.src, r.index)[i].data, path, false)
  {
    hide SealedFrom, M.Ascii;
    var c := OpenCursor(r, POLICY);
    if c == null {
      return false;
    }
    sealed := WalkLines(c, path);
  }

  // ------------------------------------------------------------ the writer

  lemma {:induction false} ItemsSnoc(fs: seq<Text>, f: Text)
    ensures Items(fs + [f]) == Items(fs) + [ItemLine(f)]
    ensures BoundItems(fs + [f]) == BoundItems(fs) + [InnerLine([DASH, SPACE] + f)]
  {
    hide ItemLine, InnerLine;
    if fs == [] {
      assert [f][1..] == [] && fs + [f] == [f];
    } else {
      assert (fs + [f])[1..] == fs[1..] + [f];
      ItemsSnoc(fs[1..], f);
    }
  }

  lemma JoinAdd(ls: seq<Text>, l: Text)
    ensures JoinLines(ls + [l]) == JoinLines(ls) + l + [LF]
  {
    hide JoinLines;
    D.JoinConcat(ls, [l]);
    D.JoinOne(l);
  }

  /** A `- item` list at either indentation. */
  method WriteItems(fs: seq<Text>, inner: bool) returns (out: Text)
    ensures out == JoinLines(if inner then BoundItems(fs) else Items(fs))
  {
    hide JoinLines;
    out := [];
    assert fs[..0] == [];
    NothingWritten();
    for i := 0 to |fs|
      invariant out == JoinLines(if inner then BoundItems(fs[..i]) else Items(fs[..i]))
    {
      assert fs[..i + 1] == fs[..i] + [fs[i]];
      ItemsSnoc(fs[..i], fs[i]);
      JoinAdd(Items(fs[..i]), ItemLine(fs[i]));
      JoinAdd(BoundItems(fs[..i]), InnerLine([DASH, SPACE] + fs[i]));
      out := out + (if inner then [SPACE, SPACE, SPACE, SPACE] + ([DASH, SPACE] + fs[i]) else [SPACE, SPACE, DASH, SPACE] + fs[i]) + [LF];
    }
    assert fs[..|fs|] == fs;
  }

  lemma NothingWritten()
    ensures JoinLines([]) == [] && Items([]) == [] && BoundItems([]) == [] && RecipientLines([]) == []
  {
  }

  lemma {:induction false} RecipientsConcat(a: seq<Recipient>, b: seq<Recipient>)
    ensures RecipientLines(a + b) == RecipientLines(a) + RecipientLines(b)
  {
    hide ItemLine, InnerLine, Raw;
    if a == [] {
      assert a + b == b && RecipientLines(a) + RecipientLines(b) == RecipientLines(b);
    } else {
      assert (a + b)[1..] == a[1..] + b && (a + b)[0] == a[0];
      RecipientsConcat(a[1..], b);
      RecipientsUnfold(a);
      RecipientsUnfold(a + b);
      hide RecipientLines;
    }
  }

  lemma RecipientsUnfold(rs: seq<Recipient>)
    requires rs != []
    ensures RecipientLines(rs) ==
      [ItemLine(Raw(D.ID, rs[0].id)), InnerLine(Raw(ENC, rs[0].enc)), InnerLine(Raw(WRAPPED, rs[0].wrappedKey))]
      + RecipientLines(rs[1..])
  {
    hide ItemLine, InnerLine, Raw;
  }

  lemma OneRecipient(r: Recipient)
    ensures JoinLines(RecipientLines([r])) ==
      (ItemLine(Raw(D.ID, r.id)) + [LF]) + (InnerLine(Raw(ENC, r.enc)) + [LF]) + (InnerLine(Raw(WRAPPED, r.wrappedKey)) + [LF])
  {
    hide ItemLine, InnerLine, Raw, JoinLines;
    assert [r][1..] == [];
    var a, b, c := ItemLine(Raw(D.ID, r.id)), InnerLine(Raw(ENC, r.enc)), InnerLine(Raw(WRAPPED, r.wrappedKey));
    NothingWritten();
    assert RecipientLines([r]) == [a] + [b] + [c];
    JoinAdd([a] + [b], c);
    JoinAdd([a], b);
    D.JoinOne(a);
  }

  method WriteRecipients(rs: seq<Recipient>) returns (out: Text)
    ensures out == JoinLines(RecipientLines(rs))
  {
    hide JoinLines, RecipientLines, M.Ascii;
    out := [];
    assert rs[..0] == [];
    NothingWritten();
    for i := 0 to |rs|
      invariant out == JoinLines(RecipientLines(rs[..i]))
    {
      var r := rs[i];
      assert rs[..i + 1] == rs[..i] + [r];
      RecipientsConcat(rs[..i], [r]);
      D.JoinConcat(RecipientLines(rs[..i]), RecipientLines([r]));
      OneRecipient(r);
      var one := ([SPACE, SPACE, DASH, SPACE] + (D.ID + [COLON, SPACE] + r.id) + [LF])
        + ([SPACE, SPACE, SPACE, SPACE] + (ENC + [COLON, SPACE] + r.enc) + [LF])
        + ([SPACE, SPACE, SPACE, SPACE] + (WRAPPED + [COLON, SPACE] + r.wrappedKey) + [LF]);
      out := out + one;
    }
    assert rs[..|rs|] == rs;
  }

  /** The `structure:` block. */
  method WriteBound(p: Policy) returns (out: Text)
    ensures out == JoinLines(BoundLines(p))
  {
    hide JoinLines, M.Ascii;
    NothingWritten();
    if p.bound.None? {
      return [];
    }
    var head := STRUCTURE + [COLON];
    D.JoinOne(head);
    if p.bound.value == [] {
      D.NothingIs();
      ghost var inner := [SPACE, SPACE] + Raw(BOUND, D.NOTHING);
      JoinAdd([head], inner);
      assert [head] + [inner] == BoundLines(p);
      out := head + [LF] + ([SPACE, SPACE] + (BOUND + [COLON, SPACE] + [LBRACKET, RBRACKET])) + [LF];
    } else {
      var inner := [SPACE, SPACE] + BOUND + [COLON];
      JoinAdd([head], inner);
      var items := WriteItems(p.bound.value, true);
      D.JoinConcat([head] + [inner], BoundItems(p.bound.value));
      assert [head] + [inner] == [head, inner];
      out := head + [LF] + inner + [LF] + items;
    }
  }

  /** `encryption_policy_to_yaml`. */
  method WritePolicy(p: Policy) returns (out: Text)
    ensures out == JoinLines(PolicyLines(p))
  {
    hide JoinLines, Items, BoundLines, RecipientLines, M.Ascii;
    var a, b, c := METHOD + [COLON, SPACE] + p.cipher, MANAGEMENT + [COLON, SPACE] + p.management, ENCRYPTED + [COLON];
    var files := WriteItems(p.files, false);
    var bound := WriteBound(p);
    var last := RECIPIENTS + [COLON];
    var recipients := WriteRecipients(p.recipients);
    out := (a + [LF] + b + [LF] + c + [LF]) + (files + (bound + ((last + [LF]) + recipients)));
    D.JoinOne(a);
    JoinAdd([a], b);
    JoinAdd([a] + [b], c);
    assert [a] + [b] + [c] == [a, b, c];
    D.JoinOne(last);
    D.JoinConcat([last], RecipientLines(p.recipients));
    D.JoinConcat(BoundLines(p), [last] + RecipientLines(p.recipients));
    D.JoinConcat(Items(p.files), Tail(p));
    D.JoinConcat([a, b, c], Items(p.files) + Tail(p));
  }
}
