/**
 * manifest.json: the canonical text both implementations emit (micro/host/jcs.c,
 * src/serialize/canonical_json.cpp) and the one shape micro/src/manifest.c reads.
 */
module Manifest {
  import opened Bytes
  import opened Json
  import opened Ustar
  import Tar
  import U = UstarFormat

  const LINE_MAX: nat := 256
  const VALUE_MAX: nat := 128

  function Ascii(s: string): (r: Text)
    requires forall i :: 0 <= i < |s| ==> ' ' <= s[i] <= '~'
    ensures |r| == |s| && forall i :: 0 <= i < |s| ==> r[i] == s[i] as int
  {
    seq(|s|, i requires 0 <= i < |s| => s[i] as int)
  }

  const FILES := Ascii("files")
  const ALGORITHM := Ascii("hash_algorithm")
  const VERSION := Ascii("mcdf_version")
  const SHA256 := Ascii("sha256")

  datatype File = File(path: Text, hash: Text)

  // ------------------------------------------------------------ the text

  ghost function Pair(key: Text, value: Text): Text {
    Quoted(key) + [COLON] + Quoted(value)
  }

  /** The members of the `files` object, with a comma before each but the first. */
  ghost function Items(fs: seq<File>, first: bool): Text {
    if fs == [] then []
    else (if first then [] else [COMMA]) + Pair(fs[0].path, fs[0].hash) + Items(fs[1..], false)
  }

  /** What follows the `files` object. */
  ghost function Trailer(version: Text): Text {
    [COMMA] + Pair(ALGORITHM, SHA256) + [COMMA] + Pair(VERSION, version) + [CLOSE]
  }

  /** The canonical manifest: keys in their sorted order, no whitespace. */
  ghost function ManifestText(fs: seq<File>, version: Text): Text {
    [OPEN] + Quoted(FILES) + [COLON, OPEN] + Items(fs, true) + [CLOSE] + Trailer(version)
  }

  // ------------------------------------------------------------ what the reader makes of a member

  datatype KeyResult = End | Bad | Key(name: Text, rest: Text)

  /** `jkey`: the next `"key":` of an object. */
  ghost function NextKey(t: Text, first: bool): (r: KeyResult)
    ensures r.Key? ==> |r.rest| < |t|
  {
    var u := AfterSpace(t);
    if u == [] then Bad
    else if u[0] == CLOSE then End
    else if !first && u[0] != COMMA then Bad
    else
      var w := if first then u else AfterSpace(u[1..]);
      if w == [] || w[0] != QUOTE then Bad
      else
        ReadStrShrinks(w[1..]);
        var s := ReadStr(w[1..]);
        if s.None? then Bad
        else
          var x := AfterSpace(s.value.rest);
          if x == [] || x[0] != COLON then Bad else Key(s.value.value, x[1..])
  }

  /** A C string in a key buffer, compared with `mm_streq`. */
  ghost predicate KeyIs(name: Text, key: Text) {
    |name| < LINE_MAX && U.Field(name) == key
  }

  datatype Looked = Looked(status: Status, value: Text)

  /** `mm_emit` into a buffer of that size, or into none. */
  function EmitTo(v: Text, dst: Option<nat>): Looked {
    if dst.Some? && |v| + 1 > dst.value then Looked(E_RANGE, []) else Looked(OK, v)
  }

  /** `jvalue_emit`. */
  ghost function ValueTo(t: Text, dst: Option<nat>): Looked {
    var u := AfterSpace(t);
    if u == [] || u[0] != QUOTE || ReadStr(u[1..]).None? then Looked(E_PARSE, [])
    else
      var v := ReadStr(u[1..]).value.value;
      if |v| + 1 > VALUE_MAX then Looked(E_RANGE, []) else EmitTo(v, dst)
  }

  lemma SkipShrinks(t: Text, depth: nat)
    ensures Skip(t, depth).Some? ==> |Skip(t, depth).value| <= |t|
    decreases |t|
  {
    hide ReadStr, AfterLiteral;
    var u := AfterSpace(t);
    if u != [] {
      var c, v := u[0], u[1..];
      ReadStrShrinks(v);
      if c == QUOTE {
        if ReadStr(v).Some? && depth > 0 { SkipShrinks(ReadStr(v).value.rest, depth); }
      } else if c == OPEN || c == LBRACKET {
        SkipShrinks(v, depth + 1);
      } else if c == CLOSE || c == RBRACKET {
        if depth > 1 { SkipShrinks(v, depth - 1); }
      } else if c == COMMA || c == COLON {
        SkipShrinks(v, depth);
      } else if depth > 0 {
        SkipShrinks(AfterLiteral(v), depth);
      }
    }
  }

  /** The members of one object, up to the first whose key is `key`: what follows its colon. */
  ghost function FindKey(t: Text, first: bool, key: Text): (r: KeyResult)
    ensures r.Key? ==> |r.rest| < |t|
    decreases |t|
  {
    match NextKey(t, first)
    case End => End
    case Bad => Bad
    case Key(name, rest) =>
      if KeyIs(name, key) then Key(name, rest)
      else
        SkipShrinks(rest, 0);
        if Skip(rest, 0).None? then Bad else FindKey(Skip(rest, 0).value, false, key)
  }

  /** `jopen`: what follows the opening brace. */
  ghost function AfterOpen(t: Text): Option<Text> {
    var u := AfterSpace(t);
    if u == [] || u[0] != OPEN then None else Some(u[1..])
  }

  /** `mcdf_micro_manifest_field`. */
  ghost function FieldOf(member: Text, key: Text, dst: Option<nat>): Looked {
    if AfterOpen(member).None? then Looked(E_PARSE, [])
    else match FindKey(AfterOpen(member).value, true, key)
      case End => Looked(E_NOT_FOUND, [])
      case Bad => Looked(E_PARSE, [])
      case Key(_, rest) => ValueTo(rest, dst)
  }

  datatype Want = Count | At(index: nat) | ByPath(path: Text)

  datatype FilesResult = FilesResult(status: Status, count: nat, path: Text, hash: Text)

  function Failed(status: Status): FilesResult {
    FilesResult(status, 0, [], [])
  }

  ghost predicate Hit(want: Want, index: nat, name: Text) {
    match want
    case Count => false
    case At(i) => index == i
    case ByPath(p) => KeyIs(name, p)
  }

  /** The entry a walk was after. */
  ghost function TakeEntry(want: Want, name: Text, rest: Text, pathDst: Option<nat>, hashDst: Option<nat>): FilesResult {
    if want.At? && |name| + 1 > LINE_MAX then Failed(E_RANGE)
    else if want.At? && EmitTo(name, pathDst).status != OK then Failed(E_RANGE)
    else
      var v := ValueTo(rest, hashDst);
      if v.status != OK then Failed(v.status) else FilesResult(OK, 0, if want.At? then name else [], v.value)
  }

  /** The walk over the `files` object from its `index`-th entry on. */
  ghost function EntriesFrom(t: Text, first: bool, index: nat, want: Want, pathDst: Option<nat>, hashDst: Option<nat>): FilesResult
    decreases |t|
  {
    match NextKey(t, first)
    case Bad => Failed(E_PARSE)
    case End => if want.Count? then FilesResult(OK, index, [], []) else Failed(E_NOT_FOUND)
    case Key(name, rest) =>
      if Hit(want, index, name) then TakeEntry(want, name, rest, pathDst, hashDst)
      else
        SkipShrinks(rest, 0);
        if Skip(rest, 0).None? then Failed(E_PARSE)
        else EntriesFrom(Skip(rest, 0).value, false, index + 1, want, pathDst, hashDst)
  }

  /** `mm_files_walk`. */
  ghost function FilesOf(member: Text, want: Want, pathDst: Option<nat>, hashDst: Option<nat>): FilesResult {
    if AfterOpen(member).None? then Failed(E_PARSE)
    else match FindKey(AfterOpen(member).value, true, FILES)
      case End => Failed(E_NOT_FOUND)
      case Bad => Failed(E_PARSE)
      case Key(_, rest) =>
        if AfterOpen(rest).None? then Failed(E_PARSE)
        else EntriesFrom(AfterOpen(rest).value, true, 0, want, pathDst, hashDst)
  }

  // ------------------------------------------------------------ reading back what was written

  lemma ReadQuoted(s: Text, t: Text, u: Text)
    requires u == Quoted(s) + t
    ensures u != [] && u[0] == QUOTE && AfterSpace(u) == u && ReadStr(u[1..]) == Some(Str(s, t))
  {
    assert u[1..] == Escape(s) + [QUOTE] + t;
    StrRoundTrip(s, t);
  }

  lemma SkipQuoted(s: Text, t: Text, u: Text, depth: nat)
    requires u == Quoted(s) + t
    ensures Skip(u, depth) == if depth == 0 then Some(t) else Skip(t, depth)
  {
    hide Quoted, ReadStr;
    ReadQuoted(s, t, u);
  }

  lemma ValueOfQuoted(s: Text, t: Text, dst: Option<nat>)
    ensures ValueTo(Quoted(s) + t, dst) == if |s| + 1 > VALUE_MAX then Looked(E_RANGE, []) else EmitTo(s, dst)
  {
    hide Quoted, ReadStr;
    ReadQuoted(s, t, Quoted(s) + t);
  }

  /** Separators inside an object are skipped. */
  lemma SkipSeparator(c: byte, t: Text, u: Text, depth: nat)
    requires u == [c] + t && (c == COMMA || c == COLON) && depth > 0
    ensures Skip(u, depth) == Skip(t, depth)
  {
    assert u[1..] == t;
  }

  lemma KeyFirst(key: Text, rest: Text, u: Text)
    requires u == Quoted(key) + ([COLON] + rest)
    ensures NextKey(u, true) == Key(key, rest)
  {
    hide Quoted, ReadStr;
    var x := [COLON] + rest;
    ReadQuoted(key, x, u);
    assert AfterSpace(x) == x && x[1..] == rest;
  }

  lemma KeyNext(key: Text, rest: Text, u: Text)
    requires u == [COMMA] + (Quoted(key) + ([COLON] + rest))
    ensures NextKey(u, false) == Key(key, rest)
  {
    hide Quoted, ReadStr;
    var w, x := Quoted(key) + ([COLON] + rest), [COLON] + rest;
    ReadQuoted(key, x, w);
    assert AfterSpace(u) == u && u[1..] == w;
    assert AfterSpace(x) == x && x[1..] == rest;
  }

  /** One written pair of an object, taken apart. */
  lemma PairParts(first: bool, key: Text, value: Text, t: Text, u: Text)
    requires u == (if first then [] else [COMMA]) + Pair(key, value) + t
    ensures NextKey(u, first) == Key(key, Quoted(value) + t)
    ensures Skip(Quoted(value) + t, 0) == Some(t)
    ensures forall depth :: depth > 0 ==> Skip(u, depth) == Skip(t, depth)
  {
    hide Quoted, NextKey, Skip;
    var rest := Quoted(value) + t;
    var w := Quoted(key) + ([COLON] + rest);
    SkipQuoted(value, t, rest, 0);
    if first {
      assert u == w;
      KeyFirst(key, rest, u);
    } else {
      assert u == [COMMA] + w;
      KeyNext(key, rest, u);
    }
    forall depth: nat | depth > 0 ensures Skip(u, depth) == Skip(t, depth) {
      if !first { SkipSeparator(COMMA, w, u, depth); }
      SkipQuoted(key, [COLON] + rest, w, depth);
      SkipSeparator(COLON, rest, [COLON] + rest, depth);
      SkipQuoted(value, t, rest, depth);
    }
  }

  lemma ItemsCons(fs: seq<File>, first: bool, t: Text)
    requires fs != []
    ensures Items(fs, first) + t == (if first then [] else [COMMA]) + Pair(fs[0].path, fs[0].hash) + (Items(fs[1..], false) + t)
  {
    hide Pair;
  }

  lemma SkipClose(t: Text, u: Text)
    requires u == [CLOSE] + t
    ensures Skip(u, 1) == Some(t) && NextKey(u, true) == End && NextKey(u, false) == End
  {
    assert u[1..] == t;
  }

  /** Skipping the inside of the `files` object ends right after its brace. */
  lemma {:induction false} SkipItems(fs: seq<File>, first: bool, t: Text)
    ensures Skip(Items(fs, first) + ([CLOSE] + t), 1) == Some(t)
    decreases |fs|
  {
    var u := Items(fs, first) + ([CLOSE] + t);
    if fs == [] {
      SkipClose(t, u);
    } else {
      hide Skip, Items, Pair;
      var rest := Items(fs[1..], false) + ([CLOSE] + t);
      ItemsCons(fs, first, [CLOSE] + t);
      PairParts(first, fs[0].path, fs[0].hash, rest, u);
      SkipItems(fs[1..], false, t);
    }
  }

  lemma PlainKey(name: Text)
    requires 0 !in name
    ensures U.Field(name) == name
  {
    forall k | 0 <= k < |name| ensures name[k] != 0 { assert name[k] in name; }
    U.FieldLenIs(name, |name|);
  }

  lemma KeyNames()
    ensures 0 !in FILES && 0 !in ALGORITHM && 0 !in VERSION
    ensures |FILES| == 5 && |ALGORITHM| == 14 && |VERSION| == 12
    ensures KeyIs(FILES, FILES) && KeyIs(ALGORITHM, ALGORITHM) && KeyIs(VERSION, VERSION)
  {
    PlainKey(FILES);
    PlainKey(ALGORITHM);
    PlainKey(VERSION);
  }

  /** What a walk over these files should find, whatever text they were written as. */
  ghost function Expected(fs: seq<File>, index: nat, want: Want, pathDst: Option<nat>, hashDst: Option<nat>): FilesResult {
    if fs == [] then if want.Count? then FilesResult(OK, index, [], []) else Failed(E_NOT_FOUND)
    else if !Hit(want, index, fs[0].path) then Expected(fs[1..], index + 1, want, pathDst, hashDst)
    else if want.At? && (|fs[0].path| + 1 > LINE_MAX || EmitTo(fs[0].path, pathDst).status != OK) then Failed(E_RANGE)
    else if |fs[0].hash| + 1 > VALUE_MAX || EmitTo(fs[0].hash, hashDst).status != OK then Failed(E_RANGE)
    else FilesResult(OK, 0, if want.At? then fs[0].path else [], fs[0].hash)
  }

  lemma {:induction false} EntriesOfItems(fs: seq<File>, first: bool, t: Text, index: nat, want: Want, pathDst: Option<nat>, hashDst: Option<nat>)
    ensures EntriesFrom(Items(fs, first) + ([CLOSE] + t), first, index, want, pathDst, hashDst)
      == Expected(fs, index, want, pathDst, hashDst)
    decreases |fs|
  {
    var u := Items(fs, first) + ([CLOSE] + t);
    hide Skip, Items, Pair, NextKey, ValueTo, KeyIs;
    if fs == [] {
      NoItems(first);
      assert u == [CLOSE] + t;
      SkipClose(t, u);
    } else {
      var rest := Items(fs[1..], false) + ([CLOSE] + t);
      ItemsCons(fs, first, [CLOSE] + t);
      PairParts(first, fs[0].path, fs[0].hash, rest, u);
      ValueOfQuoted(fs[0].hash, rest, hashDst);
      EntriesOfItems(fs[1..], false, t, index + 1, want, pathDst, hashDst);
    }
  }

  lemma NoItems(first: bool)
    ensures Items([], first) == []
  {
  }

  /** The parts of a written manifest: the `files` object, and what comes after it. */
  lemma ManifestParts(fs: seq<File>, version: Text) returns (body: Text, rest: Text)
    ensures AfterOpen(ManifestText(fs, version)) == Some(body)
    ensures NextKey(body, true) == Key(FILES, rest)
    ensures AfterOpen(rest) == Some(Items(fs, true) + ([CLOSE] + Trailer(version)))
    ensures Skip(rest, 0) == Some(Trailer(version))
  {
    hide Quoted, Items, Trailer;
    var inside := Items(fs, true) + ([CLOSE] + Trailer(version));
    rest := [OPEN] + inside;
    body := Quoted(FILES) + ([COLON] + rest);
    var all := ManifestText(fs, version);
    assert all == [OPEN] + body;
    assert all[1..] == body && rest[1..] == inside;
    KeyFirst(FILES, rest, body);
    SkipItems(fs, true, Trailer(version));
  }

  /** The streaming reader finds in a written manifest exactly the files it was written from. */
  lemma FilesReadBack(fs: seq<File>, version: Text, want: Want, pathDst: Option<nat>, hashDst: Option<nat>)
    ensures FilesOf(ManifestText(fs, version), want, pathDst, hashDst) == Expected(fs, 0, want, pathDst, hashDst)
  {
    KeyNames();
    hide KeyIs, NextKey, AfterOpen, Items, Trailer, ManifestText, Skip;
    var body, rest := ManifestParts(fs, version);
    EntriesOfItems(fs, true, Trailer(version), 0, want, pathDst, hashDst);
  }

  lemma {:induction false} ExpectedCount(fs: seq<File>, index: nat, pathDst: Option<nat>, hashDst: Option<nat>)
    ensures Expected(fs, index, Count, pathDst, hashDst) == FilesResult(OK, index + |fs|, [], [])
  {
    if fs != [] { ExpectedCount(fs[1..], index + 1, pathDst, hashDst); }
  }

  lemma {:induction false} ExpectedAt(fs: seq<File>, index: nat, i: nat)
    requires index <= i < index + |fs|
    requires |fs[i - index].path| < 256 && |fs[i - index].hash| < 128
    ensures Expected(fs, index, At(i), None, None) == FilesResult(OK, 0, fs[i - index].path, fs[i - index].hash)
  {
    if index < i { ExpectedAt(fs[1..], index + 1, i); }
  }

  /** Count, every entry by index, and nothing past the end. */
  lemma ManifestRoundTrip(fs: seq<File>, version: Text)
    requires forall i :: 0 <= i < |fs| ==> |fs[i].path| < 256 && |fs[i].hash| < 128
    ensures FilesOf(ManifestText(fs, version), Count, None, None) == FilesResult(OK, |fs|, [], [])
    ensures forall i :: 0 <= i < |fs| ==>
      FilesOf(ManifestText(fs, version), At(i), None, None) == FilesResult(OK, 0, fs[i].path, fs[i].hash)
  {
    hide FilesOf, ManifestText;
    FilesReadBack(fs, version, Count, None, None);
    ExpectedCount(fs, 0, None, None);
    forall i | 0 <= i < |fs|
      ensures FilesOf(ManifestText(fs, version), At(i), None, None) == FilesResult(OK, 0, fs[i].path, fs[i].hash)
    {
      FilesReadBack(fs, version, At(i), None, None);
      ExpectedAt(fs, 0, i);
    }
  }

  ghost predicate Plain(fs: seq<File>) {
    forall i :: 0 <= i < |fs| ==> 0 !in fs[i].path && |fs[i].path| < 256 && |fs[i].hash| < 128
  }

  /** One entry of a search by path. */
  lemma ExpectedStep(fs: seq<File>, index: nat, path: Text)
    requires fs != [] && Plain(fs)
    ensures Plain(fs[1..])
    ensures Expected(fs, index, ByPath(path), None, None) ==
      if fs[0].path == path then FilesResult(OK, 0, [], fs[0].hash) else Expected(fs[1..], index + 1, ByPath(path), None, None)
  {
    PlainKey(fs[0].path);
  }

  /** A path that is not listed is reported absent. */
  lemma {:induction false} AbsentByPath(fs: seq<File>, index: nat, path: Text)
    requires Plain(fs) && forall i :: 0 <= i < |fs| ==> fs[i].path != path
    ensures Expected(fs, index, ByPath(path), None, None) == Failed(E_NOT_FOUND)
  {
    if fs != [] {
      ExpectedStep(fs, index, path);
      hide Expected, Plain;
      AbsentByPath(fs[1..], index + 1, path);
    }
  }

  /** A path that is listed is found with its first hash. */
  lemma {:induction false} PresentByPath(fs: seq<File>, index: nat, i: nat)
    requires Plain(fs) && i < |fs| && forall k :: 0 <= k < i ==> fs[k].path != fs[i].path
    ensures Expected(fs, index, ByPath(fs[i].path), None, None) == FilesResult(OK, 0, [], fs[i].hash)
  {
    ExpectedStep(fs, index, fs[i].path);
    hide Expected, Plain;
    if i > 0 {
      assert fs[0].path != fs[i].path;
      PresentByPath(fs[1..], index + 1, i - 1);
    }
  }

  lemma HashByPath(fs: seq<File>, version: Text, i: nat)
    requires i < |fs| && Plain(fs) && forall k :: 0 <= k < i ==> fs[k].path != fs[i].path
    ensures FilesOf(ManifestText(fs, version), ByPath(fs[i].path), None, None) == FilesResult(OK, 0, [], fs[i].hash)
  {
    hide FilesOf, ManifestText, Expected;
    FilesReadBack(fs, version, ByPath(fs[i].path), None, None);
    PresentByPath(fs, 0, i);
  }

  /** The scalars after the nested `files` object are found behind it. */
  lemma ScalarsReadBack(fs: seq<File>, version: Text, dst: Option<nat>)
    ensures FieldOf(ManifestText(fs, version), ALGORITHM, dst) == EmitTo(SHA256, dst)
    ensures FieldOf(ManifestText(fs, version), VERSION, dst) ==
      if |version| + 1 > VALUE_MAX then Looked(E_RANGE, []) else EmitTo(version, dst)
  {
    KeyNames();
    DifferentKeys();
    var body, rest := ManifestParts(fs, version);
    hide KeyIs, NextKey, AfterOpen, Items, ManifestText, Skip, Quoted, ValueTo, Ascii;
    var last := [COMMA] + Pair(VERSION, version) + [CLOSE];
    var trailer := Trailer(version);
    TrailerParts(version, trailer, last);
    ValueOfQuoted(SHA256, last, dst);
    ValueOfQuoted(version, [CLOSE], dst);
    FindUnfold(body, true, ALGORITHM);
    FindUnfold(body, true, VERSION);
    FindUnfold(trailer, false, ALGORITHM);
    FindUnfold(trailer, false, VERSION);
    FindUnfold(last, false, VERSION);
  }

  lemma DifferentKeys()
    ensures !KeyIs(FILES, ALGORITHM) && !KeyIs(FILES, VERSION) && !KeyIs(ALGORITHM, VERSION)
  {
    KeyNames();
  }

  lemma TrailerParts(version: Text, trailer: Text, last: Text)
    requires trailer == Trailer(version) && last == [COMMA] + Pair(VERSION, version) + [CLOSE]
    ensures NextKey(trailer, false) == Key(ALGORITHM, Quoted(SHA256) + last)
    ensures Skip(Quoted(SHA256) + last, 0) == Some(last)
    ensures NextKey(last, false) == Key(VERSION, Quoted(version) + [CLOSE])
  {
    hide Pair, Quoted, NextKey, Skip;
    assert trailer == [COMMA] + Pair(ALGORITHM, SHA256) + last;
    PairParts(false, ALGORITHM, SHA256, last, trailer);
    PairParts(false, VERSION, version, [CLOSE], last);
  }

  /** One key of a search: taken, or skipped with its value. */
  lemma FindUnfold(t: Text, first: bool, key: Text)
    requires NextKey(t, first).Key?
    ensures var k := NextKey(t, first);
      (KeyIs(k.name, key) ==> FindKey(t, first, key) == k) &&
      (!KeyIs(k.name, key) && Skip(k.rest, 0).Some? ==>
        FindKey(t, first, key) == FindKey(Skip(k.rest, 0).value, false, key))
  {
    hide NextKey, Skip, KeyIs;
  }

  // ------------------------------------------------------------ the reader's code

  /** `jkey`: OK, E_NOT_FOUND at the end of the object, or E_PARSE. The name goes into the key buffer. */
  method ReadKey(j: Stream, first: bool) returns (st: Status, buf: Text, len: nat)
    requires j.Valid()
    modifies j
    ensures j.Valid()
    ensures var k := NextKey(old(j.Rest()), first);
      st == (if k.Key? then OK else if k.End? then E_NOT_FOUND else E_PARSE) &&
      (k.Key? ==> buf == Stored(k.name, LINE_MAX) && len == |k.name| && j.Rest() == k.rest)
  {
    hide ReadStr;
    buf, len := [], 0;
    var c := j.NextToken();
    if c.None? {
      return E_PARSE, buf, len;
    }
    if c.value == CLOSE {
      return E_NOT_FOUND, buf, len;
    }
    if !first {
      if c.value != COMMA {
        return E_PARSE, buf, len;
      }
      c := j.NextToken();
      if c.None? {
        return E_PARSE, buf, len;
      }
    }
    if c.value != QUOTE {
      return E_PARSE, buf, len;
    }
    var ok;
    ok, buf, len := j.ReadString(LINE_MAX);
    if !ok {
      return E_PARSE, buf, len;
    }
    c := j.NextToken();
    st := if c == Some(COLON) then OK else E_PARSE;
  }

  /** `name_len < sizeof name && mm_streq(name, key)`. */
  method SameKey(ghost name: Text, buf: Text, len: nat, key: Text) returns (same: bool)
    requires buf == Stored(name, LINE_MAX) && len == |name|
    ensures same <==> KeyIs(name, key)
  {
    if len >= LINE_MAX {
      return false;
    }
    var text := Tar.ReadField(buf);
    same := text == key;
  }

  /** `jvalue_emit`, through its 128-byte staging buffer. */
  method EmitValue(j: Stream, dst: Option<nat>) returns (r: Looked)
    requires j.Valid()
    modifies j
    ensures j.Valid() && r == ValueTo(old(j.Rest()), dst)
  {
    hide ReadStr;
    var c := j.NextToken();
    if c != Some(QUOTE) {
      return Looked(E_PARSE, []);
    }
    var ok, staged, len := j.ReadString(VALUE_MAX);
    if !ok {
      return Looked(E_PARSE, []);
    }
    if len + 1 > VALUE_MAX {
      return Looked(E_RANGE, []);
    }
    r := EmitTo(staged, dst);
  }

  /** `jopen`. */
  method OpenObject(j: Stream) returns (ok: bool)
    requires j.Valid()
    modifies j
    ensures j.Valid() && (ok <==> AfterOpen(old(j.Rest())).Some?)
    ensures ok ==> j.Rest() == AfterOpen(old(j.Rest())).value
  {
    var c := j.NextToken();
    ok := c == Some(OPEN);
  }

  /** The key loop of both walks: up to the first member called `key`. */
  method SeekKey(j: Stream, key: Text) returns (st: Status)
    requires j.Valid()
    modifies j
    ensures j.Valid()
    ensures var k := FindKey(old(j.Rest()), true, key);
      st == (if k.Key? then OK else if k.End? then E_NOT_FOUND else E_PARSE) &&
      (k.Key? ==> j.Rest() == k.rest)
  {
    hide KeyIs, NextKey, Skip;
    var first := true;
    ghost var all := j.Rest();
    while true
      invariant j.Valid() && FindKey(j.Rest(), first, key) == FindKey(all, true, key)
      decreases |j.Rest()|
    {
      ghost var k := NextKey(j.Rest(), first);
      var buf, len;
      st, buf, len := ReadKey(j, first);
      if st != OK {
        return;
      }
      first := false;
      var same := SameKey(k.name, buf, len, key);
      if same {
        return OK;
      }
      SkipShrinks(k.rest, 0);
      var ok := j.SkipValue();
      if !ok {
        return E_PARSE;
      }
    }
  }

  /** `mcdf_micro_manifest_field`. */
  method LookupField(member: Text, key: Text, dst: Option<nat>) returns (r: Looked)
    ensures r == FieldOf(member, key, dst)
  {
    hide FindKey, ValueTo;
    var j := new Stream(member);
    var ok := OpenObject(j);
    if !ok {
      return Looked(E_PARSE, []);
    }
    var st := SeekKey(j, key);
    if st != OK {
      return Looked(st, []);
    }
    r := EmitValue(j, dst);
  }

  /** `mm_files_walk`. */
  method WalkFiles(member: Text, want: Want, pathDst: Option<nat>, hashDst: Option<nat>) returns (r: FilesResult)
    ensures r == FilesOf(member, want, pathDst, hashDst)
  {
    hide FindKey, EntriesFrom;
    var j := new Stream(member);
    var ok := OpenObject(j);
    if !ok {
      return Failed(E_PARSE);
    }
    var st := SeekKey(j, FILES);
    if st != OK {
      return Failed(st);
    }
    ok := OpenObject(j);
    if !ok {
      return Failed(E_PARSE);
    }
    r := WalkEntries(j, want, pathDst, hashDst);
  }

  method WalkEntries(j: Stream, want: Want, pathDst: Option<nat>, hashDst: Option<nat>) returns (r: FilesResult)
    requires j.Valid()
    modifies j
    ensures r == EntriesFrom(old(j.Rest()), true, 0, want, pathDst, hashDst)
  {
    hide KeyIs, NextKey, Skip, ValueTo;
    var first, index := true, 0;
    ghost var all := j.Rest();
    while true
      invariant j.Valid()
      invariant EntriesFrom(j.Rest(), first, index, want, pathDst, hashDst) == EntriesFrom(all, true, 0, want, pathDst, hashDst)
      decreases |j.Rest()|
    {
      ghost var k := NextKey(j.Rest(), first);
      var st, buf, len := ReadKey(j, first);
      if st == E_NOT_FOUND {
        return if want.Count? then FilesResult(OK, index, [], []) else Failed(E_NOT_FOUND);
      }
      if st != OK {
        return Failed(st);
      }
      first := false;
      var hit := want.At? && index == want.index;
      if want.ByPath? {
        hit := SameKey(k.name, buf, len, want.path);
      }
      if hit {
        if want.At? {
          if len + 1 > LINE_MAX {
            return Failed(E_RANGE);
          }
          var e := EmitTo(buf, pathDst);
          if e.status != OK {
            return Failed(e.status);
          }
        }
        var v := EmitValue(j, hashDst);
        return if v.status != OK then Failed(v.status) else FilesResult(OK, 0, if want.At? then buf else [], v.value);
      }
      index := index + 1;
      SkipShrinks(k.rest, 0);
      var ok := j.SkipValue();
      if !ok {
        return Failed(E_PARSE);
      }
    }
  }
}
