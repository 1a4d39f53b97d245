/** The integrity profile of the C reader: member digests through a small window, and the manifest check (micro/src/verify.c). */
module Verify {
  import opened Bytes
  import opened Json
  import opened Layout
  import opened Index
  import opened Ustar
  import opened Sha256
  import Tar
  import U = UstarFormat
  import M = Manifest
  import J = Jcs

  const WINDOW_SIZE: nat := 128
  const HEX_SIZE: nat := 65

  // ------------------------------------------------------------ digests of members

  function HexOf(digest: seq<byte>): (t: Text)
    ensures |t| == 2 * |digest| && forall i :: 0 <= i < |t| ==> t[i] >= 0x30
  {
    if digest == [] then [] else [HexDigit(digest[0] / 16), HexDigit(digest[0] % 16)] + HexOf(digest[1..])
  }

  ghost function HashOf(f: Compress, data: Text): Text {
    HexOf(Digest(f, data))
  }

  lemma {:induction false} WordBytesLength(ws: seq<word>)
    ensures |WordBytes(ws)| == 4 * |ws|
  {
    hide BigEndian;
    if ws != [] { WordBytesLength(ws[1..]); }
  }

  lemma HashIsText(f: Compress, data: Text)
    ensures |HashOf(f, data)| == 64 && 0 !in HashOf(f, data)
  {
    hide Padded, Absorb;
    WordBytesLength(Absorb(f, IV, Padded(data)));
  }

  ghost function Flatten(chunks: seq<seq<byte>>): seq<byte> {
    if chunks == [] then [] else chunks[0] + Flatten(chunks[1..])
  }

  lemma FlattenFrom(front: seq<byte>, chunks: seq<seq<byte>>, i: nat)
    requires i < |chunks|
    ensures front + Flatten(chunks[i..]) == (front + chunks[i]) + Flatten(chunks[i + 1..])
  {
    assert chunks[i..][1..] == chunks[i + 1..];
    assert front + (chunks[i] + Flatten(chunks[i + 1..])) == (front + chunks[i]) + Flatten(chunks[i + 1..]);
  }

  /** However a message is split into updates, the digest is that of the whole message. */
  method HashChunks(f: Compress, chunks: seq<seq<byte>>) returns (digest: seq<byte>)
    ensures digest == Digest(f, Flatten(chunks))
  {
    hide Digest;
    var sha := new Context(f);
    assert chunks[0..] == chunks && [] + Flatten(chunks) == Flatten(chunks);
    for i := 0 to |chunks|
      invariant sha.Valid() && sha.compress == f && sha.message + Flatten(chunks[i..]) == Flatten(chunks)
    {
      FlattenFrom(sha.message, chunks, i);
      sha.Update(chunks[i]);
    }
    assert sha.message + [] == sha.message;
    digest := sha.Final();
  }

  lemma {:induction false} HexSnoc(digest: seq<byte>, b: byte)
    ensures HexOf(digest + [b]) == HexOf(digest) + [HexDigit(b / 16), HexDigit(b % 16)]
  {
    hide HexDigit;
    if digest == [] {
      assert digest + [b] == [b] && [b][1..] == [];
    } else {
      assert (digest + [b])[1..] == digest[1..] + [b];
      HexSnoc(digest[1..], b);
    }
  }

  method ToHex(digest: seq<byte>) returns (t: Text)
    ensures t == HexOf(digest)
  {
    t := [];
    assert digest[..0] == [];
    for i := 0 to |digest|
      invariant t == HexOf(digest[..i])
    {
      assert digest[..i + 1] == digest[..i] + [digest[i]];
      HexSnoc(digest[..i], digest[i]);
      t := t + [HexDigit(digest[i] / 16), HexDigit(digest[i] % 16)];
    }
    assert digest[..|digest|] == digest;
  }

  /** The size of a member, as `mcdf_micro_member` reports it. */
  method SizeOf(r: Reader, path: Text) returns (size: Option<nat>)
    requires r.Valid() && 0 !in path
    ensures size == match MemberOf(r, path) case None => None case Some(d) => Some(|d|)
  {
    var found := r.Find(path);
    if found.None? {
      return None;
    }
    var at, n, name := r.LoadEntry(found.value);
    size := Some(n);
  }

  method ReadMember(r: Reader, path: Text, off: nat, len: nat) returns (data: Text)
    requires r.Valid() && 0 !in path && MemberOf(r, path).Some? && off + len <= |MemberOf(r, path).value|
    ensures data == MemberOf(r, path).value[off..off + len]
  {
    var st;
    st, data := r.ReadAt(path, off, len);
  }

  lemma NextWindow(d: seq<byte>, off: nat, want: nat)
    requires off + want <= |d|
    ensures d[..off] + d[off..off + want] == d[..off + want]
  {
  }

  /** The window loop of `mcdf_micro_hash_member`. */
  method HashWindows(r: Reader, f: Compress, path: Text, size: nat) returns (digest: seq<byte>)
    requires r.Valid() && 0 !in path && MemberOf(r, path).Some? && size == |MemberOf(r, path).value|
    ensures digest == Digest(f, MemberOf(r, path).value)
  {
    hide Digest, MemberOf, Reader.Valid;
    ghost var d := MemberOf(r, path).value;
    var sha := new Context(f);
    var off := 0;
    while off < size
      invariant r.Valid() && MemberOf(r, path) == Some(d)
      invariant off <= size && sha.Valid() && sha.compress == f && sha.message == d[..off]
      decreases size - off
    {
      var remain := size - off;
      var want := if remain < WINDOW_SIZE then remain else WINDOW_SIZE;
      var window := ReadMember(r, path, off, want);
      sha.Update(window);
      NextWindow(d, off, want);
      off := off + want;
    }
    assert d[..size] == d;
    digest := sha.Final();
  }

  /** `mcdf_micro_hash_member`. */
  method HashMember(r: Reader, f: Compress, path: Text, dst: nat) returns (st: Status, hash: Text)
    requires r.Valid() && 0 !in path
    ensures st == if dst < HEX_SIZE then E_RANGE else if MemberOf(r, path).None? then E_NOT_FOUND else OK
    ensures st == OK ==> hash == HashOf(f, MemberOf(r, path).value)
  {
    hide Digest, MemberOf, Reader.Valid;
    if dst < HEX_SIZE {
      return E_RANGE, [];
    }
    var size := SizeOf(r, path);
    if size.None? {
      return E_NOT_FOUND, [];
    }
    var digest := HashWindows(r, f, path, size.value);
    hash := ToHex(digest);
    st := OK;
  }

  // ------------------------------------------------------------ the manifest check

  datatype Kind = MissingManifest | AlgorithmNotAllowed | MissingFile | HashMismatch | ExtraFile

  datatype Issue = Issue(kind: Kind, detail: Text)

  datatype Verdict = Verdict(status: Status, issues: seq<Issue>)

  /** The bytes of the first member with a path. */
  ghost function DataOf(ms: seq<U.Member>, path: Text): Option<Text> {
    if ms == [] then None else if ms[0].path == path then Some(ms[0].data) else DataOf(ms[1..], path)
  }

  ghost function EntryIssues(ms: seq<U.Member>, path: Text, hash: Text, f: Compress): seq<Issue> {
    var p := U.Field(path);
    var d := DataOf(ms, p);
    if d.None? then [Issue(MissingFile, p)]
    else if HashOf(f, d.value) != U.Field(hash) then [Issue(HashMismatch, p)]
    else []
  }

  /** Every file the manifest lists, from the `i`-th on. */
  ghost function ListedFrom(ms: seq<U.Member>, text: Text, i: nat, n: nat, f: Compress): Verdict
    decreases n - i
  {
    if i >= n then Verdict(OK, [])
    else
      var r := M.FilesOf(text, M.At(i), Some(M.LINE_MAX), Some(M.VALUE_MAX));
      if r.status != OK then Verdict(r.status, [])
      else
        var rest := ListedFrom(ms, text, i + 1, n, f);
        Verdict(rest.status, EntryIssues(ms, r.path, r.hash, f) + rest.issues)
  }

  /** Every member the manifest must list, from the `i`-th on. */
  ghost function ExtraFrom(ms: seq<U.Member>, text: Text, i: nat): Verdict
    decreases |ms| - i
  {
    if i >= |ms| then Verdict(OK, [])
    else if J.Excluded(ms[i].path) then ExtraFrom(ms, text, i + 1)
    else
      var r := M.FilesOf(text, M.ByPath(ms[i].path), None, None);
      var rest := ExtraFrom(ms, text, i + 1);
      if r.status == E_NOT_FOUND then Verdict(rest.status, [Issue(ExtraFile, ms[i].path)] + rest.issues)
      else if r.status != OK then Verdict(r.status, [])
      else rest
  }

  ghost function Both(a: Verdict, b: Verdict): Verdict {
    if a.status != OK then a else Verdict(b.status, a.issues + b.issues)
  }

  /** `mcdf_micro_verify_manifest`. */
  ghost function VerifyOf(ms: seq<U.Member>, f: Compress): Verdict {
    var text := DataOf(ms, MANIFEST);
    if text.None? then Verdict(OK, [Issue(MissingManifest, MANIFEST)])
    else
      var algorithm := M.FieldOf(text.value, M.ALGORITHM, Some(M.VALUE_MAX));
      if algorithm.status != OK || U.Field(algorithm.value) != M.SHA256 then Verdict(OK, [Issue(AlgorithmNotAllowed, [])])
      else
        var count := M.FilesOf(text.value, M.Count, None, None);
        if count.status != OK then Verdict(count.status, [])
        else Both(ListedFrom(ms, text.value, 0, count.count, f), ExtraFrom(ms, text.value, 0))
  }

  // ------------------------------------------------------------ what a written manifest is checked for

  /** Files a manifest can hold without loss. */
  ghost predicate Recordable(fs: seq<M.File>) {
    && (forall i :: 0 <= i < |fs| ==> |fs[i].path| < 256 && |fs[i].hash| < 128)
    && (forall i :: 0 <= i < |fs| ==> 0 !in fs[i].path && 0 !in fs[i].hash)
  }

  ghost function FileIssues(ms: seq<U.Member>, fs: seq<M.File>, i: nat, f: Compress): seq<Issue>
    requires i <= |fs|
    decreases |fs| - i
  {
    if i == |fs| then [] else EntryIssues(ms, fs[i].path, fs[i].hash, f) + FileIssues(ms, fs, i + 1, f)
  }

  ghost predicate Listed(fs: seq<M.File>, path: Text) {
    exists i :: 0 <= i < |fs| && fs[i].path == path
  }

  ghost function UnlistedIssues(ms: seq<U.Member>, fs: seq<M.File>, i: nat): seq<Issue>
    requires i <= |ms|
    decreases |ms| - i
  {
    if i == |ms| then []
    else
      (if J.Excluded(ms[i].path) || Listed(fs, ms[i].path) then [] else [Issue(ExtraFile, ms[i].path)])
      + UnlistedIssues(ms, fs, i + 1)
  }

  lemma {:induction false} FirstListed(fs: seq<M.File>, path: Text) returns (k: nat)
    requires Listed(fs, path)
    ensures k < |fs| && fs[k].path == path && forall j :: 0 <= j < k ==> fs[j].path != path
  {
    if fs[0].path == path {
      k := 0;
    } else {
      var i :| 0 <= i < |fs| && fs[i].path == path;
      assert fs[1..][i - 1].path == path;
      var j := FirstListed(fs[1..], path);
      k := j + 1;
      forall x | 0 <= x < k ensures fs[x].path != path { if x > 0 { assert fs[x] == fs[1..][x - 1]; } }
    }
  }

  /** Looking a path up in a written manifest: found exactly when it is listed. */
  lemma LookupWritten(fs: seq<M.File>, version: Text, path: Text)
    requires Recordable(fs)
    ensures M.FilesOf(M.ManifestText(fs, version), M.ByPath(path), None, None).status == if Listed(fs, path) then OK else E_NOT_FOUND
  {
    hide M.FilesOf, M.ManifestText, M.Expected;
    M.FilesReadBack(fs, version, M.ByPath(path), None, None);
    if Listed(fs, path) {
      var k := FirstListed(fs, path);
      M.HashByPath(fs, version, k);
    } else {
      M.AbsentByPath(fs, 0, path);
    }
  }

  /** An entry of a written manifest by index, into the buffers the check uses. */
  lemma EntryWritten(fs: seq<M.File>, version: Text, i: nat)
    requires Recordable(fs) && i < |fs|
    ensures M.FilesOf(M.ManifestText(fs, version), M.At(i), Some(M.LINE_MAX), Some(M.VALUE_MAX))
      == M.FilesResult(OK, 0, fs[i].path, fs[i].hash)
  {
    hide M.FilesOf, M.ManifestText;
    M.FilesReadBack(fs, version, M.At(i), Some(M.LINE_MAX), Some(M.VALUE_MAX));
    ExpectedInto(fs, 0, i);
  }

  lemma {:induction false} ExpectedInto(fs: seq<M.File>, index: nat, i: nat)
    requires index <= i < index + |fs| && Recordable(fs)
    ensures M.Expected(fs, index, M.At(i), Some(M.LINE_MAX), Some(M.VALUE_MAX))
      == M.FilesResult(OK, 0, fs[i - index].path, fs[i - index].hash)
  {
    if index < i {
      assert Recordable(fs[1..]);
      ExpectedInto(fs[1..], index + 1, i);
    }
  }

  lemma {:induction false} ListedIsFileIssues(ms: seq<U.Member>, fs: seq<M.File>, version: Text, i: nat, f: Compress)
    requires Recordable(fs) && i <= |fs|
    ensures ListedFrom(ms, M.ManifestText(fs, version), i, |fs|, f) == Verdict(OK, FileIssues(ms, fs, i, f))
    decreases |fs| - i
  {
    hide M.FilesOf, M.ManifestText, EntryIssues, Recordable;
    if i < |fs| {
      EntryWritten(fs, version, i);
      ListedIsFileIssues(ms, fs, version, i + 1, f);
    }
  }

  lemma {:induction false} ExtraIsUnlisted(ms: seq<U.Member>, fs: seq<M.File>, version: Text, i: nat)
    requires Recordable(fs) && i <= |ms|
    ensures ExtraFrom(ms, M.ManifestText(fs, version), i) == Verdict(OK, UnlistedIssues(ms, fs, i))
    decreases |ms| - i
  {
    hide M.FilesOf, M.ManifestText, Listed, J.Excluded, Recordable;
    if i < |ms| {
      ExtraIsUnlisted(ms, fs, version, i + 1);
      var rest := UnlistedIssues(ms, fs, i + 1);
      assert [] + rest == rest;
      if !J.Excluded(ms[i].path) { LookupWritten(fs, version, ms[i].path); }
    }
  }

  /** Over a written manifest the check reports exactly its two lists of issues. */
  lemma VerdictOnWritten(ms: seq<U.Member>, fs: seq<M.File>, version: Text, f: Compress)
    requires Recordable(fs) && DataOf(ms, MANIFEST) == Some(M.ManifestText(fs, version))
    ensures VerifyOf(ms, f) == Verdict(OK, FileIssues(ms, fs, 0, f) + UnlistedIssues(ms, fs, 0))
  {
    hide M.FilesOf, M.FieldOf, M.ManifestText, FileIssues, UnlistedIssues, ListedFrom, ExtraFrom, M.Ascii, Recordable;
    var text := M.ManifestText(fs, version);
    ScalarsOfWritten(fs, version);
    CountOfWritten(fs, version);
    ListedIsFileIssues(ms, fs, version, 0, f);
    ExtraIsUnlisted(ms, fs, version, 0);
  }

  lemma ScalarsOfWritten(fs: seq<M.File>, version: Text)
    ensures M.FieldOf(M.ManifestText(fs, version), M.ALGORITHM, Some(M.VALUE_MAX)) == M.Looked(OK, M.SHA256)
    ensures U.Field(M.SHA256) == M.SHA256
  {
    M.PlainKey(M.SHA256);
    hide M.FieldOf, M.ManifestText;
    M.ScalarsReadBack(fs, version, Some(M.VALUE_MAX));
  }

  lemma CountOfWritten(fs: seq<M.File>, version: Text)
    ensures M.FilesOf(M.ManifestText(fs, version), M.Count, None, None) == M.FilesResult(OK, |fs|, [], [])
  {
    hide M.FilesOf, M.ManifestText;
    M.FilesReadBack(fs, version, M.Count, None, None);
    M.ExpectedCount(fs, 0, None, None);
  }

  /** The file is there, with the recorded digest. */
  ghost predicate Matches(ms: seq<U.Member>, x: M.File, f: Compress) {
    DataOf(ms, x.path).Some? && HashOf(f, DataOf(ms, x.path).value) == x.hash
  }

  lemma {:induction false} NoFileIssues(ms: seq<U.Member>, fs: seq<M.File>, i: nat, f: Compress)
    requires Recordable(fs) && i <= |fs|
    ensures FileIssues(ms, fs, i, f) == [] <==> forall k :: i <= k < |fs| ==> Matches(ms, fs[k], f)
    decreases |fs| - i
  {
    hide HashOf, DataOf;
    if i < |fs| {
      M.PlainKey(fs[i].path);
      M.PlainKey(fs[i].hash);
      NoFileIssues(ms, fs, i + 1, f);
      assert EntryIssues(ms, fs[i].path, fs[i].hash, f) == [] <==> Matches(ms, fs[i], f);
    }
  }

  lemma {:induction false} NoUnlisted(ms: seq<U.Member>, fs: seq<M.File>, i: nat)
    requires i <= |ms|
    ensures UnlistedIssues(ms, fs, i) == [] <==> forall k :: i <= k < |ms| && !J.Excluded(ms[k].path) ==> Listed(fs, ms[k].path)
    decreases |ms| - i
  {
    hide J.Excluded, Listed;
    if i < |ms| { NoUnlisted(ms, fs, i + 1); }
  }

  /**
   * Against a written manifest the check finds nothing exactly when every listed file is present
   * with its digest and every covered member is listed.
   */
  lemma CleanMeansIntact(ms: seq<U.Member>, fs: seq<M.File>, version: Text, f: Compress)
    requires Recordable(fs) && DataOf(ms, MANIFEST) == Some(M.ManifestText(fs, version))
    ensures VerifyOf(ms, f).status == OK
    ensures VerifyOf(ms, f).issues == [] <==>
      (forall k :: 0 <= k < |fs| ==> Matches(ms, fs[k], f)) &&
      (forall k :: 0 <= k < |ms| && !J.Excluded(ms[k].path) ==> Listed(fs, ms[k].path))
  {
    hide VerifyOf, FileIssues, UnlistedIssues, Matches, Listed, J.Excluded, M.ManifestText, DataOf, M.Ascii, Recordable;
    VerdictOnWritten(ms, fs, version, f);
    NoFileIssues(ms, fs, 0, f);
    NoUnlisted(ms, fs, 0);
    var a, b := FileIssues(ms, fs, 0, f), UnlistedIssues(ms, fs, 0);
    assert a + b == [] <==> a == [] && b == [];
  }

  /** Two contents under one path with one digest. */
  ghost predicate Collides(f: Compress, a: Text, b: Text) {
    a != b && HashOf(f, a) == HashOf(f, b)
  }

  /** Two containers that pass the same manifest hold the same covered bytes, or a collision is at hand. */
  lemma SameManifestSameBytes(ms: seq<U.Member>, ns: seq<U.Member>, fs: seq<M.File>, version: Text, f: Compress, path: Text)
    requires Recordable(fs)
    requires DataOf(ms, MANIFEST) == DataOf(ns, MANIFEST) == Some(M.ManifestText(fs, version))
    requires VerifyOf(ms, f).issues == [] && VerifyOf(ns, f).issues == []
    requires DataOf(ms, path).Some? && !J.Excluded(path)
    ensures DataOf(ns, path).Some?
    ensures DataOf(ms, path) == DataOf(ns, path) || Collides(f, DataOf(ms, path).value, DataOf(ns, path).value)
  {
    hide VerifyOf, HashOf, J.Excluded, M.ManifestText, DataOf, M.Ascii, Recordable;
    CleanMeansIntact(ms, fs, version, f);
    CleanMeansIntact(ns, fs, version, f);
    var k := PlaceOf(ms, path);
    var i :| 0 <= i < |fs| && fs[i].path == path;
    assert Matches(ms, fs[i], f) && Matches(ns, fs[i], f);
  }

  lemma {:induction false} PlaceOf(ms: seq<U.Member>, path: Text) returns (k: nat)
    requires DataOf(ms, path).Some?
    ensures k < |ms| && ms[k].path == path
  {
    if ms[0].path == path {
      k := 0;
    } else {
      var j := PlaceOf(ms[1..], path);
      k := j + 1;
    }
  }

  // ------------------------------------------------------------ a fresh manifest

  lemma {:induction false} BytesAreData(ms: seq<U.Member>, path: Text)
    ensures DataOf(ms, path).Some? ==> J.BytesOf(ms, path) == DataOf(ms, path).value
  {
    if ms != [] { BytesAreData(ms[1..], path); }
  }

  lemma {:induction false} MemberHasData(ms: seq<U.Member>, i: nat)
    requires i < |ms|
    ensures DataOf(ms, ms[i].path).Some?
  {
    if i > 0 { MemberHasData(ms[1..], i - 1); }
  }

  lemma {:induction false} CoveredHas(ms: seq<U.Member>, from: nat, k: nat)
    requires from <= k < |ms| && !J.Excluded(ms[k].path)
    ensures k in J.Covered(ms, from)
    decreases k - from
  {
    hide J.Excluded;
    if from < k { CoveredHas(ms, from + 1, k); }
  }

  /** Paths a manifest entry can hold. */
  ghost predicate Ordinary(ms: seq<U.Member>) {
    forall i :: 0 <= i < |ms| ==> |ms[i].path| < 256 && 0 !in ms[i].path
  }

  /** The check finds nothing to report about a manifest the emitter has just written. */
  lemma FreshManifestIsClean(ms: seq<U.Member>, order: seq<nat>, version: Text, f: Compress)
    requires Ordinary(ms) && J.Indices(order, J.PathsOfMembers(ms))
    requires multiset(order) == multiset(J.Covered(ms, 0))
    requires DataOf(ms, MANIFEST) == Some(M.ManifestText(J.Entries(order, ms, (x: Text) => HashOf(f, x)), version))
    ensures VerifyOf(ms, f) == Verdict(OK, [])
  {
    hide VerifyOf, HashOf, J.Excluded, M.ManifestText, DataOf, M.Ascii, J.Covered, J.BytesOf;
    var h := (x: Text) => HashOf(f, x);
    var fs := J.Entries(order, ms, h);
    forall i | 0 <= i < |fs|
      ensures |fs[i].path| < M.LINE_MAX && 0 !in fs[i].path && |fs[i].hash| == 64 && 0 !in fs[i].hash && Matches(ms, fs[i], f)
    {
      var k := order[i];
      HashIsText(f, J.BytesOf(ms, ms[k].path));
      BytesAreData(ms, ms[k].path);
      MemberHasData(ms, k);
    }
    assert Recordable(fs);
    forall k | 0 <= k < |ms| && !J.Excluded(ms[k].path) ensures Listed(fs, ms[k].path) {
      CoveredHas(ms, 0, k);
      assert k in multiset(order);
      var i :| 0 <= i < |order| && order[i] == k;
      assert fs[i].path == ms[k].path;
    }
    CleanMeansIntact(ms, fs, version, f);
  }

  // ------------------------------------------------------------ the code

  lemma {:induction false} FirstIsData(src: seq<byte>, index: seq<Indexed>, path: Text, i: nat)
    requires InSource(src, index) && i <= |index|
    ensures DataOf(Contents(src, index)[i..], path) ==
      match FirstWith(index, path, i) case None => None case Some(k) => Some(Contents(src, index)[k].data)
    decreases |index| - i
  {
    if i < |index| {
      assert Contents(src, index)[i..][1..] == Contents(src, index)[i + 1..];
      FirstIsData(src, index, path, i + 1);
    }
  }

  /** The members a reader stands for. */
  ghost function Members(r: Reader): seq<U.Member>
    requires r.Valid()
    reads r, r.arena
  {
    Contents(r.src, r.index)
  }

  lemma MemberIsData(r: Reader, path: Text)
    requires r.Valid()
    ensures MemberOf(r, path) == DataOf(Members(r), path)
  {
    FirstIsData(r.src, r.index, path, 0);
    assert Members(r)[0..] == Members(r);
  }

  /** The name of entry `i`, up to its NUL in the arena. */
  method PathAt(r: Reader, i: nat) returns (path: Text)
    requires r.Valid() && i < |Members(r)|
    ensures path == Members(r)[i].path && 0 !in path
  {
    var off, size, name := r.LoadEntry(i);
    ghost var want := r.index[i].path;
    assert r.Mem()[name..name + |want|] == want && r.Mem()[name + |want|] == 0 by { NameHeld(r, i); }
    path := CopyName(r, name, want);
  }

  lemma NameHeld(r: Reader, i: nat)
    requires r.Valid() && i < |r.index|
    ensures var x := r.index[i]; var name := r.names[i];
      name + |x.path| + 1 <= r.arena.Length - r.base && r.Mem()[name..name + |x.path|] == x.path && r.Mem()[name + |x.path|] == 0
  {
    assert Holds(r.Mem(), r.table + ENTRY_SIZE * i, r.index[i], r.names[i]);
  }

  method CopyName(r: Reader, name: nat, ghost want: Text) returns (path: Text)
    requires r.Valid() && name + |want| + 1 <= r.arena.Length - r.base && 0 !in want
    requires r.Mem()[name..name + |want|] == want && r.Mem()[name + |want|] == 0
    ensures path == want
  {
    path := [];
    assert forall k :: 0 <= k < |want| ==> r.arena[r.base + name + k] == want[k];
    assert forall k :: 0 <= k < |want| ==> want[k] in want;
    assert r.arena[r.base + name + |want|] == 0;
    while r.arena[r.base + name + |path|] != 0
      invariant |path| <= |want| && path == want[..|path|]
      decreases |want| - |path|
    {
      path := path + [r.arena[r.base + name + |path|]];
    }
  }

  /** All bytes of a member, as the manifest reader streams them. */
  method WholeText(r: Reader, path: Text) returns (text: Option<Text>)
    requires r.Valid() && 0 !in path
    ensures text == DataOf(Members(r), path)
  {
    hide DataOf, Reader.Valid, MemberOf, Members;
    MemberIsData(r, path);
    var size := SizeOf(r, path);
    if size.None? {
      return None;
    }
    var data := ReadMember(r, path, 0, size.value);
    ghost var d := MemberOf(r, path).value;
    assert d[0..|d|] == d;
    text := Some(data);
  }

  method HashNamed(r: Reader, f: Compress, path: Text) returns (hash: Option<Text>)
    requires r.Valid() && 0 !in path
    ensures hash == match DataOf(Members(r), path) case None => None case Some(d) => Some(HashOf(f, d))
  {
    hide HashOf, Reader.Valid;
    MemberIsData(r, path);
    var st, h := HashMember(r, f, path, HEX_SIZE);
    hash := if st == OK then Some(h) else None;
  }

  method CheckEntry(r: Reader, f: Compress, path: Text, recorded: Text) returns (issues: seq<Issue>)
    requires r.Valid()
    ensures issues == EntryIssues(Members(r), path, recorded, f)
  {
    hide HashOf, Reader.Valid, DataOf, Members;
    var p := Tar.ReadField(path);
    FieldIsText(path);
    var actual := HashNamed(r, f, p);
    if actual.None? {
      return [Issue(MissingFile, p)];
    }
    var hash := Tar.ReadField(recorded);
    issues := if actual.value != hash then [Issue(HashMismatch, p)] else [];
  }

  lemma FieldIsText(path: Text)
    ensures 0 !in U.Field(path)
  {
  }

  /** The first loop of `mcdf_micro_verify_manifest`. */
  method CheckListed(r: Reader, f: Compress, text: Text, n: nat) returns (v: Verdict)
    requires r.Valid()
    ensures v == ListedFrom(Members(r), text, 0, n, f)
  {
    hide M.FilesOf, EntryIssues, Reader.Valid, Members;
    var issues: seq<Issue> := [];
    ghost var ms := Members(r);
    assert Ahead(issues, ListedFrom(ms, text, 0, n, f)) == ListedFrom(ms, text, 0, n, f);
    for i := 0 to n
      invariant Ahead(issues, ListedFrom(ms, text, i, n, f)) == ListedFrom(ms, text, 0, n, f)
    {
      var x := M.WalkFiles(text, M.At(i), Some(M.LINE_MAX), Some(M.VALUE_MAX));
      if x.status != OK {
        assert issues + [] == issues;
        return Verdict(x.status, issues);
      }
      var here := CheckEntry(r, f, x.path, x.hash);
      ghost var rest := ListedFrom(ms, text, i + 1, n, f);
      assert issues + (here + rest.issues) == (issues + here) + rest.issues;
      issues := issues + here;
    }
    assert issues + [] == issues;
    v := Verdict(OK, issues);
  }

  /** Issues already reported, in front of what is still to come. */
  ghost function Ahead(issues: seq<Issue>, v: Verdict): Verdict {
    Verdict(v.status, issues + v.issues)
  }

  /** The second loop. */
  method CheckExtra(r: Reader, text: Text) returns (v: Verdict)
    requires r.Valid()
    ensures v == ExtraFrom(Members(r), text, 0)
  {
    hide M.FilesOf, Reader.Valid, J.Excluded;
    var issues: seq<Issue> := [];
    ghost var ms := Members(r);
    var count := r.Count();
    assert |ms| == count;
    assert Ahead(issues, ExtraFrom(ms, text, 0)) == ExtraFrom(ms, text, 0);
    for i := 0 to count
      invariant Ahead(issues, ExtraFrom(ms, text, i)) == ExtraFrom(ms, text, 0)
    {
      var path := PathAt(r, i);
      var excluded := J.IsExcluded(path);
      if excluded {
        continue;
      }
      var x := M.WalkFiles(text, M.ByPath(path), None, None);
      ghost var rest := ExtraFrom(ms, text, i + 1);
      if x.status == E_NOT_FOUND {
        assert issues + ([Issue(ExtraFile, path)] + rest.issues) == (issues + [Issue(ExtraFile, path)]) + rest.issues;
        issues := issues + [Issue(ExtraFile, path)];
      } else if x.status != OK {
        assert issues + [] == issues;
        return Verdict(x.status, issues);
      }
    }
    assert issues + [] == issues;
    v := Verdict(OK, issues);
  }

  /** `mcdf_micro_verify_manifest`. */
  method VerifyManifest(r: Reader, f: Compress) returns (v: Verdict)
    requires r.Valid()
    ensures v == VerifyOf(Members(r), f)
  {
    hide M.FilesOf, M.FieldOf, ListedFrom, ExtraFrom, Reader.Valid, Members, DataOf, M.Ascii;
    ManifestName();
    var text := WholeText(r, MANIFEST);
    if text.None? {
      return Verdict(OK, [Issue(MissingManifest, MANIFEST)]);
    }
    var algorithm := M.LookupField(text.value, M.ALGORITHM, Some(M.VALUE_MAX));
    var name := Tar.ReadField(algorithm.value);
    if algorithm.status != OK || name != M.SHA256 {
      return Verdict(OK, [Issue(AlgorithmNotAllowed, [])]);
    }
    var count := M.WalkFiles(text.value, M.Count, None, None);
    if count.status != OK {
      return Verdict(count.status, []);
    }
    var listed := CheckListed(r, f, text.value, count.count);
    if listed.status != OK {
      return listed;
    }
    var extra := CheckExtra(r, text.value);
    v := Verdict(extra.status, listed.issues + extra.issues);
  }

  lemma ManifestName()
    ensures 0 !in MANIFEST
  {
  }
}
