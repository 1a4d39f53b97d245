/**
 * Sealing members of a directory container in place and opening them again
 * (src/core/encrypt_ops.cpp), against the structural verdict of src/core/validate.cpp. Ciphers, key
 * wrapping, the digest of a manifest and the parsers of foreign formats are parameters.
 */
module Seal {
  import opened Bytes
  import opened Json
  import opened Layout
  import opened Container
  import Base64Url
  import Jcs
  import M = Manifest
  import P = Policy
  import Y = Yaml

  const CIPHER := M.Ascii("aes-256-gcm")
  const MANAGEMENT := M.Ascii("hpke")

  type Files = map<Text, Text>

  datatype Heading = Heading(id: Text, topLevel: bool)
  datatype Section = Section(id: Text, required: bool)

  /** What the operations call and do not define. */
  datatype Tools = Tools(
    seal: (Text, Text, Text, Text) -> Option<Text>,     // key, associated data, nonce, plaintext
    open: (Text, Text, Text) -> Option<Text>,           // key, associated data, ciphertext
    nonce: nat -> Text,                                 // the random bytes drawn by the i-th seal
    wrap: (Text, Text) -> Option<(Text, Text)>,         // public key, payload
    unwrap: (Text, Text, Text) -> Option<Text>,         // private key, encapsulation, ciphertext
    did: Text -> Option<Text>,                          // name of a public key
    ownDid: Text -> Option<Text>,                       // name of a private key's public key
    headings: Text -> Option<seq<Heading>>,
    schema: Text -> Option<seq<Section>>,
    readPolicy: Text -> Option<P.Policy>,
    manifest: Files -> Text                             // canonical manifest of these members
  )

  /** An opened ciphertext is what was sealed, under the same key and path. */
  ghost predicate Opens(t: Tools) {
    forall key, path, n, text {:trigger t.seal(key, path, n, text)} ::
      t.seal(key, path, n, text).Some? ==> t.open(key, path, t.seal(key, path, n, text).value) == Some(text)
  }

  /** Whatever was wrapped for a key of that name, this private key unwraps. */
  ghost predicate Unwraps(t: Tools, secret: Text) {
    forall key, payload {:trigger t.wrap(key, payload)} ::
      t.did(key) == t.ownDid(secret) && t.wrap(key, payload).Some? ==>
        t.unwrap(secret, t.wrap(key, payload).value.0, t.wrap(key, payload).value.1) == Some(payload)
  }

  datatype Outcome = Done | NothingToDo | AlreadySealed | NotFound | NotARecipient | Rejected | Mismatch

  datatype World = World(outcome: Outcome, files: Files)

  // ------------------------------------------------------------ members of the manifest

  /** The members a manifest covers. */
  function Covered(files: Files): Files {
    map p | p in files && !Jcs.Excluded(p) :: files[p]
  }

  ghost predicate ManifestIsFresh(t: Tools, files: Files) {
    MANIFEST in files && files[MANIFEST] == t.manifest(Covered(files))
  }

  /** `rebuild_manifest`. */
  ghost function Rebuilt(t: Tools, files: Files): Files {
    files[MANIFEST := t.manifest(Covered(files))]
  }

  lemma RebuiltIsFresh(t: Tools, files: Files)
    ensures ManifestIsFresh(t, Rebuilt(t, files))
    ensures Covered(Rebuilt(t, files)) == Covered(files)
  {
    hide M.Ascii;
    assert Jcs.Excluded(MANIFEST);
    hide Jcs.Excluded;
    assert Covered(Rebuilt(t, files)) == Covered(files);
  }

  /** A write leaves what the manifest covers alone exactly when it changes nothing or lies outside. */
  lemma CoveredIgnores(files: Files, path: Text, data: Text)
    ensures Covered(files[path := data]) == Covered(files) <==> Jcs.Outside(path) || (path in files && files[path] == data)
    ensures Covered(files - {path}) == Covered(files) <==> Jcs.Outside(path) || path !in files
  {
    Jcs.ExcludedIsOutside(path);
    hide Jcs.Excluded, Jcs.Outside;
    var a, b, c := Covered(files), Covered(files[path := data]), Covered(files - {path});
    if Jcs.Outside(path) {
      assert a == b && a == c;
    } else {
      assert path in b && b[path] == data && path !in c;
      assert path in a <==> path in files;
      if path in files && files[path] == data { assert files[path := data] == files; }
      if path !in files { assert files - {path} == files; }
    }
  }

  /** Whatever happens outside the boundary, a fresh manifest stays fresh. */
  lemma OutsideKeepsFresh(t: Tools, files: Files, path: Text, data: Text)
    requires ManifestIsFresh(t, files) && Jcs.Outside(path) && path != MANIFEST
    ensures ManifestIsFresh(t, files[path := data]) && ManifestIsFresh(t, files - {path})
  {
    CoveredIgnores(files, path, data);
    hide Covered, Jcs.Outside, M.Ascii;
  }

  /** An entry in the log, a checkpoint and a signature all lie outside. */
  lemma AuditAndSignaturesKeepFresh(t: Tools, files: Files, name: Text, data: Text)
    requires ManifestIsFresh(t, files)
    ensures ManifestIsFresh(t, files[M.Ascii("audit.log") := data])
    ensures ManifestIsFresh(t, files[M.Ascii("audit.checkpoint") := data])
    ensures ManifestIsFresh(t, files[M.Ascii("signatures/") + name := data])
    ensures ManifestIsFresh(t, files - {M.Ascii("signatures/") + name})
  {
    var log, checkpoint, signature := M.Ascii("audit.log"), M.Ascii("audit.checkpoint"), M.Ascii("signatures/") + name;
    assert log[0] == 0x61 && checkpoint[0] == 0x61 && signature[0] == 0x73 && MANIFEST[0] == 0x6D;
    hide ManifestIsFresh, M.Ascii;
    OutsideKeepsFresh(t, files, log, data);
    OutsideKeepsFresh(t, files, checkpoint, data);
    OutsideKeepsFresh(t, files, signature, data);
  }

  // ------------------------------------------------------------ which sections bind

  ghost function Anchors(hs: seq<Heading>): set<Text> {
    set h | h in hs && h.topLevel && h.id != [] :: h.id
  }

  ghost function BoundIds(ss: seq<Section>, anchors: set<Text>): seq<Text> {
    if ss == [] then []
    else (if ss[0].id != [] && ss[0].id in anchors then [ss[0].id] else []) + BoundIds(ss[1..], anchors)
  }

  /** `bound_sections`. */
  ghost function Bound(t: Tools, schema: Text, content: Text): Option<seq<Text>> {
    if t.schema(schema).None? || t.headings(content).None? then None
    else Some(BoundIds(t.schema(schema).value, Anchors(t.headings(content).value)))
  }

  /** `attestation_required`. */
  ghost function Required(t: Tools, files: Files, paths: seq<Text>): Option<bool> {
    if CONTENT !in paths || SCHEMA in paths || SCHEMA !in files then Some(false)
    else if t.schema(files[SCHEMA]).None? then None
    else Some(t.schema(files[SCHEMA]).value != [])
  }

  /** The attestation computed before anything is sealed; none at all when it cannot be computed. */
  ghost function Attested(t: Tools, files: Files, paths: seq<Text>): Option<Option<seq<Text>>> {
    var required := Required(t, files, paths);
    if required.None? then None
    else if !required.value then Some(None)
    else if CONTENT !in files || Bound(t, files[SCHEMA], files[CONTENT]).None? then None
    else Some(Bound(t, files[SCHEMA], files[CONTENT]))
  }

  // ------------------------------------------------------------ sealing and opening members

  /** Members sealed one after the other, from the `n`-th on; it stops at the first that cannot be. */
  ghost function SealAll(t: Tools, files: Files, paths: seq<Text>, n: nat, key: Text): (Files, Outcome)
    decreases |paths|
  {
    if paths == [] then (files, Done)
    else if paths[0] !in files then (files, NotFound)
    else
      var c := t.seal(key, paths[0], t.nonce(n), files[paths[0]]);
      if c.None? then (files, Rejected) else SealAll(t, files[paths[0] := c.value], paths[1..], n + 1, key)
  }

  ghost function OpenAll(t: Tools, files: Files, paths: seq<Text>, key: Text): (Files, Outcome)
    decreases |paths|
  {
    if paths == [] then (files, Done)
    else if paths[0] !in files then (files, NotFound)
    else
      var p := t.open(key, paths[0], files[paths[0]]);
      if p.None? then (files, Rejected) else OpenAll(t, files[paths[0] := p.value], paths[1..], key)
  }

  /** Sealing touches the listed members only, and leaves every member in place. */
  lemma {:induction false} SealTouches(t: Tools, files: Files, paths: seq<Text>, n: nat, key: Text)
    ensures SealAll(t, files, paths, n, key).0.Keys == files.Keys
    ensures forall p :: p in files && p !in paths ==> SealAll(t, files, paths, n, key).0[p] == files[p]
    ensures SealAll(t, files, paths, n, key).1 == Done ==> forall p :: p in paths ==> p in files
    decreases |paths|
  {
    if paths != [] && paths[0] in files {
      var c := t.seal(key, paths[0], t.nonce(n), files[paths[0]]);
      if c.Some? {
        var next := files[paths[0] := c.value];
        assert next.Keys == files.Keys;
        SealTouches(t, next, paths[1..], n + 1, key);
      }
    }
  }

  /** The i-th member is sealed with the i-th nonce, under its own path. */
  lemma {:induction false} SealedWithOwnNonce(t: Tools, files: Files, paths: seq<Text>, n: nat, key: Text, i: nat)
    requires SealAll(t, files, paths, n, key).1 == Done && i < |paths|
    requires forall a, b :: 0 <= a < b < |paths| ==> paths[a] != paths[b]
    ensures var after := SealAll(t, files, paths, n, key).0;
      paths[i] in files && paths[i] in after && t.seal(key, paths[i], t.nonce(n + i), files[paths[i]]) == Some(after[paths[i]])
    decreases |paths|
  {
    var rest := paths[1..];
    var next := files[paths[0] := t.seal(key, paths[0], t.nonce(n), files[paths[0]]).value];
    SealTouches(t, next, rest, n + 1, key);
    if i > 0 {
      assert rest[i - 1] == paths[i];
      SealedWithOwnNonce(t, next, rest, n + 1, key, i - 1);
    } else {
      assert paths[0] !in rest;
    }
  }

  /** Opening goes on regardless of what is written to other members. */
  lemma {:induction false} OpenIgnores(t: Tools, files: Files, paths: seq<Text>, key: Text, path: Text, data: Text)
    requires path !in paths
    ensures var r := OpenAll(t, files, paths, key);
      OpenAll(t, files[path := data], paths, key) == (r.0[path := data], r.1)
    decreases |paths|
  {
    if paths != [] && paths[0] in files {
      var p := t.open(key, paths[0], files[paths[0]]);
      if p.Some? {
        assert files[path := data][paths[0] := p.value] == files[paths[0] := p.value][path := data];
        OpenIgnores(t, files[paths[0] := p.value], paths[1..], key, path, data);
      }
    }
  }

  lemma OpenFirst(t: Tools, files: Files, path: Text, rest: seq<Text>, key: Text)
    ensures OpenAll(t, files, [path] + rest, key) ==
      if path !in files then (files, NotFound)
      else if t.open(key, path, files[path]).None? then (files, Rejected)
      else OpenAll(t, files[path := t.open(key, path, files[path]).value], rest, key)
  {
    assert ([path] + rest)[1..] == rest;
  }

  /** Moving one member to the end of the list makes no difference to a run that succeeds. */
  lemma {:induction false} OpenLater(t: Tools, files: Files, path: Text, rest: seq<Text>, key: Text)
    requires OpenAll(t, files, rest + [path], key).1 == Done
    ensures OpenAll(t, files, [path] + rest, key) == OpenAll(t, files, rest + [path], key)
    decreases |rest|
  {
    if rest == [] {
      assert rest + [path] == [path] + rest;
    } else {
      var r, more := rest[0], rest[1..];
      assert rest + [path] == [r] + (more + [path]) && rest == [r] + more;
      OpenFirst(t, files, r, more + [path], key);
      var next := files[r := t.open(key, r, files[r]).value];
      OpenLater(t, next, path, more, key);
      OpenFirst(t, next, path, more, key);
      if r != path {
        OpenFirst(t, files, path, rest, key);
        var other := files[path := t.open(key, path, files[path]).value];
        OpenFirst(t, other, r, more, key);
        assert next[path := t.open(key, path, files[path]).value] == other[r := t.open(key, r, files[r]).value];
      } else {
        OpenFirst(t, files, path, rest, key);
        OpenFirst(t, next, r, more, key);
      }
    }
  }

  lemma {:induction false} OpenSnoc(t: Tools, files: Files, paths: seq<Text>, path: Text, key: Text)
    requires OpenAll(t, files, paths, key).1 == Done
    ensures OpenAll(t, files, paths + [path], key) == OpenAll(t, OpenAll(t, files, paths, key).0, [path], key)
    decreases |paths|
  {
    if paths == [] {
      assert paths + [path] == [path];
    } else {
      assert paths + [path] == [paths[0]] + (paths[1..] + [path]) && paths == [paths[0]] + paths[1..];
      OpenFirst(t, files, paths[0], paths[1..] + [path], key);
      OpenFirst(t, files, paths[0], paths[1..], key);
      OpenSnoc(t, files[paths[0] := t.open(key, paths[0], files[paths[0]]).value], paths[1..], path, key);
    }
  }

  /** Opening undoes sealing, whatever members are listed and however often. */
  lemma {:induction false} OpenUndoesSeal(t: Tools, files: Files, paths: seq<Text>, n: nat, key: Text)
    requires Opens(t) && SealAll(t, files, paths, n, key).1 == Done
    ensures OpenAll(t, SealAll(t, files, paths, n, key).0, paths, key) == (files, Done)
    decreases |paths|
  {
    if paths != [] {
      var path, rest := paths[0], paths[1..];
      var c := t.seal(key, path, t.nonce(n), files[path]).value;
      var next := files[path := c];
      var sealed := SealAll(t, next, rest, n + 1, key).0;
      OpenUndoesSeal(t, next, rest, n + 1, key);
      OpenSnoc(t, sealed, rest, path, key);
      assert paths == [path] + rest;
      OpenFirst(t, next, path, [], key);
      assert [path] + [] == [path];
      assert next[path := files[path]] == files;
      assert OpenAll(t, files, [], key) == (files, Done);
      OpenLater(t, sealed, path, rest, key);
    }
  }

  // ------------------------------------------------------------ recipients

  /** base64url text as member bytes, and back. */
  ghost function Letters(s: string): (t: Text)
    requires forall i :: 0 <= i < |s| ==> s[i] as int < 256
    ensures |t| == |s| && forall i :: 0 <= i < |s| ==> t[i] == s[i] as int
  {
    seq(|s|, i requires 0 <= i < |s| => s[i] as int)
  }

  function Spelling(t: Text): (s: string)
    ensures |s| == |t| && forall i :: 0 <= i < |t| ==> s[i] as int == t[i]
  {
    seq(|t|, i requires 0 <= i < |t| => t[i] as char)
  }

  lemma AlphabetIsBytes(data: Text)
    ensures forall i :: 0 <= i < |Base64Url.Text(data)| ==> Base64Url.Text(data)[i] as int < 256
  {
    hide Base64Url.Regroup;
  }

  ghost function Encoded(data: Text): Text {
    AlphabetIsBytes(data);
    Letters(Base64Url.Text(data))
  }

  ghost function Decoded(t: Text): Option<Text> {
    Base64Url.Denoted(Spelling(t))
  }

  lemma DecodesBack(data: Text)
    ensures Decoded(Encoded(data)) == Some(data)
  {
    AlphabetIsBytes(data);
    Base64Url.DecodeEncode(data);
    hide Base64Url.Text, Base64Url.Denoted;
    assert Spelling(Encoded(data)) == Base64Url.Text(data);
  }

  method EncodeBytes(data: Text) returns (t: Text)
    ensures t == Encoded(data)
  {
    AlphabetIsBytes(data);
    var s := Base64Url.Encode(data);
    t := seq(|s|, i requires 0 <= i < |s| => s[i] as int);
  }

  method DecodeBytes(t: Text) returns (data: Option<Text>)
    ensures data == Decoded(t)
  {
    hide Base64Url.Ungroup;
    var r := Base64Url.Decode(Spelling(t));
    data := if r.Ok? then Some(r.value) else None;
  }

  /** The entries of the policy, one recipient key after the other; none at all when one fails. */
  ghost function Recipients(t: Tools, keys: seq<Text>, payload: Text): Option<seq<P.Recipient>> {
    if keys == [] then Some([])
    else
      var rest := Recipients(t, keys[1..], payload);
      if t.did(keys[0]).None? || t.wrap(keys[0], payload).None? || rest.None? then None
      else
        var w := t.wrap(keys[0], payload).value;
        Some([P.Recipient(t.did(keys[0]).value, Encoded(w.0), Encoded(w.1))] + rest.value)
  }

  /** The first entry that carries a name. */
  ghost function EntryOf(rs: seq<P.Recipient>, did: Text): Option<P.Recipient> {
    if rs == [] then None else if rs[0].id == did then Some(rs[0]) else EntryOf(rs[1..], did)
  }

  /** The key an entry carries, for the holder of a private key. */
  ghost function KeyFor(t: Tools, rs: seq<P.Recipient>, secret: Text): (Option<Text>, Outcome) {
    if t.ownDid(secret).None? then (None, Rejected)
    else
      var r := EntryOf(rs, t.ownDid(secret).value);
      if r.None? then (None, NotARecipient)
      else if Decoded(r.value.enc).None? || Decoded(r.value.wrappedKey).None? then (None, Rejected)
      else
        var k := t.unwrap(secret, Decoded(r.value.enc).value, Decoded(r.value.wrappedKey).value);
        (k, if k.None? then Rejected else Done)
  }

  /** Every listed recipient gets the key back. */
  lemma {:induction false} ListedGetsKey(t: Tools, keys: seq<Text>, payload: Text, secret: Text)
    requires Unwraps(t, secret) && Recipients(t, keys, payload).Some? && t.ownDid(secret).Some?
    requires exists i :: 0 <= i < |keys| && t.did(keys[i]) == t.ownDid(secret)
    ensures KeyFor(t, Recipients(t, keys, payload).value, secret) == (Some(payload), Done)
    decreases |keys|
  {
    hide Encoded, Decoded;
    var w := t.wrap(keys[0], payload).value;
    if t.did(keys[0]) == t.ownDid(secret) {
      DecodesBack(w.0);
      DecodesBack(w.1);
    } else {
      var i :| 0 <= i < |keys| && t.did(keys[i]) == t.ownDid(secret);
      assert keys[1..][i - 1] == keys[i];
      ListedGetsKey(t, keys[1..], payload, secret);
      var rs := Recipients(t, keys, payload).value;
      assert rs[1..] == Recipients(t, keys[1..], payload).value;
    }
  }

  // ------------------------------------------------------------ the two operations

  ghost function PolicyFor(bound: Option<seq<Text>>, paths: seq<Text>, rs: seq<P.Recipient>): P.Policy {
    P.Policy(CIPHER, MANAGEMENT, paths, bound, rs)
  }

  ghost function PolicyText(p: P.Policy): Text {
    Y.JoinLines(P.PolicyLines(p))
  }

  /** `encrypt_container`. */
  ghost function Encrypted(t: Tools, files: Files, paths: seq<Text>, keys: seq<Text>, cek: Text): World {
    if paths == [] || keys == [] then World(NothingToDo, files)
    else if POLICY in files then World(AlreadySealed, files)
    else
      var bound := Attested(t, files, paths);
      if bound.None? then World(Rejected, files)
      else
        var sealed := SealAll(t, files, paths, 0, cek);
        if sealed.1 != Done then World(sealed.1, sealed.0)
        else
          var rs := Recipients(t, keys, cek);
          if rs.None? then World(Rejected, sealed.0)
          else World(Done, Rebuilt(t, sealed.0[POLICY := PolicyText(PolicyFor(bound.value, paths, rs.value))]))
  }

  ghost predicate AttestationHolds(t: Tools, files: Files, bound: Option<seq<Text>>) {
    bound.Some? && SCHEMA in files && CONTENT in files ==>
      Bound(t, files[SCHEMA], files[CONTENT]) == bound
  }

  ghost predicate AttestationReadable(t: Tools, files: Files, bound: Option<seq<Text>>) {
    bound.Some? && SCHEMA in files && CONTENT in files ==> Bound(t, files[SCHEMA], files[CONTENT]).Some?
  }

  /** `decrypt_container`. */
  ghost function Decrypted(t: Tools, files: Files, secret: Text): World {
    if POLICY !in files then World(NotFound, files)
    else if t.readPolicy(files[POLICY]).None? then World(Rejected, files)
    else
      var p := t.readPolicy(files[POLICY]).value;
      var k := KeyFor(t, p.recipients, secret);
      if k.0.None? then World(k.1, files)
      else
        var clear := OpenAll(t, files, p.files, k.0.value);
        if clear.1 != Done then World(clear.1, clear.0)
        else if !AttestationReadable(t, clear.0, p.bound) then World(Rejected, clear.0)
        else if !AttestationHolds(t, clear.0, p.bound) then World(Mismatch, clear.0)
        else World(Done, Rebuilt(t, clear.0 - {POLICY}))
  }

  // ------------------------------------------------------------ opening that fails

  /** How many members are opened before the run stops. */
  ghost function Reach(t: Tools, files: Files, paths: seq<Text>, key: Text): (n: nat)
    ensures n <= |paths|
    decreases |paths|
  {
    if paths == [] || paths[0] !in files || t.open(key, paths[0], files[paths[0]]).None? then 0
    else 1 + Reach(t, files[paths[0] := t.open(key, paths[0], files[paths[0]]).value], paths[1..], key)
  }

  /** The bytes of a member once it was opened as often as its path comes up. */
  ghost function OpenedAs(t: Tools, key: Text, path: Text, data: Text, paths: seq<Text>): Text
    decreases |paths|
  {
    if paths == [] then data
    else
      var next := if paths[0] == path && t.open(key, path, data).Some? then t.open(key, path, data).value else data;
      OpenedAs(t, key, path, next, paths[1..])
  }

  /** Wherever a run stops, it has opened the members up to there and no other. */
  lemma {:induction false} OpensUpTo(t: Tools, files: Files, paths: seq<Text>, key: Text)
    ensures var r := OpenAll(t, files, paths, key);
      r.0.Keys == files.Keys && (r.1 == Done <==> Reach(t, files, paths, key) == |paths|)
    ensures var done := paths[..Reach(t, files, paths, key)];
      forall p :: p in files ==> OpenAll(t, files, paths, key).0[p] == OpenedAs(t, key, p, files[p], done)
    decreases |paths|
  {
    if paths != [] && paths[0] in files {
      var first := t.open(key, paths[0], files[paths[0]]);
      if first.Some? {
        var next := files[paths[0] := first.value];
        assert next.Keys == files.Keys;
        OpensUpTo(t, next, paths[1..], key);
        var done := paths[..Reach(t, files, paths, key)];
        assert done[1..] == paths[1..][..Reach(t, next, paths[1..], key)];
      }
    }
  }

  lemma {:induction false} OpenedOnlyIfListed(t: Tools, key: Text, path: Text, data: Text, paths: seq<Text>)
    requires path !in paths
    ensures OpenedAs(t, key, path, data, paths) == data
    decreases |paths|
  {
    if paths != [] { OpenedOnlyIfListed(t, key, path, data, paths[1..]); }
  }

  /** Every member that is opened before the run stops opens to what it holds already. */
  ghost predicate OpensToItself(t: Tools, files: Files, paths: seq<Text>, key: Text) {
    var done := paths[..Reach(t, files, paths, key)];
    forall p :: p in done && p in files ==> OpenedAs(t, key, p, files[p], done) == files[p]
  }

  /** What a container holds before it is decrypted, when a failure is to leave it alone. */
  ghost predicate LeavesAlone(t: Tools, files: Files, secret: Text) {
    POLICY !in files || t.readPolicy(files[POLICY]).None? ||
    (var p := t.readPolicy(files[POLICY]).value;
     var k := KeyFor(t, p.recipients, secret).0;
     k.None? || OpensToItself(t, files, p.files, k.value))
  }

  /** A decryption that fails leaves the container as it was exactly then. */
  lemma FailureLeavesAlone(t: Tools, files: Files, secret: Text)
    requires Decrypted(t, files, secret).outcome != Done
    ensures Decrypted(t, files, secret).files == files <==> LeavesAlone(t, files, secret)
  {
    hide KeyFor, OpenAll, OpenedAs, Reach, M.Ascii, AttestationReadable, AttestationHolds;
    if POLICY in files && t.readPolicy(files[POLICY]).Some? {
      var p := t.readPolicy(files[POLICY]).value;
      var k := KeyFor(t, p.recipients, secret).0;
      if k.Some? { OpensInPlace(t, files, p.files, k.value); }
    }
  }

  lemma OpensInPlace(t: Tools, files: Files, paths: seq<Text>, key: Text)
    ensures OpenAll(t, files, paths, key).0 == files <==> OpensToItself(t, files, paths, key)
  {
    hide OpenAll, OpenedAs, Reach;
    OpensUpTo(t, files, paths, key);
    var done := paths[..Reach(t, files, paths, key)];
    forall p | p in files && p !in done ensures OpenedAs(t, key, p, files[p], done) == files[p] {
      OpenedOnlyIfListed(t, key, p, files[p], done);
    }
  }

  /** A run that stops at its first member leaves the container alone. */
  lemma FirstStops(t: Tools, files: Files, paths: seq<Text>, key: Text)
    requires paths == [] || paths[0] !in files || t.open(key, paths[0], files[paths[0]]).None?
    ensures OpensToItself(t, files, paths, key)
  {
    assert paths[..0] == [];
  }

  /** An attestation that does not match is found out when every listed member has been rewritten. */
  lemma MismatchIsLate(t: Tools, files: Files, secret: Text)
    requires Decrypted(t, files, secret).outcome == Mismatch
    ensures POLICY in files && t.readPolicy(files[POLICY]).Some?
    ensures var p := t.readPolicy(files[POLICY]).value;
      var k := KeyFor(t, p.recipients, secret).0;
      k.Some? && Reach(t, files, p.files, k.value) == |p.files| &&
      Decrypted(t, files, secret).files == OpenAll(t, files, p.files, k.value).0
  {
    hide Decoded, OpenAll, EntryOf, Reach, M.Ascii, AttestationReadable, AttestationHolds;
    var p := t.readPolicy(files[POLICY]).value;
    var k := KeyFor(t, p.recipients, secret).0;
    OpensNeverMismatch(t, files, p.files, k.value);
    OpensUpTo(t, files, p.files, k.value);
  }

  lemma {:induction false} OpensNeverMismatch(t: Tools, files: Files, paths: seq<Text>, key: Text)
    ensures OpenAll(t, files, paths, key).1 != Mismatch
    decreases |paths|
  {
    if paths != [] && paths[0] in files && t.open(key, paths[0], files[paths[0]]).Some? {
      OpensNeverMismatch(t, files[paths[0] := t.open(key, paths[0], files[paths[0]]).value], paths[1..], key);
    }
  }

  /**
   * Opening with any listed recipient's key after sealing gives back every member, removes the
   * policy, passes the attestation check, and leaves a fresh manifest.
   */
  lemma DecryptRestores(t: Tools, files: Files, paths: seq<Text>, keys: seq<Text>, cek: Text, secret: Text)
    requires Opens(t) && Unwraps(t, secret) && t.ownDid(secret).Some?
    requires exists i :: 0 <= i < |keys| && t.did(keys[i]) == t.ownDid(secret)
    requires SealsReadably(t, files, paths, keys, cek) && MANIFEST !in paths
    ensures Decrypted(t, Encrypted(t, files, paths, keys, cek).files, secret) == World(Done, Rebuilt(t, files))
    ensures ManifestIsFresh(t, Rebuilt(t, files)) && forall p :: p in files && p != MANIFEST ==> Rebuilt(t, files)[p] == files[p]
  {
    hide Recipients, KeyFor, PolicyText, Attested, Opens, Unwraps, SealAll, OpenAll, M.Ascii, Covered;
    PathsDiffer();
    RebuiltIsFresh(t, files);
    var sealed := SealAll(t, files, paths, 0, cek).0;
    SealTouches(t, files, paths, 0, cek);
    var rs := Recipients(t, keys, cek).value;
    var p := PolicyFor(Attested(t, files, paths).value, paths, rs);
    var middle := sealed[POLICY := PolicyText(p)];
    var after := Rebuilt(t, middle);
    ListedGetsKey(t, keys, cek, secret);
    OpenUndoesSeal(t, files, paths, 0, cek);
    OpenIgnores(t, sealed, paths, cek, POLICY, PolicyText(p));
    OpenIgnores(t, middle, paths, cek, MANIFEST, t.manifest(Covered(middle)));
    var clear := files[POLICY := PolicyText(p)][MANIFEST := t.manifest(Covered(middle))];
    assert OpenAll(t, after, paths, cek) == (clear, Done);
    AttestationPasses(t, files, clear, paths);
    assert clear - {POLICY} == files[MANIFEST := t.manifest(Covered(middle))];
    RebuiltTwice(t, files, t.manifest(Covered(middle)));
  }

  lemma PathsDiffer()
    ensures POLICY != MANIFEST && POLICY != CONTENT && POLICY != SCHEMA && MANIFEST != CONTENT && MANIFEST != SCHEMA
    ensures CONTENT != SCHEMA
  {
    assert POLICY[0] == 0x65 && MANIFEST[0] == 0x6D && CONTENT[0] == 0x63 && SCHEMA[0] == 0x73;
  }

  lemma RebuiltTwice(t: Tools, files: Files, data: Text)
    ensures Rebuilt(t, files[MANIFEST := data]) == Rebuilt(t, files)
  {
    hide M.Ascii;
    assert Jcs.Excluded(MANIFEST);
    hide Jcs.Excluded;
    assert Covered(files[MANIFEST := data]) == Covered(files);
  }

  lemma AttestationPasses(t: Tools, files: Files, clear: Files, paths: seq<Text>)
    requires Attested(t, files, paths).Some?
    requires POLICY !in files && clear.Keys == files.Keys + {POLICY, MANIFEST}
    requires forall p :: p in files && p != MANIFEST ==> clear[p] == files[p]
    ensures AttestationHolds(t, clear, Attested(t, files, paths).value)
    ensures AttestationReadable(t, clear, Attested(t, files, paths).value)
  {
    hide M.Ascii, Bound;
    PathsDiffer();
  }

  /** Which outcome each refusal has, the first that applies. */
  lemma OutcomesSpelled(t: Tools, files: Files, paths: seq<Text>, keys: seq<Text>, cek: Text, secret: Text)
    ensures var o := Encrypted(t, files, paths, keys, cek).outcome; var at := M.Ascii("encryption/policy.yaml");
      && (o == NothingToDo <==> paths == [] || keys == [])
      && (o == AlreadySealed <==> paths != [] && keys != [] && at in files)
    ensures var o := Decrypted(t, files, secret).outcome; var at := M.Ascii("encryption/policy.yaml");
      && (at !in files ==> o == NotFound)
      && (o == NotARecipient <==>
        at in files && t.readPolicy(files[at]).Some? && t.ownDid(secret).Some? &&
        forall r :: r in t.readPolicy(files[at]).value.recipients ==> r.id != t.ownDid(secret).value)
  {
    hide Attested, SealAll, Recipients, PolicyText, Rebuilt, OpenAll, Decoded, AttestationHolds, AttestationReadable, M.Ascii;
    SealOutcomes(t, files, paths, 0, cek);
    if POLICY in files && t.readPolicy(files[POLICY]).Some? && t.ownDid(secret).Some? {
      var p := t.readPolicy(files[POLICY]).value;
      EntryFound(p.recipients, t.ownDid(secret).value);
      var k := KeyFor(t, p.recipients, secret).0;
      if k.Some? { OpenOutcomes(t, files, p.files, k.value); }
    }
  }

  lemma {:induction false} EntryFound(rs: seq<P.Recipient>, did: Text)
    ensures EntryOf(rs, did).None? <==> forall r :: r in rs ==> r.id != did
  {
    if rs != [] {
      EntryFound(rs[1..], did);
      assert forall r :: r in rs <==> r == rs[0] || r in rs[1..];
    }
  }

  lemma {:induction false} SealOutcomes(t: Tools, files: Files, paths: seq<Text>, n: nat, key: Text)
    ensures SealAll(t, files, paths, n, key).1 in {Done, NotFound, Rejected}
    decreases |paths|
  {
    if paths != [] && paths[0] in files {
      var c := t.seal(key, paths[0], t.nonce(n), files[paths[0]]);
      if c.Some? { SealOutcomes(t, files[paths[0] := c.value], paths[1..], n + 1, key); }
    }
  }

  lemma {:induction false} OpenOutcomes(t: Tools, files: Files, paths: seq<Text>, key: Text)
    ensures OpenAll(t, files, paths, key).1 in {Done, NotFound, Rejected}
    decreases |paths|
  {
    if paths != [] && paths[0] in files {
      var p := t.open(key, paths[0], files[paths[0]]);
      if p.Some? { OpenOutcomes(t, files[paths[0] := p.value], paths[1..], key); }
    }
  }

  /** A failure after the first member leaves ciphertext behind and no policy to open it with. */
  lemma FailureLeavesNoPolicy(t: Tools, files: Files, paths: seq<Text>, keys: seq<Text>, cek: Text)
    requires POLICY !in files && Encrypted(t, files, paths, keys, cek).outcome != Done
    ensures POLICY !in Encrypted(t, files, paths, keys, cek).files
    ensures var sealed := SealAll(t, files, paths, 0, cek);
      Encrypted(t, files, paths, keys, cek).files ==
        if paths == [] || keys == [] || Attested(t, files, paths).None? then files else sealed.0
  {
    hide Recipients, Attested, SealAll, M.Ascii, PolicyText;
    SealTouches(t, files, paths, 0, cek);
  }

  // ------------------------------------------------------------ the structural verdict

  datatype Code = MissingContent | PolicyInvalid | RequiredMissing | SchemaUnbound

  datatype Issue = Issue(code: Code, section: Text)

  /** `sealed_members`: nothing, when there is no policy that can be read. */
  ghost function SealedPaths(t: Tools, files: Files): seq<Text> {
    if POLICY in files && t.readPolicy(files[POLICY]).Some? then t.readPolicy(files[POLICY]).value.files else []
  }

  ghost function SectionIssues(ss: seq<Section>, bound: set<Text>): seq<Issue> {
    if ss == [] then []
    else
      (if ss[0].id == [] || ss[0].id in bound then []
       else [Issue(if ss[0].required then RequiredMissing else SchemaUnbound, ss[0].id)])
      + SectionIssues(ss[1..], bound)
  }

  /** The ids that bind: the headings', or the attested ones over a sealed content.md; none at all without attestation. */
  ghost function BindingIds(t: Tools, files: Files): Option<set<Text>> {
    if CONTENT in SealedPaths(t, files) then
      var p := t.readPolicy(files[POLICY]).value;
      if p.bound.None? then None else Some((set id | id in p.bound.value))
    else if CONTENT in files && t.headings(files[CONTENT]).Some? then Some(Anchors(t.headings(files[CONTENT]).value))
    else Some({})
  }

  /** The members `check_core` looks at can be read. */
  ghost predicate Loads(t: Tools, files: Files) {
    (CONTENT in files && CONTENT !in SealedPaths(t, files) ==> t.headings(files[CONTENT]).Some?) &&
    (SCHEMA in files && SCHEMA !in SealedPaths(t, files) ==> t.schema(files[SCHEMA]).Some?)
  }

  /** `check_core`: the issues a document has at every profile. */
  ghost function CoreIssues(t: Tools, files: Files): seq<Issue>
    requires Loads(t, files)
  {
    (if CONTENT in files then [] else [Issue(MissingContent, [])]) +
    if SCHEMA !in files || SCHEMA in SealedPaths(t, files) then []
    else if BindingIds(t, files).None? then [Issue(PolicyInvalid, [])]
    else SectionIssues(t.schema(files[SCHEMA]).value, BindingIds(t, files).value)
  }

  lemma {:induction false} SameIssues(ss: seq<Section>, a: set<Text>, b: set<Text>)
    requires forall i :: 0 <= i < |ss| && ss[i].id != [] ==> (ss[i].id in a <==> ss[i].id in b)
    ensures SectionIssues(ss, a) == SectionIssues(ss, b)
  {
    if ss != [] {
      assert forall i :: 0 <= i < |ss[1..]| ==> ss[1..][i] == ss[i + 1];
      SameIssues(ss[1..], a, b);
    }
  }

  lemma {:induction false} BoundMembers(ss: seq<Section>, anchors: set<Text>)
    ensures forall i :: 0 <= i < |ss| && ss[i].id != [] ==> (ss[i].id in BoundIds(ss, anchors) <==> ss[i].id in anchors)
    ensures forall id :: id in BoundIds(ss, anchors) ==> id in anchors
  {
    if ss != [] {
      BoundMembers(ss[1..], anchors);
      var rest := BoundIds(ss[1..], anchors);
      forall i | 0 <= i < |ss| && ss[i].id != []
        ensures ss[i].id in BoundIds(ss, anchors) <==> ss[i].id in anchors
      {
        if i > 0 {
          assert ss[i] == ss[1..][i - 1];
        } else if ss[0].id in anchors {
          assert BoundIds(ss, anchors)[0] == ss[0].id;
        }
      }
    }
  }

  /** Attested sections bind exactly the sections the headings bound. */
  lemma AttestedIssues(ss: seq<Section>, anchors: set<Text>)
    ensures SectionIssues(ss, (set id | id in BoundIds(ss, anchors))) == SectionIssues(ss, anchors)
  {
    hide SectionIssues, BoundIds;
    BoundMembers(ss, anchors);
    SameIssues(ss, (set id | id in BoundIds(ss, anchors)), anchors);
  }

  /**
   * Sealing members other than the schema keeps the structural verdict, issue by issue, in every
   * case but one: content.md sealed under a schema that declares no sections, which needs no
   * attestation and is then reported for lacking one.
   */
  lemma SealKeepsVerdict(t: Tools, files: Files, paths: seq<Text>, keys: seq<Text>, cek: Text)
    requires SealsReadably(t, files, paths, keys, cek) && SCHEMA !in paths && Loads(t, files)
    ensures var after := Encrypted(t, files, paths, keys, cek).files;
      Loads(t, after) &&
      (CoreIssues(t, after) == CoreIssues(t, files) <==>
        !(CONTENT in paths && SCHEMA in files && t.schema(files[SCHEMA]) == Some([])))
  {
    hide Recipients, PolicyText, SealAll, M.Ascii, Covered, SectionIssues, BoundIds;
    PathsDiffer();
    var sealed := SealAll(t, files, paths, 0, cek).0;
    SealTouches(t, files, paths, 0, cek);
    var after := Encrypted(t, files, paths, keys, cek).files;
    assert SealedPaths(t, after) == paths && SealedPaths(t, files) == [];
    assert after.Keys == files.Keys + {POLICY, MANIFEST};
    if SCHEMA in files && CONTENT in paths {
      var ss := t.schema(files[SCHEMA]).value;
      var anchors := Anchors(t.headings(files[CONTENT]).value);
      AttestedIssues(ss, anchors);
      NoSectionsNoIssues(anchors);
    }
  }

  // ------------------------------------------------------------ the verdict, by headings and sections

  /** A top-level heading carries that id; one inside a quote, a list item or a table cell does not count. */
  ghost predicate Binds(hs: seq<Heading>, id: Text) {
    exists h :: h in hs && h.topLevel && h.id == id
  }

  /** What is reported about a section that no heading binds. */
  function Unbound(s: Section): Issue {
    Issue(if s.required then RequiredMissing else SchemaUnbound, s.id)
  }

  /** The headings of content.md; none when there is no such member. */
  ghost function HeadingsOf(t: Tools, files: Files): seq<Heading> {
    if M.Ascii("content.md") in files && t.headings(files[M.Ascii("content.md")]).Some?
    then t.headings(files[M.Ascii("content.md")]).value else []
  }

  lemma {:induction false} SectionsReported(ss: seq<Section>, bound: set<Text>, issue: Issue)
    ensures issue in SectionIssues(ss, bound) <==>
      exists s :: s in ss && s.id != [] && s.id !in bound && issue == Unbound(s)
  {
    if ss != [] {
      SectionsReported(ss[1..], bound, issue);
      assert forall s :: s in ss <==> s == ss[0] || s in ss[1..];
    }
  }

  /**
   * Over members that are not sealed, `check_core` reports exactly the declared sections whose id no
   * top-level heading carries, and a missing content.md.
   */
  lemma ReportedExactly(t: Tools, files: Files, issue: Issue)
    requires Loads(t, files) && M.Ascii("schema.yaml") in files
    requires M.Ascii("content.md") !in SealedPaths(t, files) && M.Ascii("schema.yaml") !in SealedPaths(t, files)
    ensures issue in CoreIssues(t, files) <==>
      (issue == Issue(MissingContent, []) && M.Ascii("content.md") !in files) ||
      exists s :: s in t.schema(files[M.Ascii("schema.yaml")]).value && s.id != [] &&
        !Binds(HeadingsOf(t, files), s.id) && issue == Unbound(s)
  {
    hide SectionIssues, SealedPaths, M.Ascii;
    var ss, hs := t.schema(files[SCHEMA]).value, HeadingsOf(t, files);
    assert Anchors([]) == {};
    SectionsReported(ss, Anchors(hs), issue);
    assert CONTENT !in files ==> hs == [];
    assert forall id :: id in Anchors(hs) <==> id != [] && Binds(hs, id);
  }

  /** One declared section is reported, as missing or as unbound, exactly when no top-level heading carries its id. */
  lemma SectionReported(t: Tools, files: Files, s: Section)
    requires Loads(t, files) && M.Ascii("schema.yaml") in files
    requires M.Ascii("content.md") !in SealedPaths(t, files) && M.Ascii("schema.yaml") !in SealedPaths(t, files)
    requires s in t.schema(files[M.Ascii("schema.yaml")]).value && s.id != []
    ensures Issue(if s.required then RequiredMissing else SchemaUnbound, s.id) in CoreIssues(t, files) <==>
      !exists h :: h in HeadingsOf(t, files) && h.topLevel && h.id == s.id
  {
    hide CoreIssues, Loads, SealedPaths, HeadingsOf, M.Ascii;
    ReportedExactly(t, files, Unbound(s));
    assert !Binds(HeadingsOf(t, files), s.id) <==> !exists h :: h in HeadingsOf(t, files) && h.topLevel && h.id == s.id;
  }

  /** With content.md sealed and attested, it is still reported exactly when no top-level heading of what was sealed carried its id. */
  lemma SealedSectionReported(t: Tools, files: Files, paths: seq<Text>, keys: seq<Text>, cek: Text, s: Section)
    requires SealsReadably(t, files, paths, keys, cek) && Loads(t, files)
    requires M.Ascii("schema.yaml") in files && M.Ascii("schema.yaml") !in paths
    requires var ss := t.schema(files[M.Ascii("schema.yaml")]); ss.Some? && s in ss.value && s.id != []
    ensures var after := Encrypted(t, files, paths, keys, cek).files;
      Loads(t, after) &&
      (Issue(if s.required then RequiredMissing else SchemaUnbound, s.id) in CoreIssues(t, after) <==>
        !exists h :: h in HeadingsOf(t, files) && h.topLevel && h.id == s.id)
  {
    hide CoreIssues, Loads, SealedPaths, HeadingsOf, Recipients, Attested, PolicyText, Encrypted, M.Ascii;
    NotYetSealed(t, files, paths, keys, cek);
    SealKeepsVerdict(t, files, paths, keys, cek);
    SectionReported(t, files, s);
  }

  /** Sealing succeeds, and the policy it writes can be read back. */
  ghost predicate SealsReadably(t: Tools, files: Files, paths: seq<Text>, keys: seq<Text>, cek: Text) {
    Encrypted(t, files, paths, keys, cek).outcome == Done &&
    var p := PolicyFor(Attested(t, files, paths).value, paths, Recipients(t, keys, cek).value);
    t.readPolicy(PolicyText(p)) == Some(p)
  }

  /** What is written when sealing succeeds. */
  lemma PolicyWritten(t: Tools, files: Files, paths: seq<Text>, keys: seq<Text>, cek: Text) returns (p: P.Policy)
    requires Encrypted(t, files, paths, keys, cek).outcome == Done
    ensures var after := Encrypted(t, files, paths, keys, cek).files; POLICY in after && after[POLICY] == PolicyText(p)
    ensures p.files == paths && p.cipher == CIPHER && p.management == MANAGEMENT
  {
    PathsDiffer();
    hide Recipients, Attested, PolicyText, SealAll, M.Ascii, Covered;
    p := PolicyFor(Attested(t, files, paths).value, paths, Recipients(t, keys, cek).value);
  }

  lemma NotYetSealed(t: Tools, files: Files, paths: seq<Text>, keys: seq<Text>, cek: Text)
    requires Encrypted(t, files, paths, keys, cek).outcome == Done
    ensures POLICY !in files && SealedPaths(t, files) == [] && Attested(t, files, paths).Some? && Recipients(t, keys, cek).Some?
  {
    hide Recipients, Attested, PolicyText, SealAll, M.Ascii;
  }

  /** The sections `overview`, `terms` and `appendix`, the last two anchored only inside a quote and a list item. */
  lemma NestedHeadingsDoNotBind(t: Tools, files: Files)
    requires POLICY !in files && M.Ascii("content.md") in files && M.Ascii("schema.yaml") in files
    requires t.schema(files[M.Ascii("schema.yaml")]) == Some([
      Section(M.Ascii("overview"), false), Section(M.Ascii("terms"), true), Section(M.Ascii("appendix"), false)])
    requires t.headings(files[M.Ascii("content.md")]) == Some([
      Heading(M.Ascii("overview"), true), Heading(M.Ascii("terms"), false), Heading(M.Ascii("appendix"), false)])
    ensures Loads(t, files)
    ensures CoreIssues(t, files) == [Issue(RequiredMissing, M.Ascii("terms")), Issue(SchemaUnbound, M.Ascii("appendix"))]
  {
    var a, b, c := M.Ascii("overview"), M.Ascii("terms"), M.Ascii("appendix");
    assert a[0] == 0x6F && b[0] == 0x74 && c[0] == 0x61;
    hide M.Ascii;
    var hs := [Heading(a, true), Heading(b, false), Heading(c, false)];
    var ss := [Section(a, false), Section(b, true), Section(c, false)];
    assert hs[0] in hs;
    assert Anchors(hs) == {a};
    assert ss[1..] == [ss[1], ss[2]] && ss[1..][1..] == [ss[2]] && [ss[2]][1..] == [];
    assert SectionIssues([ss[2]], {a}) == [Unbound(ss[2])];
    assert SectionIssues(ss[1..], {a}) == [Unbound(ss[1])] + [Unbound(ss[2])];
  }

  /** An attestation is written exactly for a sealed content.md under a schema that stays readable and declares sections; it names the sections that bind. */
  lemma AttestedExactly(t: Tools, files: Files, paths: seq<Text>)
    requires Attested(t, files, paths).Some?
    ensures var content, schema := M.Ascii("content.md"), M.Ascii("schema.yaml");
      var bound := Attested(t, files, paths).value;
      (bound.Some? <==> content in paths && schema !in paths && schema in files && t.schema(files[schema]).value != []) &&
      (bound.Some? ==> forall id :: id in bound.value <==>
        id != [] && Binds(HeadingsOf(t, files), id) && exists s :: s in t.schema(files[schema]).value && s.id == id)
  {
    hide BoundIds, M.Ascii;
    var bound := Attested(t, files, paths).value;
    if bound.Some? {
      var ss, hs := t.schema(files[SCHEMA]).value, HeadingsOf(t, files);
      assert forall id :: id in Anchors(hs) <==> id != [] && Binds(hs, id);
      forall id ensures id in BoundIds(ss, Anchors(hs)) <==> id in Anchors(hs) && exists s :: s in ss && s.id == id {
        BoundIdsHold(ss, Anchors(hs), id);
      }
    }
  }

  lemma {:induction false} BoundIdsHold(ss: seq<Section>, anchors: set<Text>, id: Text)
    requires [] !in anchors
    ensures id in BoundIds(ss, anchors) <==> id in anchors && exists s :: s in ss && s.id == id
  {
    if ss != [] {
      BoundIdsHold(ss[1..], anchors, id);
      assert forall s :: s in ss <==> s == ss[0] || s in ss[1..];
    }
  }

  lemma NoSectionsNoIssues(bound: set<Text>)
    ensures SectionIssues([], bound) == []
  {
  }

  // ------------------------------------------------------------ the code

  method Rebuild(t: Tools, dir: Dir)
    modifies dir
    ensures dir.files == Rebuilt(t, old(dir.files))
  {
    hide Covered, M.Ascii;
    dir.Write(MANIFEST, t.manifest(Covered(dir.files)));
  }

  /** `bound_sections`. */
  method FindBound(t: Tools, schema: Text, content: Text) returns (bound: Option<seq<Text>>)
    ensures bound == Bound(t, schema, content)
  {
    if t.schema(schema).None? || t.headings(content).None? {
      return None;
    }
    var ss, hs := t.schema(schema).value, t.headings(content).value;
    var anchors := CollectAnchors(hs);
    var ids: seq<Text> := [];
    assert ss[0..] == ss;
    for i := 0 to |ss|
      invariant ids + BoundIds(ss[i..], anchors) == BoundIds(ss, anchors)
    {
      assert ss[i..][1..] == ss[i + 1..];
      if ss[i].id != [] && ss[i].id in anchors {
        assert ids + ([ss[i].id] + BoundIds(ss[i + 1..], anchors)) == (ids + [ss[i].id]) + BoundIds(ss[i + 1..], anchors);
        ids := ids + [ss[i].id];
      } else {
        assert [] + BoundIds(ss[i + 1..], anchors) == BoundIds(ss[i + 1..], anchors);
      }
    }
    assert ids + [] == ids;
    bound := Some(ids);
  }

  /** What `encrypt_container` works out before it seals anything. */
  method Attest(t: Tools, dir: Dir, paths: seq<Text>) returns (bound: Option<Option<seq<Text>>>)
    ensures bound == Attested(t, dir.files, paths)
  {
    hide Bound, M.Ascii;
    if CONTENT !in paths || SCHEMA in paths || SCHEMA !in dir.files {
      return Some(None);
    }
    var schema := dir.files[SCHEMA];
    if t.schema(schema).None? {
      return None;
    }
    if t.schema(schema).value == [] {
      return Some(None);
    }
    var content := dir.Read(CONTENT);
    if content.None? {
      return None;
    }
    var b := FindBound(t, schema, content.value);
    bound := if b.None? then None else Some(b);
  }

  /** The sealing loop: members are overwritten one by one. */
  method SealMembers(t: Tools, dir: Dir, paths: seq<Text>, key: Text) returns (outcome: Outcome)
    modifies dir
    ensures (dir.files, outcome) == SealAll(t, old(dir.files), paths, 0, key)
  {
    ghost var was := dir.files;
    assert paths[0..] == paths;
    for i := 0 to |paths|
      invariant SealAll(t, was, paths, 0, key) == SealAll(t, dir.files, paths[i..], i, key)
    {
      assert paths[i..][1..] == paths[i + 1..];
      var text := dir.Read(paths[i]);
      if text.None? {
        return NotFound;
      }
      var c := t.seal(key, paths[i], t.nonce(i), text.value);
      if c.None? {
        return Rejected;
      }
      dir.Write(paths[i], c.value);
    }
    outcome := Done;
  }

  method OpenMembers(t: Tools, dir: Dir, paths: seq<Text>, key: Text) returns (outcome: Outcome)
    modifies dir
    ensures (dir.files, outcome) == OpenAll(t, old(dir.files), paths, key)
  {
    ghost var was := dir.files;
    assert paths[0..] == paths;
    for i := 0 to |paths|
      invariant OpenAll(t, was, paths, key) == OpenAll(t, dir.files, paths[i..], key)
    {
      assert paths[i..][1..] == paths[i + 1..];
      var c := dir.Read(paths[i]);
      if c.None? {
        return NotFound;
      }
      var text := t.open(key, paths[i], c.value);
      if text.None? {
        return Rejected;
      }
      dir.Write(paths[i], text.value);
    }
    outcome := Done;
  }

  /** `rs` are the entries of the keys before; `more` what the rest still adds. */
  ghost function Joined(rs: seq<P.Recipient>, more: Option<seq<P.Recipient>>): Option<seq<P.Recipient>> {
    if more.None? then None else Some(rs + more.value)
  }

  lemma RecipientsStep(t: Tools, keys: seq<Text>, payload: Text, rs: seq<P.Recipient>)
    requires keys != []
    ensures Joined(rs, Recipients(t, keys, payload)) ==
      if t.did(keys[0]).None? || t.wrap(keys[0], payload).None? then None
      else
        var w := t.wrap(keys[0], payload).value;
        Joined(rs + [P.Recipient(t.did(keys[0]).value, Encoded(w.0), Encoded(w.1))], Recipients(t, keys[1..], payload))
  {
    hide Encoded;
    var rest := Recipients(t, keys[1..], payload);
    if t.did(keys[0]).Some? && t.wrap(keys[0], payload).Some? && rest.Some? {
      var w := t.wrap(keys[0], payload).value;
      var r := P.Recipient(t.did(keys[0]).value, Encoded(w.0), Encoded(w.1));
      assert rs + ([r] + rest.value) == (rs + [r]) + rest.value;
    }
  }

  lemma JoinedStarts(all: Option<seq<P.Recipient>>)
    ensures Joined([], all) == all
  {
    if all.Some? { assert [] + all.value == all.value; }
  }

  lemma JoinedEnds(t: Tools, payload: Text, rs: seq<P.Recipient>)
    ensures Joined(rs, Recipients(t, [], payload)) == Some(rs)
  {
    assert rs + [] == rs;
  }

  /** The recipient loop. */
  method WrapForAll(t: Tools, keys: seq<Text>, payload: Text) returns (out: Option<seq<P.Recipient>>)
    ensures out == Recipients(t, keys, payload)
  {
    hide Recipients, Encoded;
    var rs: seq<P.Recipient> := [];
    assert keys[0..] == keys;
    JoinedStarts(Recipients(t, keys, payload));
    for i := 0 to |keys|
      invariant Joined(rs, Recipients(t, keys[i..], payload)) == Recipients(t, keys, payload)
    {
      assert keys[i..][1..] == keys[i + 1..];
      RecipientsStep(t, keys[i..], payload, rs);
      var did := t.did(keys[i]);
      if did.None? {
        return None;
      }
      var w := t.wrap(keys[i], payload);
      if w.None? {
        return None;
      }
      var enc := EncodeBytes(w.value.0);
      var wrapped := EncodeBytes(w.value.1);
      rs := rs + [P.Recipient(did.value, enc, wrapped)];
    }
    assert keys[|keys|..] == [];
    JoinedEnds(t, payload, rs);
    out := Some(rs);
  }

  /** `encrypt_container`. */
  method Encrypt(t: Tools, dir: Dir, paths: seq<Text>, keys: seq<Text>, cek: Text) returns (outcome: Outcome)
    modifies dir
    ensures World(outcome, dir.files) == Encrypted(t, old(dir.files), paths, keys, cek)
  {
    hide Attested, SealAll, Recipients, PolicyText, Rebuilt, M.Ascii;
    if paths == [] || keys == [] {
      return NothingToDo;
    }
    if POLICY in dir.files {
      return AlreadySealed;
    }
    var bound := Attest(t, dir, paths);
    if bound.None? {
      return Rejected;
    }
    outcome := SealMembers(t, dir, paths, cek);
    if outcome != Done {
      return;
    }
    var rs := WrapForAll(t, keys, cek);
    if rs.None? {
      return Rejected;
    }
    var text := WriteText(P.Policy(CIPHER, MANAGEMENT, paths, bound.value, rs.value));
    dir.Write(POLICY, text);
    Rebuild(t, dir);
  }

  method WriteText(p: P.Policy) returns (text: Text)
    ensures text == PolicyText(p)
  {
    text := P.WritePolicy(p);
  }

  /** Finding one's own entry in the policy and unwrapping the key in it. */
  method FindKey(t: Tools, rs: seq<P.Recipient>, secret: Text) returns (key: Option<Text>, outcome: Outcome)
    ensures (key, outcome) == KeyFor(t, rs, secret)
  {
    hide Decoded;
    var did := t.ownDid(secret);
    if did.None? {
      return None, Rejected;
    }
    var mine: Option<P.Recipient> := None;
    assert rs[0..] == rs;
    for i := 0 to |rs|
      invariant mine.None? && EntryOf(rs, did.value) == EntryOf(rs[i..], did.value)
    {
      assert rs[i..][1..] == rs[i + 1..];
      if rs[i].id == did.value {
        mine := Some(rs[i]);
        break;
      }
    }
    if mine.None? {
      return None, NotARecipient;
    }
    var enc := DecodeBytes(mine.value.enc);
    if enc.None? {
      return None, Rejected;
    }
    var wrapped := DecodeBytes(mine.value.wrappedKey);
    if wrapped.None? {
      return None, Rejected;
    }
    key := t.unwrap(secret, enc.value, wrapped.value);
    outcome := if key.None? then Rejected else Done;
  }

  /** `decrypt_container`. */
  method Decrypt(t: Tools, dir: Dir, secret: Text) returns (outcome: Outcome)
    modifies dir
    ensures World(outcome, dir.files) == Decrypted(t, old(dir.files), secret)
  {
    hide OpenAll, KeyFor, Rebuilt, Bound, M.Ascii;
    if POLICY !in dir.files {
      return NotFound;
    }
    var policy := t.readPolicy(dir.files[POLICY]);
    if policy.None? {
      return Rejected;
    }
    var key;
    key, outcome := FindKey(t, policy.value.recipients, secret);
    if key.None? {
      return;
    }
    outcome := OpenMembers(t, dir, policy.value.files, key.value);
    if outcome != Done {
      return;
    }
    if policy.value.bound.Some? && SCHEMA in dir.files && CONTENT in dir.files {
      var actual := FindBound(t, dir.files[SCHEMA], dir.files[CONTENT]);
      if actual.None? {
        return Rejected;
      }
      if actual != policy.value.bound {
        return Mismatch;
      }
    }
    dir.Remove(POLICY);
    Rebuild(t, dir);
  }

  /** The section loop of `check_core`. */
  method CheckSections(ss: seq<Section>, bound: set<Text>) returns (issues: seq<Issue>)
    ensures issues == SectionIssues(ss, bound)
  {
    issues := [];
    assert ss[0..] == ss;
    for i := 0 to |ss|
      invariant issues + SectionIssues(ss[i..], bound) == SectionIssues(ss, bound)
    {
      assert ss[i..][1..] == ss[i + 1..];
      ghost var rest := SectionIssues(ss[i + 1..], bound);
      if ss[i].id == [] || ss[i].id in bound {
        assert [] + rest == rest;
      } else {
        var one := Issue(if ss[i].required then RequiredMissing else SchemaUnbound, ss[i].id);
        assert issues + ([one] + rest) == (issues + [one]) + rest;
        issues := issues + [one];
      }
    }
    assert issues + [] == issues;
  }

  method CollectAnchors(hs: seq<Heading>) returns (anchors: set<Text>)
    ensures anchors == Anchors(hs)
  {
    anchors := {};
    for i := 0 to |hs|
      invariant anchors == Anchors(hs[..i])
    {
      assert hs[..i + 1] == hs[..i] + [hs[i]];
      if hs[i].topLevel && hs[i].id != [] {
        anchors := anchors + {hs[i].id};
      }
    }
    assert hs[..|hs|] == hs;
  }

  /** `check_core`. */
  method CheckCore(t: Tools, dir: Dir) returns (issues: seq<Issue>)
    requires Loads(t, dir.files)
    ensures issues == CoreIssues(t, dir.files)
  {
    hide SectionIssues, Anchors, M.Ascii;
    issues := if CONTENT in dir.files then [] else [Issue(MissingContent, [])];
    assert issues + [] == issues;
    var policy := if POLICY in dir.files then t.readPolicy(dir.files[POLICY]) else None;
    var sealed := if policy.Some? then policy.value.files else [];
    assert sealed == SealedPaths(t, dir.files);
    if SCHEMA !in dir.files || SCHEMA in sealed {
      return;
    }
    var bound: set<Text> := {};
    if CONTENT in sealed {
      if policy.value.bound.None? {
        issues := issues + [Issue(PolicyInvalid, [])];
        return;
      }
      bound := set id | id in policy.value.bound.value;
    } else if CONTENT in dir.files {
      bound := CollectAnchors(t.headings(dir.files[CONTENT]).value);
    }
    var more := CheckSections(t.schema(dir.files[SCHEMA]).value, bound);
    issues := issues + more;
  }
}
