/**
 * The views the studio caches over a working copy (apps/studio/core/studio_core.cpp): signature
 * checks, audit status and conformance reports, each stamped with the revision it was computed at.
 */
module Caches {
  import opened Bytes
  import opened Json
  import opened Layout
  import opened Container
  import A = Audit
  import S = Seal
  import Jcs
  import P = Policy
  import M = Manifest
  import Y = Yaml
  import C = YamlCode


  type Files = map<Text, Text>

  /** What the audit panel shows. */
  datatype AuditView = AuditView(entries: seq<A.Entry>, chainOk: bool, checkpoint: A.CheckpointResult)

  const NO_CHECKPOINT := A.CheckpointResult(false, false, [], [])
  const NO_AUDIT := AuditView([], false, NO_CHECKPOINT)

  /** The engine calls behind the views and the operations. */
  datatype Engine = Engine(
    signatures: Files -> seq<Text>,                     // verify_container; none when it fails
    reports: Files -> seq<Text>,                        // validate at every profile; none when loading fails
    sign: Files -> Option<Text>,                        // sign_container
    hash: Text -> Text,
    readCheckpoint: Text -> Option<(Text, Text)>,
    storeCheckpoint: (Text, Text) -> Text,
    checkSignature: (Text, Text) -> Option<A.Checked>,
    signHead: Text -> Option<Text>,
    seal: S.Tools,
    metadata: Files -> Option<Text>,                    // load_document, then metadata_to_yaml; None when it has none
    schema: Files -> Option<Text>,                      // load_document, then schema_to_yaml
    recipientKey: Text -> Option<Text>,                 // EncPublicKey::from_did_key
    manifestReads: Text -> bool,                        // parse_manifest_json succeeds
    repacked: Files -> Option<Files>                    // packed, written to a file, read and unpacked again
  )

  // ------------------------------------------------------------ fresh recomputations

  /** The audit view of a working copy. */
  ghost function AuditOf(e: Engine, files: Files): AuditView {
    var es := A.Parse(A.LogText(files));
    var cp := A.CheckpointOf(files, e.readCheckpoint, e.checkSignature, e.hash);
    AuditView(if es.None? then [] else es.value,
              es.Some? && A.ChainValid(es.value, e.hash),
              if cp.None? then NO_CHECKPOINT else cp.value)
  }

  /** Which cached views claim to be current. */
  datatype Shown = Shown(signatures: bool, audit: bool, reports: bool)

  /** Those views show of one working copy what they would show of another. */
  ghost predicate StayRight(e: Engine, shown: Shown, before: Files, after: Files) {
    && (shown.signatures ==> e.signatures(before) == e.signatures(after))
    && (shown.audit ==> AuditOf(e, before) == AuditOf(e, after))
    && (shown.reports ==> e.reports(before) == e.reports(after))
  }

  /** What a save writes over the working copy; members sealed at rest are left alone. */
  ghost function Written(e: Engine, files: Files, sealed: seq<Text>, content: Text, meta: Option<Text>,
                         schema: Option<Text>, ensure: bool): Files {
    var a := if CONTENT in sealed then files else files[CONTENT := C.CanonicalText(content)];
    var b := if meta.None? || METADATA in sealed then a else a[METADATA := meta.value];
    var c := if schema.None? || SCHEMA in sealed then b else b[SCHEMA := schema.value];
    if ensure || MANIFEST in c then S.Rebuilt(e.seal, c) else c
  }

  /** The members the policy of a working copy lists as sealed. */
  ghost function SealedIn(e: Engine, files: Files): seq<Text> {
    if POLICY !in files then []
    else
      var p := e.seal.readPolicy(files[POLICY]);
      if p.None? then [] else p.value.files
  }

  /** The keys of a list of recipients, or None when one of them names no key. */
  ghost function KeysOf(e: Engine, dids: seq<Text>): Option<seq<Text>>
    decreases |dids|
  {
    if dids == [] then Some([])
    else
      var front, last := KeysOf(e, dids[..|dids| - 1]), e.recipientKey(dids[|dids| - 1]);
      if front.None? || last.None? then None else Some(front.value + [last.value])
  }

  /** Sealing the chosen members, content.md when none is chosen. */
  ghost function Sealing(e: Engine, files: Files, paths: seq<Text>, keys: seq<Text>, cek: Text): S.World {
    S.Encrypted(e.seal, files, if paths == [] then [CONTENT] else paths, keys, cek)
  }

  lemma NoKeys(e: Engine, dids: seq<Text>, i: nat)
    requires i <= |dids| && KeysOf(e, dids[..i]).None?
    ensures KeysOf(e, dids).None?
    decreases |dids| - i
  {
    if i < |dids| {
      assert dids[..i + 1][..i] == dids[..i];
      NoKeys(e, dids, i + 1);
    } else {
      assert dids[..i] == dids;
    }
  }

  /** Where a signature of that name is stored: letters, digits, `-` and `_` of the name, or `author`. */
  function SignaturePath(name: Text): Text {
    var kept := Kept(name);
    M.Ascii("signatures/") + (if kept == [] then M.Ascii("author") else kept) + M.Ascii(".sig")
  }

  function Kept(name: Text): Text {
    if name == [] then [] else Kept(name[..|name| - 1]) + if InFileName(name[|name| - 1]) then [name[|name| - 1]] else []
  }

  predicate InFileName(c: byte) {
    0x30 <= c <= 0x39 || 0x41 <= c <= 0x5A || 0x61 <= c <= 0x7A || c == 0x2D || c == 0x5F
  }

  /** A letter, a digit, `-` or `_`. */
  predicate NameByte(c: byte) {
    0x30 <= c <= 0x39 || 0x41 <= c <= 0x5A || 0x61 <= c <= 0x7A || c == 0x2D || c == 0x5F
  }

  lemma {:induction false} KeptConcat(a: Text, b: Text)
    ensures Kept(a + b) == Kept(a) + Kept(b)
    decreases |b|
  {
    if b == [] {
      assert a + b == a;
    } else {
      var init := b[..|b| - 1];
      KeptConcat(a, init);
      assert (a + b)[..|a + b| - 1] == a + init;
    }
  }

  /** A name made of such bytes is the name of the file; any other byte of a name makes no difference. */
  lemma SignatureNamed(name: Text, c: byte, rest: Text)
    requires forall i :: 0 <= i < |name| ==> NameByte(name[i])
    ensures name != [] ==> SignaturePath(name) == M.Ascii("signatures/") + name + M.Ascii(".sig")
    ensures SignaturePath([]) == M.Ascii("signatures/") + M.Ascii("author") + M.Ascii(".sig")
    ensures !NameByte(c) ==> SignaturePath(name + [c] + rest) == SignaturePath(name + rest)
  {
    KeptOne(c);
    hide M.Ascii, Kept;
    KeptWhole(name);
    KeptConcat(name + [c], rest);
    KeptConcat(name, [c]);
    KeptConcat(name, rest);
  }

  lemma KeptOne(c: byte)
    ensures Kept([c]) == (if NameByte(c) then [c] else []) && Kept([]) == []
  {
    assert [c][..0] == [];
  }

  lemma {:induction false} KeptWhole(name: Text)
    requires forall i :: 0 <= i < |name| ==> NameByte(name[i])
    ensures Kept(name) == name
  {
    if name != [] {
      KeptWhole(name[..|name| - 1]);
      assert name == name[..|name| - 1] + [name[|name| - 1]];
    }
  }

  /** A save writes the four members it owns, but none that is sealed; it touches no other. */
  lemma SaveKeepsSealed(e: Engine, files: Files, sealed: seq<Text>, content: Text, meta: Option<Text>, schema: Option<Text>, ensure: bool, path: Text)
    requires path in files && path != M.Ascii("manifest.json")
    ensures var after := Written(e, files, sealed, content, meta, schema, ensure);
      path in after && after[path] ==
        if path in sealed then files[path]
        else if path == M.Ascii("content.md") then C.CanonicalText(content)
        else if path == M.Ascii("metadata.yaml") && meta.Some? then meta.value
        else if path == M.Ascii("schema.yaml") && schema.Some? then schema.value
        else files[path]
  {
    MembersDiffer();
    hide M.Ascii, C.CanonicalText, S.Covered;
  }

  lemma MembersDiffer()
    ensures CONTENT != METADATA && CONTENT != SCHEMA && METADATA != SCHEMA
    ensures MANIFEST != CONTENT && MANIFEST != METADATA && MANIFEST != SCHEMA
  {
    assert CONTENT[0] == 0x63 && METADATA[0] == MANIFEST[0] == 0x6D && SCHEMA[0] == 0x73 && METADATA[1] == 0x65 && MANIFEST[1] == 0x61;
  }

  lemma SavedIsFresh(e: Engine, files: Files, sealed: seq<Text>, content: Text, meta: Option<Text>, schema: Option<Text>)
    ensures S.ManifestIsFresh(e.seal, Written(e, files, sealed, content, meta, schema, true))
  {
    hide S.Rebuilt, S.ManifestIsFresh, M.Ascii, C.CanonicalText;
    var a := if CONTENT in sealed then files else files[CONTENT := C.CanonicalText(content)];
    var b := if meta.None? || METADATA in sealed then a else a[METADATA := meta.value];
    var c := if schema.None? || SCHEMA in sealed then b else b[SCHEMA := schema.value];
    S.RebuiltIsFresh(e.seal, c);
  }

  /** A signature is stored outside what the manifest covers. */
  lemma SignatureKeepsFresh(e: Engine, files: Files, name: Text, jws: Text)
    requires S.ManifestIsFresh(e.seal, files)
    ensures S.ManifestIsFresh(e.seal, files[SignaturePath(name) := jws])
  {
    hide S.ManifestIsFresh, M.Ascii, Kept;
    var tail := (if Kept(name) == [] then M.Ascii("author") else Kept(name)) + M.Ascii(".sig");
    assert SignaturePath(name) == M.Ascii("signatures/") + tail;
    S.AuditAndSignaturesKeepFresh(e.seal, files, tail, jws);
  }

  /** One document of the studio: the working copy and what is cached about it. */
  class Doc {
    const e: Engine
    var dir: Dir?
    var diskRev: int
    var sigs: seq<Text>
    var sigRev: int
    var audit: AuditView
    var auditRev: int
    var reports: seq<Text>
    var confRev: int
    var sealed: seq<Text>
    var meta: Option<Text>
    var schema: Option<Text>
    var members: set<Text>
    var manifest: Option<Text>

    /** No view is ahead of the working copy. */
    ghost predicate Revisions()
      reads this
    {
      -1 <= sigRev <= diskRev && -1 <= auditRev <= diskRev && -1 <= confRev <= diskRev && 0 <= diskRev
    }

    /** A cached view whose revision is the current one is what recomputing it would give. */
    ghost predicate Coherent()
      reads this, dir
    {
      && Revisions()
      && (sigRev == diskRev ==> sigs == if dir == null then [] else e.signatures(dir.files))
      && (auditRev == diskRev ==> audit == if dir == null then NO_AUDIT else AuditOf(e, dir.files))
      && (confRev == diskRev ==> reports == if dir == null then [] else e.reports(dir.files))
    }

    /** Nothing cached is current: the working copy may change freely. */
    ghost predicate NothingCurrent()
      reads this
    {
      -1 <= sigRev < diskRev && -1 <= auditRev < diskRev && -1 <= confRev < diskRev && 0 <= diskRev
    }

    constructor (e: Engine)
      ensures Coherent() && dir == null && diskRev == 0 && this.e == e
    {
      this.e := e;
      dir, diskRev, sigRev, auditRev, confRev := null, 0, -1, -1, -1;
      sigs, audit, reports, sealed, meta, schema, members, manifest := [], NO_AUDIT, [], [], None, None, {}, None;
    }

    ghost function Claims(): Shown
      reads this
    {
      Shown(sigRev == diskRev, auditRev == diskRev, confRev == diskRev)
    }

    /** The list of members and the manifest are those of the working copy. */
    ghost predicate ManifestLoaded()
      reads this, dir
    {
      if dir == null then manifest == None
      else
        members == dir.files.Keys &&
        manifest == if MANIFEST in dir.files && e.manifestReads(dir.files[MANIFEST]) then Some(dir.files[MANIFEST]) else None
    }

    ghost predicate Reloaded()
      reads this, dir
    {
      Coherent() && NothingCurrent() && ManifestLoaded()
    }

    // -------------------------------------------------------- the views

    /** `refresh_signatures`. */
    method RefreshSignatures()
      requires Revisions()
      modifies this`sigs, this`sigRev
      ensures Revisions() && sigRev == diskRev
      ensures Coherent() <==> old(Coherent())
      ensures old(Coherent()) || old(sigRev) < diskRev ==> sigs == if dir == null then [] else e.signatures(dir.files)
    {
      hide AuditOf;
      if sigRev == diskRev {
        return;
      }
      sigRev := diskRev;
      sigs := [];
      if dir == null {
        return;
      }
      sigs := e.signatures(dir.files);
    }

    /** `refresh_audit`. */
    method RefreshAudit()
      requires Revisions()
      modifies this`audit, this`auditRev
      ensures Revisions() && auditRev == diskRev
      ensures Coherent() <==> old(Coherent())
      ensures old(Coherent()) || old(auditRev) < diskRev ==> audit == if dir == null then NO_AUDIT else AuditOf(e, dir.files)
    {
      hide A.Parse, A.ChainValid, A.CheckpointOf;
      if auditRev == diskRev {
        return;
      }
      auditRev := diskRev;
      audit := NO_AUDIT;
      if dir == null {
        return;
      }
      var es := A.ReadLog(dir);
      if es.Some? {
        var ok, broken := A.Verify(es.value, e.hash);
        audit := audit.(entries := es.value, chainOk := ok);
      }
      var cp := A.VerifyCheckpoint(dir, e.readCheckpoint, e.checkSignature, e.hash);
      if cp.Some? {
        audit := audit.(checkpoint := cp.value);
      }
    }

    /** `refresh_conformance`. */
    method RefreshConformance()
      requires Revisions()
      modifies this`reports, this`confRev
      ensures Revisions() && confRev == diskRev
      ensures Coherent() <==> old(Coherent())
      ensures old(Coherent()) || old(confRev) < diskRev ==> reports == if dir == null then [] else e.reports(dir.files)
    {
      hide AuditOf;
      if confRev == diskRev {
        return;
      }
      confRev := diskRev;
      reports := [];
      if dir == null {
        return;
      }
      reports := e.reports(dir.files);
    }

    // -------------------------------------------------------- changing the working copy

    /** `reload_manifest`: the revision moves on, and the manifest is read again. */
    method Reload()
      requires Revisions()
      modifies `diskRev, `members, `manifest
      ensures diskRev == old(diskRev) + 1 && Reloaded()
    {
      hide AuditOf, M.Ascii;
      manifest := None;
      diskRev := diskRev + 1;
      if dir == null {
        return;
      }
      members := dir.files.Keys;
      if MANIFEST in dir.files && e.manifestReads(dir.files[MANIFEST]) {
        manifest := Some(dir.files[MANIFEST]);
      }
    }

    /** `reset_views`: everything derived from a previous container is dropped. */
    method ResetViews()
      requires 0 <= diskRev
      modifies this
      ensures dir == old(dir) && NothingCurrent() && diskRev == old(diskRev) + 1
      ensures sigs == [] && audit == NO_AUDIT && reports == [] && sealed == [] && meta == None && schema == None
      ensures members == {} && manifest == None
    {
      hide AuditOf, M.Ascii, NO_AUDIT;
      diskRev := diskRev + 1;
      sigs, sigRev, audit, auditRev, reports, confRev := [], -1, NO_AUDIT, -1, [], -1;
      sealed, meta, schema, members, manifest := [], None, None, {}, None;
    }

    /** Opening: a new working copy, or none when reading it failed. */
    method Open(next: Dir?)
      requires Revisions()
      modifies this
      ensures Reloaded() && dir == next
      ensures diskRev == old(diskRev) + if next == null then 1 else 2
      ensures next != null ==> ModelsLoaded()
    {
      ResetViews();
      dir := next;
      if next != null {
        LoadModels();
        Reload();
      }
    }

    /** The editor's models and policy are those of the working copy. */
    ghost predicate ModelsLoaded()
      reads this, dir
    {
      dir != null && sealed == SealedIn(e, dir.files) && meta == e.metadata(dir.files) && schema == e.schema(dir.files)
    }

    /** `load_from_workdir`, before it moves the revision on. */
    method LoadModels()
      requires dir != null
      modifies this`sealed, this`meta, this`schema
      ensures ModelsLoaded()
    {
      meta, schema := e.metadata(dir.files), e.schema(dir.files);
      sealed := [];
      if POLICY in dir.files {
        var p := e.seal.readPolicy(dir.files[POLICY]);
        if p.Some? {
          sealed := p.value.files;
        }
      }
    }

    /** An edit in the properties panel: a model to be written with the next save. */
    method Edit(newMeta: Text, newSchema: Text)
      requires Revisions()
      modifies this`meta, this`schema
      ensures (Coherent() <==> old(Coherent())) && meta == Some(newMeta) && schema == Some(newSchema)
    {
      meta, schema := Some(newMeta), Some(newSchema);
    }

    /** `write_members`: the working copy itself, or a staged one. */
    method WriteMembers(content: Text, where: Dir, ensure: bool)
      modifies where
      ensures where.files == Written(e, old(where.files), sealed, content, meta, schema, ensure)
    {
      hide AuditOf, C.CanonicalText, S.Rebuilt, M.Ascii;
      if CONTENT !in sealed {
        var text := C.CanonicalizeContent(content);
        where.Write(CONTENT, text);
      }
      if meta.Some? && METADATA !in sealed {
        where.Write(METADATA, meta.value);
      }
      if schema.Some? && SCHEMA !in sealed {
        where.Write(SCHEMA, schema.value);
      }
      if ensure || MANIFEST in where.files {
        S.Rebuild(e.seal, where);
      }
    }

    /** What a save makes of the working copy. */
    ghost function Saved(content: Text, ensure: bool): Files
      reads this, dir
      requires dir != null
    {
      Written(e, dir.files, sealed, content, meta, schema, ensure)
    }

    /** `flush_working_copy`: what the editor holds is written, then the revision moves on. */
    method Flush(content: Text, ensure: bool)
      requires Revisions() && dir != null
      modifies `diskRev, `members, `manifest, dir
      ensures Reloaded() && diskRev == old(diskRev) + 1
      ensures dir.files == old(Saved(content, ensure))
    {
      hide AuditOf, Written;
      WriteMembers(content, dir, ensure);
      Reload();
    }

    /** `save_as`: a staged copy is written and packed, and the archive opened in its place. */
    method SaveAs(content: Text) returns (ok: bool)
      requires Revisions() && dir != null
      modifies this
      ensures ok <==> e.repacked(old(Saved(content, false))).Some?
      ensures Revisions() && dir != null
      ensures dir.files == if ok then e.repacked(old(Saved(content, false))).value else old(dir.files)
      ensures if ok then fresh(dir) && Reloaded() && ModelsLoaded() && diskRev > old(diskRev)
        else dir == old(dir) && diskRev == old(diskRev) && (Coherent() <==> old(Coherent()))
    {
      hide AuditOf, Written;
      var staged := new Dir(dir.files);
      WriteMembers(content, staged, false);
      var reread := e.repacked(staged.files);
      if reread.None? {
        return false;
      }
      var archive := new Dir(reread.value);
      Open(archive);
      ok := true;
    }

    /** `sign_document`. */
    method Sign(content: Text, name: Text) returns (ok: bool)
      requires Revisions() && dir != null
      modifies `diskRev, `members, `manifest, dir
      ensures Coherent() && NothingCurrent() && (ok ==> ManifestLoaded()) && diskRev == old(diskRev) + if ok then 2 else 1
      ensures ok <==> e.sign(old(Saved(content, true))).Some?
      ensures dir.files == if !ok then old(Saved(content, true))
        else old(Saved(content, true))[SignaturePath(name) := e.sign(old(Saved(content, true))).value]
      ensures Fresh()
    {
      hide AuditOf, Written, M.Ascii, S.ManifestIsFresh, Kept;
      SavedIsFresh(e, dir.files, sealed, content, meta, schema);
      Flush(content, true);
      ghost var saved := dir.files;
      var jws := e.sign(dir.files);
      if jws.None? {
        return false;
      }
      var path := FileNameOf(name);
      SignatureKeepsFresh(e, saved, name, jws.value);
      dir.Write(path, jws.value);
      Reload();
      ok := true;
    }

    /** `remove_signature`; removing what is not there is no error. */
    method RemoveSignature(path: Text)
      requires Revisions() && dir != null
      modifies `diskRev, `members, `manifest, dir
      ensures Reloaded() && diskRev == old(diskRev) + 1 && dir.files == old(dir.files) - {path}
      ensures old(Fresh()) && Jcs.Outside(path) && path != MANIFEST ==> Fresh()
    {
      hide AuditOf, Jcs.Outside, M.Ascii, S.ManifestIsFresh;
      if S.ManifestIsFresh(e.seal, dir.files) && Jcs.Outside(path) && path != MANIFEST {
        S.OutsideKeepsFresh(e.seal, dir.files, path, []);
      }
      dir.Remove(path);
      Reload();
    }

    /** `encrypt_document`: when sealing fails half-way, the flush before it has already moved the revision on. */
    method Encrypt(content: Text, dids: seq<Text>, paths: seq<Text>, cek: Text) returns (ok: bool)
      requires Revisions() && dir != null
      modifies `diskRev, `members, `manifest, `sealed, `meta, `schema, dir
      ensures Revisions()
      ensures var keys := KeysOf(e, dids);
        if dids == [] || keys.None? then
          !ok && dir.files == old(dir.files) && diskRev == old(diskRev) && (Coherent() <==> old(Coherent()))
        else
          var w := Sealing(e, old(Saved(content, true)), paths, keys.value, cek);
          ok == (w.outcome == S.Done) && dir.files == w.files && Coherent() && NothingCurrent() && diskRev == old(diskRev) + if ok then 2 else 1
      ensures if ok then ModelsLoaded() && ManifestLoaded() else sealed == old(sealed) && meta == old(meta) && schema == old(schema)
    {
      hide AuditOf, Written, S.Encrypted, KeysOf, SealedIn, M.Ascii;
      ghost var saved := Saved(content, true);
      if dids == [] {
        return false;
      }
      var keys := FindKeys(e, dids);
      if keys.None? {
        return false;
      }
      Flush(content, true);
      var outcome := S.Encrypt(e.seal, dir, if paths == [] then [CONTENT] else paths, keys.value, cek);
      if outcome != S.Done {
        return false;
      }
      LoadModels();
      Reload();
      ok := true;
    }

    /**
     * `decrypt_document`: nothing is flushed first, and a failure half-way does not move the revision
     * on. The working copy is then as it was, and every view as right as it was, exactly when the
     * container is one that failing leaves alone.
     */
    method Decrypt(secret: Text) returns (outcome: S.Outcome)
      requires Revisions() && dir != null
      modifies `diskRev, `members, `manifest, `sealed, `meta, `schema, dir
      ensures Revisions() && S.World(outcome, dir.files) == S.Decrypted(e.seal, old(dir.files), secret)
      ensures outcome == S.Done ==> Reloaded() && ModelsLoaded() && diskRev == old(diskRev) + 1
      ensures outcome != S.Done ==> diskRev == old(diskRev)
      ensures outcome != S.Done ==> (dir.files == old(dir.files) <==> S.LeavesAlone(e.seal, old(dir.files), secret))
      ensures outcome != S.Done && old(Coherent()) ==>
        (Coherent() <==> StayRight(e, old(Claims()), old(dir.files), dir.files))
      ensures outcome != S.Done && S.LeavesAlone(e.seal, old(dir.files), secret) ==> (Coherent() <==> old(Coherent()))
    {
      hide AuditOf, S.Decrypted, S.LeavesAlone;
      outcome := S.Decrypt(e.seal, dir, secret);
      if outcome != S.Done {
        S.FailureLeavesAlone(e.seal, old(dir.files), secret);
        return;
      }
      LoadModels();
      Reload();
    }

    /** The manifest of the working copy describes it. */
    ghost predicate Fresh()
      reads this, dir
    {
      dir != null && S.ManifestIsFresh(e.seal, dir.files)
    }

    /** `audit_append_entry`; the log lies outside what the manifest covers. */
    method AppendEntry(action: Text, actor: Text, timestamp: Text) returns (ok: bool)
      requires Revisions() && dir != null
      modifies `diskRev, `members, `manifest, dir
      ensures Revisions() && diskRev == old(diskRev) + if ok then 1 else 0
      ensures if ok then Reloaded() else Coherent() <==> old(Coherent())
      ensures ok <==> A.Parse(A.LogText(old(dir.files))).Some?
      ensures dir.files == if !ok then old(dir.files) else
        var text := A.LogText(old(dir.files));
        old(dir.files)[M.Ascii("audit.log") :=
          text + (timestamp + [0x09] + action + [0x09] + actor + [0x09] + A.HeadOf(A.Parse(text).value, e.hash)) + [0x0A]]
      ensures old(Fresh()) ==> Fresh()
    {
      hide AuditOf, A.Parse, A.LineOf, A.NewEntry, A.HeadOf, M.Ascii, S.ManifestIsFresh;
      ghost var was := dir.files;
      ok := A.Append(dir, action, actor, timestamp, e.hash);
      if ok && S.ManifestIsFresh(e.seal, was) { S.AuditAndSignaturesKeepFresh(e.seal, was, [], dir.files[LOG]); }
      if ok {
        Reload();
      }
    }

    /** `audit_make_checkpoint`. */
    method MakeCheckpoint() returns (ok: bool)
      requires Revisions() && dir != null
      modifies `diskRev, `members, `manifest, dir
      ensures Revisions() && diskRev == old(diskRev) + if ok then 1 else 0
      ensures if ok then Reloaded() else Coherent() <==> old(Coherent())
      ensures var es := A.Parse(A.LogText(old(dir.files)));
        ok == (es.Some? && e.signHead(A.HeadOf(es.value, e.hash)).Some?) &&
        dir.files == if !ok then old(dir.files) else
          old(dir.files)[CHECKPOINT := e.storeCheckpoint(A.HeadOf(es.value, e.hash), e.signHead(A.HeadOf(es.value, e.hash)).value)]
      ensures old(Fresh()) ==> Fresh()
    {
      hide AuditOf, A.Parse, A.HeadOf, M.Ascii, S.ManifestIsFresh;
      ghost var was := dir.files;
      ok := A.SignCheckpoint(dir, e.signHead, e.storeCheckpoint, e.hash);
      if ok && S.ManifestIsFresh(e.seal, was) { S.AuditAndSignaturesKeepFresh(e.seal, was, [], dir.files[CHECKPOINT]); }
      if ok {
        Reload();
      }
    }

    // -------------------------------------------------------- any sequence of operations

    /** The operation leaves what current views show: everything but a decryption does. */
    ghost predicate Keeps(op: Op)
      reads this, dir
    {
      op.OpDecrypt? && dir != null ==>
        StayRight(e, Claims(), dir.files, S.Decrypted(e.seal, dir.files, op.secret).files)
    }

    /** One operation; without a working copy there is nothing to operate on. */
    method Perform(op: Op) returns (failed: bool)
      requires Revisions()
      modifies this, dir
      ensures Revisions() && old(diskRev) <= diskRev && (dir == old(dir) || dir == null || fresh(dir))
      ensures diskRev > old(diskRev) || (old(Coherent()) && old(Keeps(op))) ==> Coherent()
      ensures old(Coherent()) && Coherent() ==> diskRev > old(diskRev) || old(Keeps(op))
      ensures if failed then op.OpDecrypt? else diskRev > old(diskRev) || old(Keeps(op))
    {
      hide AuditOf, Written, S.Decrypted, S.LeavesAlone, Coherent, StayRight;
      failed := false;
      match op
      case OpOpen(found) =>
        if found.None? {
          Open(null);
        } else {
          var archive := new Dir(found.value);
          Open(archive);
        }
      case OpShow(view) =>
        if view == 0 { RefreshSignatures(); } else if view == 1 { RefreshAudit(); } else { RefreshConformance(); }
      case OpEdit(newMeta, newSchema) => Edit(newMeta, newSchema);
      case OpDecrypt(secret) =>
        if dir != null {
          var outcome := Decrypt(secret);
          failed := outcome != S.Done;
        }
      case _ => if dir != null { Change(op); }
    }

    /** An operation that changes the working copy and is no decryption. */
    method Change(op: Op)
      requires Revisions() && dir != null && !op.OpOpen? && !op.OpShow? && !op.OpEdit? && !op.OpDecrypt?
      modifies this, dir
      ensures Revisions() && old(diskRev) <= diskRev && (dir == old(dir) || fresh(dir))
      ensures Coherent() <==> diskRev > old(diskRev) || old(Coherent())
    {
      hide AuditOf, Written, Coherent;
      match op
      case OpSave(content, ensure) => Flush(content, ensure);
      case OpSaveAs(content) => var ok := SaveAs(content);
      case OpSign(content, name) => var ok := Sign(content, name);
      case OpRemove(path) => RemoveSignature(path);
      case OpEncrypt(content, dids, paths, cek) => var ok := Encrypt(content, dids, paths, cek);
      case OpAppend(action, actor, timestamp) => var ok := AppendEntry(action, actor, timestamp);
      case OpCheckpoint => var ok := MakeCheckpoint();
    }

    /**
     * After any sequence of operations, every cached view that claims to be current is current,
     * unless a decryption failed after rewriting what some view shows and nothing has moved the
     * revision on since.
     */
    method PerformAll(ops: seq<Op>) returns (failed: set<nat>, ghost steps: seq<Step>)
      requires Coherent()
      modifies this, dir
      ensures forall i :: i in failed ==> i < |ops| && ops[i].OpDecrypt?
      ensures |steps| == |ops| && forall i :: 0 <= i < |ops| && i !in failed ==> steps[i].moved || steps[i].kept
      ensures Right(steps) ==> Coherent()
      ensures failed == {} ==> Coherent()
    {
      assert Revisions();
      hide Coherent, Keeps;
      failed, steps := {}, [];
      for i := 0 to |ops|
        invariant Revisions() && (dir == old(dir) || dir == null || fresh(dir))
        invariant forall k :: k in failed ==> k < i && ops[k].OpDecrypt?
        invariant |steps| == i && forall k :: 0 <= k < i && k !in failed ==> steps[k].moved || steps[k].kept
        invariant Right(steps) ==> Coherent()
      {
        ghost var was, keeps := diskRev, Keeps(ops[i]);
        var bad := Perform(ops[i]);
        if bad {
          failed := failed + {i};
        }
        ghost var step := Step(diskRev > was, keeps);
        assert (steps + [step])[..|steps|] == steps;
        steps := steps + [step];
      }
      if forall i :: 0 <= i < |steps| ==> steps[i].moved || steps[i].kept { AllRight(steps); }
    }
  }

  /** What one operation did: moved the revision on, or kept what current views show. */
  datatype Step = Step(moved: bool, kept: bool)

  ghost predicate Right(steps: seq<Step>) {
    steps == [] || steps[|steps| - 1].moved || (steps[|steps| - 1].kept && Right(steps[..|steps| - 1]))
  }

  lemma {:induction false} AllRight(steps: seq<Step>)
    requires forall i :: 0 <= i < |steps| ==> steps[i].moved || steps[i].kept
    ensures Right(steps)
  {
    if steps != [] { AllRight(steps[..|steps| - 1]); }
  }

  /** The loop of `encrypt_document` over the recipients. */
  method FindKeys(e: Engine, dids: seq<Text>) returns (keys: Option<seq<Text>>)
    ensures keys == KeysOf(e, dids)
  {
    var found: seq<Text> := [];
    for i := 0 to |dids|
      invariant KeysOf(e, dids[..i]) == Some(found)
    {
      assert dids[..i + 1][..i] == dids[..i];
      var key := e.recipientKey(dids[i]);
      if key.None? {
        NoKeys(e, dids, i + 1);
        return None;
      }
      found := found + [key.value];
    }
    assert dids[..|dids|] == dids;
    keys := Some(found);
  }

  /** The name filter of `sign_document`. */
  method FileNameOf(name: Text) returns (path: Text)
    ensures path == SignaturePath(name)
  {
    var kept: Text := [];
    for i := 0 to |name|
      invariant kept == Kept(name[..i])
    {
      assert name[..i + 1][..i] == name[..i];
      if InFileName(name[i]) {
        kept := kept + [name[i]];
      }
    }
    assert name[..|name|] == name;
    hide Kept, M.Ascii;
    if kept == [] {
      kept := M.Ascii("author");
    }
    path := M.Ascii("signatures/") + kept + M.Ascii(".sig");
  }

  datatype Op =
    | OpOpen(found: Option<Files>)
    | OpShow(view: nat)
    | OpEdit(newMeta: Text, newSchema: Text)
    | OpSave(content: Text, ensure: bool)
    | OpSaveAs(content: Text)
    | OpSign(content: Text, name: Text)
    | OpRemove(path: Text)
    | OpEncrypt(content: Text, dids: seq<Text>, paths: seq<Text>, cek: Text)
    | OpDecrypt(secret: Text)
    | OpAppend(action: Text, actor: Text, timestamp: Text)
    | OpCheckpoint

  // ------------------------------------------------------------ decryptions that fail

  /** The audit panel shows the same of both: the same entries and, if there are any to read, the same checkpoint. */
  ghost predicate SameAudit(before: Files, after: Files) {
    A.Parse(A.LogText(before)) == A.Parse(A.LogText(after)) &&
    (A.Parse(A.LogText(before)).Some? ==>
      (CHECKPOINT in before <==> CHECKPOINT in after) &&
      (CHECKPOINT in before ==> before[CHECKPOINT] == after[CHECKPOINT]))
  }

  /** An engine that tells every change apart. */
  ghost function Telling(t: S.Tools, before: Files): Engine {
    Engine(f => if f == before then [] else [[]], f => if f == before then [] else [[]], f => None, x => x,
           x => Some((x, [])), (head, signature) => [], (signature, head) => Some(A.Checked(false, [])), x => None, t,
           f => None, f => None, x => None, x => true, f => None)
  }

  lemma TellsAudit(t: S.Tools, before: Files, after: Files)
    requires AuditOf(Telling(t, before), before) == AuditOf(Telling(t, before), after)
    ensures SameAudit(before, after)
  {
    hide A.Parse, A.HeadIntact, M.Ascii, A.LineOf;
    var e := Telling(t, before);
    assert A.ChainValid([], e.hash);
  }

  lemma SameAuditSameView(e: Engine, before: Files, after: Files)
    requires SameAudit(before, after)
    ensures AuditOf(e, before) == AuditOf(e, after)
  {
    hide A.Parse, A.HeadIntact, M.Ascii, A.ChainValid;
  }

  /** Whatever the engine computes, the views stay right exactly when what they show did not change. */
  lemma StayRightExactly(t: S.Tools, shown: Shown, before: Files, after: Files)
    ensures (forall e: Engine :: e.seal == t ==> StayRight(e, shown, before, after)) <==>
      (shown.signatures || shown.reports ==> before == after) && (shown.audit ==> SameAudit(before, after))
  {
    hide AuditOf, SameAudit;
    if (shown.signatures || shown.reports ==> before == after) && (shown.audit ==> SameAudit(before, after)) {
      forall e: Engine | e.seal == t ensures StayRight(e, shown, before, after) {
        if shown.audit { SameAuditSameView(e, before, after); }
      }
    } else {
      var e := Telling(t, before);
      if shown.audit && !SameAudit(before, after) && AuditOf(e, before) == AuditOf(e, after) { TellsAudit(t, before, after); }
      assert e.seal == t && !StayRight(e, shown, before, after);
    }
  }

  /** What the audit members hold once a failed decryption has opened them. */
  ghost predicate LeavesAuditAlone(t: S.Tools, files: Files, secret: Text) {
    POLICY !in files || t.readPolicy(files[POLICY]).None? ||
    (var p := t.readPolicy(files[POLICY]).value;
     var k := S.KeyFor(t, p.recipients, secret).0;
     k.None? ||
     (var done := p.files[..S.Reach(t, files, p.files, k.value)];
      var log := if LOG in files then S.OpenedAs(t, k.value, LOG, files[LOG], done) else [];
      A.Parse(A.LogText(files)) == A.Parse(log) &&
      (A.Parse(log).Some? && CHECKPOINT in files ==>
        S.OpenedAs(t, k.value, CHECKPOINT, files[CHECKPOINT], done) == files[CHECKPOINT])))
  }

  /**
   * Whether cached views survive a decryption that fails can be said of the state before it: always
   * when none is current; signatures and reports exactly when failing leaves the container alone; the
   * audit view exactly when it leaves the audit members alone.
   */
  lemma ViewsSurviveExactly(t: S.Tools, files: Files, secret: Text, shown: Shown)
    requires S.Decrypted(t, files, secret).outcome != S.Done
    ensures (forall e: Engine :: e.seal == t ==> StayRight(e, shown, files, S.Decrypted(t, files, secret).files)) <==>
      (shown.signatures || shown.reports ==> S.LeavesAlone(t, files, secret)) &&
      (shown.audit ==> LeavesAuditAlone(t, files, secret))
  {
    hide S.Decrypted, S.LeavesAlone, SameAudit, LeavesAuditAlone, StayRight;
    var after := S.Decrypted(t, files, secret).files;
    StayRightExactly(t, shown, files, after);
    S.FailureLeavesAlone(t, files, secret);
    AuditLeftAlone(t, files, secret);
  }

  lemma AuditLeftAlone(t: S.Tools, files: Files, secret: Text)
    requires S.Decrypted(t, files, secret).outcome != S.Done
    ensures SameAudit(files, S.Decrypted(t, files, secret).files) <==> LeavesAuditAlone(t, files, secret)
  {
    hide S.KeyFor, S.OpenAll, S.OpenedAs, S.Reach, M.Ascii, S.AttestationReadable, S.AttestationHolds, A.Parse;
    if POLICY in files && t.readPolicy(files[POLICY]).Some? {
      var p := t.readPolicy(files[POLICY]).value;
      var k := S.KeyFor(t, p.recipients, secret).0;
      if k.Some? { S.OpensUpTo(t, files, p.files, k.value); }
    }
  }

  /** Opening that fails at the second of two members has already rewritten the first. */
  lemma FailsHalfway(t: S.Tools, files: Files, secret: Text, key: Text, first: Text, second: Text)
    requires POLICY in files && first in files && second in files && first != second
    requires var p := t.readPolicy(files[POLICY]);
      p.Some? && p.value.files == [first, second] && S.KeyFor(t, p.value.recipients, secret).0 == Some(key)
    requires t.open(key, first, files[first]).Some? && t.open(key, second, files[second]).None?
    ensures S.Decrypted(t, files, secret) == S.World(S.Rejected, files[first := t.open(key, first, files[first]).value])
  {
    hide S.KeyFor, M.Ascii;
    var next := files[first := t.open(key, first, files[first]).value];
    S.OpenFirst(t, files, first, [second], key);
    S.OpenFirst(t, next, second, [], key);
    assert [first, second] == [first] + [second] && [second] + [] == [second];
  }

  const FIRST: Text := [0x61]
  const SECOND: Text := [0x62]

  /** A key opens one member and not the other; what is shown of signatures is the first member. */
  function HalfOpen(): Engine {
    var policy := P.Policy([], [], [FIRST, SECOND], None, [P.Recipient([], [], [])]);
    var tools := S.Tools(
      (key, path, nonce, text) => None, (key, path, text) => if path == FIRST then Some([1]) else None, n => [],
      (key, payload) => None, (secret, enc, text) => Some([]), key => None, secret => Some([]), text => None, text => None,
      text => Some(policy), files => []);
    Engine(f => if FIRST in f then [f[FIRST]] else [], f => [], f => None, x => [], x => None, (head, signature) => [],
           (signature, head) => None, x => None, tools, f => None, f => None, x => None, x => true, f => None)
  }

  function HalfSealed(): Files {
    map[POLICY := [], FIRST := [2], SECOND := [2]]
  }

  lemma HalfOpens()
    ensures S.Decrypted(HalfOpen().seal, HalfSealed(), []) == S.World(S.Rejected, HalfSealed()[FIRST := [1]])
    ensures HalfOpen().signatures(HalfSealed()) == [[2]] && HalfOpen().signatures(HalfSealed()[FIRST := [1]]) == [[1]]
  {
    assert POLICY[0] == 0x65 && FIRST[0] == 0x61 && SECOND[0] == 0x62;
    hide M.Ascii, S.Decrypted;
    var t, files := HalfOpen().seal, HalfSealed();
    var r := P.Recipient([], [], []);
    NothingDecodes();
    assert S.EntryOf([r], []) == Some(r);
    FailsHalfway(t, files, [], [], FIRST, SECOND);
  }

  lemma NothingDecodes()
    ensures S.Decoded([]) == Some([])
  {
    assert S.Spelling([]) == [];
  }

  /** A document in which a view that claims to be current is not: shown, then a decryption that fails half-way. */
  method StaleView() returns (d: Doc)
    ensures fresh(d) && d.dir != null && d.Revisions()
    ensures d.sigRev == d.diskRev && d.sigs == [[2]] && d.e.signatures(d.dir.files) == [[1]] && !d.Coherent()
  {
    hide AuditOf, S.Decrypted, S.LeavesAlone, M.Ascii, StayRight, HalfOpen;
    HalfOpens();
    d := new Doc(HalfOpen());
    var dir := new Dir(HalfSealed());
    d.Open(dir);
    d.RefreshSignatures();
    var outcome := d.Decrypt([]);
  }
}
