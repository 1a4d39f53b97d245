/** The texts the writers produce, byte by byte as the source spells them. */
module Formats {
  import opened Bytes
  import opened Json
  import opened Yaml
  import A = Audit
  import D = Metadata
  import M = Manifest
  import P = Policy
  import S = Schema
  import Seal
  import V = Verify

  // ------------------------------------------------------------ JSON

  /** The escapes: `\"`, `\\`, `\b`, `\t`, `\n`, `\f`, `\r`, and four lower-case digits for any other control byte. */
  lemma EscapesSpelled(c: byte)
    ensures EscapeByte(0x22) == [0x5C, 0x22] && EscapeByte(0x5C) == [0x5C, 0x5C]
    ensures EscapeByte(0x08) == [0x5C, 0x62] && EscapeByte(0x09) == [0x5C, 0x74] && EscapeByte(0x0A) == [0x5C, 0x6E]
    ensures EscapeByte(0x0C) == [0x5C, 0x66] && EscapeByte(0x0D) == [0x5C, 0x72]
    ensures c < 0x20 && c !in [0x08, 0x09, 0x0A, 0x0C, 0x0D] ==>
      EscapeByte(c) == M.Ascii("\\u00") + [0x30 + c / 16, M.Ascii("0123456789abcdef")[c % 16]]
    ensures c >= 0x20 && c != 0x22 && c != 0x5C ==> EscapeByte(c) == [c]
  {
  }

  /** A digest is written in lower-case hexadecimal, most significant digit first. */
  lemma {:induction false} HexSpelled(digest: seq<byte>, i: nat)
    requires i < |digest|
    ensures var t, digits := V.HexOf(digest), M.Ascii("0123456789abcdef");
      t[2 * i] == digits[digest[i] / 16] && t[2 * i + 1] == digits[digest[i] % 16]
    decreases i
  {
    hide M.Ascii, HexDigit;
    FirstByte(digest);
    if i > 0 {
      HexSpelled(digest[1..], i - 1);
      assert V.HexOf(digest)[2..][2 * (i - 1)] == V.HexOf(digest)[2 * i];
    }
  }

  lemma FirstByte(digest: seq<byte>)
    requires digest != []
    ensures var t, digits := V.HexOf(digest), M.Ascii("0123456789abcdef");
      t[0] == digits[digest[0] / 16] && t[1] == digits[digest[0] % 16] && t[2..] == V.HexOf(digest[1..])
  {
    hide M.Ascii, HexDigit;
    DigitSpelled(digest[0] / 16);
    DigitSpelled(digest[0] % 16);
  }

  lemma DigitSpelled(n: nat)
    requires n < 16
    ensures HexDigit(n) == M.Ascii("0123456789abcdef")[n]
  {
  }

  ghost predicate Printable(s: string) {
    forall i :: 0 <= i < |s| ==> ' ' <= s[i] <= '~'
  }

  /** A JSON string of plain characters. */
  ghost function Q(s: string): Text
    requires Printable(s)
  {
    [0x22] + M.Ascii(s) + [0x22]
  }

  /** A YAML key before its value. */
  ghost function K(k: string): Text
    requires Printable(k)
  {
    M.Ascii(k) + [0x3A, 0x20]
  }

  lemma QuotedIs(s: string)
    requires Printable(s) && '"' !in s && '\\' !in s
    ensures Quoted(M.Ascii(s)) == Q(s)
  {
    var a := M.Ascii(s);
    forall i | 0 <= i < |a| ensures a[i] >= 0x20 && a[i] != QUOTE && a[i] != BACKSLASH { assert s[i] in s; }
    PlainEscape(a);
  }

  /** manifest.json: the files, the algorithm and the version, with nothing between. */
  lemma ManifestSpelled(fs: seq<M.File>, version: Text)
    ensures M.ManifestText(fs, version) ==
      [0x7B] + Q("files") + [0x3A, 0x7B] + M.Items(fs, true) + [0x7D] +
      ([0x2C] + (Q("hash_algorithm") + [0x3A] + Q("sha256")) +
       [0x2C] + (Q("mcdf_version") + [0x3A] + Quoted(version)) + [0x7D])
  {
    hide Quoted, M.Items, M.Ascii, Q;
    QuotedIs("files");
    QuotedIs("sha256");
    QuotedIs("hash_algorithm");
    QuotedIs("mcdf_version");
  }

  lemma FileSpelled(f: M.File, first: bool)
    ensures M.Items([f], first) == (if first then [] else [0x2C]) + Quoted(f.path) + [0x3A] + Quoted(f.hash)
  {
    hide Quoted;
    assert [f][1..] == [] && M.Items([], false) == [];
  }

  // ------------------------------------------------------------ the audit log

  /** The first entry of a log names sixty-four zeros. */
  lemma GenesisSpelled(hash: A.Hash)
    ensures A.HeadOf([], hash) == M.Ascii("0000000000000000") + M.Ascii("0000000000000000") + M.Ascii("0000000000000000") + M.Ascii("0000000000000000")
  {
  }

  // ------------------------------------------------------------ metadata.yaml

  ghost function AuthorsText(authors: seq<D.Author>): Text {
    if authors == [] then []
    else
      M.Ascii("  - ") + K("name") + Scalar(authors[0].name) + [0x0A] +
      M.Ascii("    ") + K("id") + Scalar(authors[0].id) + [0x0A] + AuthorsText(authors[1..])
  }

  lemma JoinTwo(a: Text, ls: seq<Text>)
    ensures JoinLines([a] + ls) == a + [LF] + JoinLines(ls) && JoinLines([]) == []
  {
    assert ([a] + ls)[1..] == ls;
  }

  lemma ThreeLines(a: Text, b: Text, c: Text, rest: seq<Text>)
    ensures JoinLines([a] + ([b] + ([c] + rest))) == a + [LF] + (b + [LF] + (c + [LF] + JoinLines(rest)))
  {
    hide JoinLines;
    JoinTwo(a, [b] + ([c] + rest));
    JoinTwo(b, [c] + rest);
    JoinTwo(c, rest);
  }

  /** A key as the writers put it before a value. */
  lemma KeyIs(k: string, v: Text)
    requires Printable(k) && v != []
    ensures Entry(M.Ascii(k), v) == K(k) + v
  {
  }

  lemma ScalarNotEmpty(s: Text)
    ensures Scalar(s) != []
  {
    ScalarIsSnug(s);
  }

  /** One top-level line. */
  lemma TopIs(k: string, s: Text)
    requires Printable(k)
    ensures JoinLines(D.TopLines([D.Top(M.Ascii(k), Scalar(s))])) == K(k) + Scalar(s) + [0x0A]
  {
    hide Scalar, M.Ascii, K, JoinLines;
    ScalarNotEmpty(s);
    KeyIs(k, Scalar(s));
    var t := D.Top(M.Ascii(k), Scalar(s));
    assert [t][1..] == [] && D.TopLines([]) == [];
    assert D.TopLines([t]) == [Entry(t.key, t.value)] + [];
    JoinTwo(Entry(t.key, t.value), []);
  }

  lemma {:induction false} AuthorsSpelled(authors: seq<D.Author>)
    ensures JoinLines(D.AuthorLines(authors)) == AuthorsText(authors)
  {
    hide Scalar, M.Ascii, K, JoinLines;
    if authors == [] {
      JoinTwo([], []);
    } else {
      var n, i := Scalar(authors[0].name), Scalar(authors[0].id);
      AuthorsSpelled(authors[1..]);
      ScalarNotEmpty(authors[0].name);
      ScalarNotEmpty(authors[0].id);
      ItemIs("name", n);
      InnerIs("id", i);
      var a, b, rest := ItemLine(Entry(D.NAME, n)), InnerLine(Entry(D.ID, i)), D.AuthorLines(authors[1..]);
      assert D.AuthorLines(authors) == [a] + ([b] + rest);
      JoinTwo(a, [b] + rest);
      JoinTwo(b, rest);
    }
  }

  lemma ItemIs(k: string, v: Text)
    requires Printable(k) && v != []
    ensures ItemLine(Entry(M.Ascii(k), v)) == M.Ascii("  - ") + K(k) + v
  {
    Indents();
    KeyIs(k, v);
    hide M.Ascii, K, Entry;
  }

  lemma InnerIs(k: string, v: Text)
    requires Printable(k) && v != []
    ensures InnerLine(Entry(M.Ascii(k), v)) == M.Ascii("    ") + K(k) + v
  {
    Indents();
    KeyIs(k, v);
    hide M.Ascii, K, Entry;
  }

  /** The keys before the authors' block, and the key that opens it. */
  ghost function MetadataFront(m: D.Meta): Text {
    K("title") + Scalar(m.title) + [0x0A] +
    K("version") + Scalar(m.version) + [0x0A] +
    (if m.authors == [] then M.Ascii("authors: []") + [0x0A] else M.Ascii("authors:") + [0x0A])
  }

  ghost function MetadataBack(m: D.Meta): Text {
    K("created_at") + Scalar(m.createdAt) + [0x0A] +
    K("classification") + Scalar(m.classification) + [0x0A] +
    K("language") + Scalar(m.language) + [0x0A] +
    match m.generatedBy case None => [] case Some(g) => K("generated_by") + Scalar(g) + [0x0A]
  }

  lemma FrontSpelled(m: D.Meta)
    ensures JoinLines(D.TopLines(D.Before(m))) == MetadataFront(m)
  {
    AuthorsKey();
    hide Scalar, JoinLines, D.TopLines, M.Ascii, K;
    D.WrittenBefore(m);
    TopIs("title", m.title);
    TopIs("version", m.version);
  }

  lemma BackSpelled(m: D.Meta)
    ensures JoinLines(D.TopLines(D.After(m))) == MetadataBack(m)
  {
    hide Scalar, JoinLines, D.TopLines, M.Ascii, K;
    D.WrittenAfter(m);
    TopIs("created_at", m.createdAt);
    TopIs("classification", m.classification);
    TopIs("language", m.language);
    if m.generatedBy.Some? { TopIs("generated_by", m.generatedBy.value); }
  }

  /** metadata.yaml, key by key in the order of the source. */
  lemma MetadataSpelled(m: D.Meta)
    ensures JoinLines(D.MetaLines(m)) == MetadataFront(m) + AuthorsText(m.authors) + MetadataBack(m)
  {
    hide Scalar, JoinLines, D.TopLines, D.AuthorLines, M.Ascii, AuthorsText, MetadataFront, MetadataBack;
    FrontSpelled(m);
    BackSpelled(m);
    AuthorsSpelled(m.authors);
    D.JoinConcat(D.AuthorLines(m.authors), D.TopLines(D.After(m)));
    D.JoinConcat(D.TopLines(D.Before(m)), D.AuthorLines(m.authors) + D.TopLines(D.After(m)));
  }

  lemma AuthorsKey()
    ensures D.AUTHORS + [COLON, SPACE, LBRACKET, RBRACKET, LF] == M.Ascii("authors: []") + [0x0A]
    ensures D.AUTHORS + [COLON, LF] == M.Ascii("authors:") + [0x0A]
  {
  }

  // ------------------------------------------------------------ schema.yaml

  ghost function SectionsText(ss: seq<S.Section>): Text {
    if ss == [] then []
    else
      M.Ascii("  - ") + K("id") + Scalar(ss[0].id) + [0x0A] + (
      M.Ascii("    ") + K("title") + Scalar(ss[0].title) + [0x0A] + (
      M.Ascii("    ") + K("required") + (if ss[0].required then M.Ascii("true") else M.Ascii("false")) + [0x0A] + SectionsText(ss[1..])))
  }

  lemma SectionKeys(s: S.Section)
    ensures S.IdLine(s) == M.Ascii("  - ") + K("id") + Scalar(s.id)
    ensures S.TitleLine(s) == M.Ascii("    ") + K("title") + Scalar(s.title)
    ensures S.RequiredLine(s) == M.Ascii("    ") + K("required") + if s.required then M.Ascii("true") else M.Ascii("false")
  {
    hide Scalar, Entry, ItemLine, InnerLine, M.Ascii, K;
    ScalarNotEmpty(s.id);
    ScalarNotEmpty(s.title);
    TruthIsText(s.required);
    ItemIs("id", Scalar(s.id));
    InnerIs("title", Scalar(s.title));
    InnerIs("required", if s.required then S.YES else S.NO);
  }

  lemma TruthIsText(b: bool)
    ensures (if b then S.YES else S.NO) != []
  {
  }

  lemma {:induction false} SectionsSpelled(ss: seq<S.Section>)
    ensures JoinLines(S.SectionLines(ss)) == SectionsText(ss)
  {
    hide Scalar, M.Ascii, K, JoinLines, S.IdLine, S.TitleLine, S.RequiredLine;
    if ss == [] {
      JoinTwo([], []);
    } else {
      SectionKeys(ss[0]);
      SectionsSpelled(ss[1..]);
      ThreeLines(S.IdLine(ss[0]), S.TitleLine(ss[0]), S.RequiredLine(ss[0]), S.SectionLines(ss[1..]));
    }
  }

  /** schema.yaml: the type when there is one, then the sections. */
  lemma SchemaSpelled(d: S.Document)
    ensures JoinLines(S.SchemaLines(d)) ==
      (if d.documentType == [] then [] else K("document_type") + Scalar(d.documentType) + [0x0A]) +
      (if d.sections == [] then M.Ascii("sections: []") else M.Ascii("sections:")) + [0x0A] + SectionsText(d.sections)
  {
    hide Scalar, M.Ascii, K, JoinLines, S.SectionLines, SectionsText, Entry;
    var head := Entry(S.SECTIONS, if d.sections == [] then D.NOTHING else []);
    var rest := [head] + S.SectionLines(d.sections);
    SectionsSpelled(d.sections);
    SectionsKey(d);
    JoinTwo(head, S.SectionLines(d.sections));
    ScalarNotEmpty(d.documentType);
    KeyIs("document_type", Scalar(d.documentType));
    JoinTwo(Entry(S.TYPE, Scalar(d.documentType)), rest);
    assert [] + rest == rest;
  }

  lemma SectionsKey(d: S.Document)
    ensures Entry(S.SECTIONS, if d.sections == [] then D.NOTHING else []) ==
      if d.sections == [] then M.Ascii("sections: []") else M.Ascii("sections:")
  {
  }

  // ------------------------------------------------------------ policy.yaml

  ghost function FilesText(fs: seq<Text>): Text {
    if fs == [] then [] else M.Ascii("  - ") + fs[0] + [0x0A] + FilesText(fs[1..])
  }

  ghost function BoundText(ss: seq<Text>): Text {
    if ss == [] then [] else M.Ascii("    - ") + ss[0] + [0x0A] + BoundText(ss[1..])
  }

  ghost function RecipientsText(rs: seq<P.Recipient>): Text {
    if rs == [] then []
    else
      M.Ascii("  - ") + K("id") + rs[0].id + [0x0A] + (
      M.Ascii("    ") + K("enc") + rs[0].enc + [0x0A] + (
      M.Ascii("    ") + K("wrapped_key") + rs[0].wrappedKey + [0x0A] + RecipientsText(rs[1..])))
  }

  ghost function StructureText(p: P.Policy): Text {
    match p.bound
    case None => []
    case Some(ss) =>
      M.Ascii("structure:") + [0x0A] +
      (if ss == [] then M.Ascii("  ") + K("bound_sections") + M.Ascii("[]") + [0x0A] else M.Ascii("  bound_sections:") + [0x0A] + BoundText(ss))
  }

  lemma RawIs(k: string, v: Text)
    requires Printable(k)
    ensures P.Raw(M.Ascii(k), v) == K(k) + v
  {
  }

  lemma Indents()
    ensures M.Ascii("  - ") == [SPACE, SPACE, DASH, SPACE] && M.Ascii("    - ") == [SPACE, SPACE, SPACE, SPACE, DASH, SPACE]
    ensures M.Ascii("    ") == [SPACE, SPACE, SPACE, SPACE]
  {
  }

  lemma {:induction false} FilesSpelled(fs: seq<Text>)
    ensures JoinLines(P.Items(fs)) == FilesText(fs)
  {
    Indents();
    hide M.Ascii, JoinLines;
    if fs == [] {
      JoinTwo([], []);
    } else {
      FilesSpelled(fs[1..]);
      JoinTwo(ItemLine(fs[0]), P.Items(fs[1..]));
    }
  }

  lemma {:induction false} BoundSpelled(ss: seq<Text>)
    ensures JoinLines(P.BoundItems(ss)) == BoundText(ss)
  {
    Indents();
    hide M.Ascii, JoinLines;
    if ss == [] {
      JoinTwo([], []);
    } else {
      BoundSpelled(ss[1..]);
      var l := InnerLine([DASH, SPACE] + ss[0]);
      assert l == M.Ascii("    - ") + ss[0];
      JoinTwo(l, P.BoundItems(ss[1..]));
    }
  }

  lemma RecipientKeys(r: P.Recipient)
    ensures ItemLine(P.Raw(D.ID, r.id)) == M.Ascii("  - ") + K("id") + r.id
    ensures InnerLine(P.Raw(P.ENC, r.enc)) == M.Ascii("    ") + K("enc") + r.enc
    ensures InnerLine(P.Raw(P.WRAPPED, r.wrappedKey)) == M.Ascii("    ") + K("wrapped_key") + r.wrappedKey
  {
    Indents();
    RawIs("id", r.id);
    RawIs("enc", r.enc);
    RawIs("wrapped_key", r.wrappedKey);
    hide M.Ascii, P.Raw, K;
  }

  lemma {:induction false} RecipientsSpelled(rs: seq<P.Recipient>)
    ensures JoinLines(P.RecipientLines(rs)) == RecipientsText(rs)
  {
    hide M.Ascii, K, JoinLines, P.Raw, ItemLine, InnerLine;
    if rs == [] {
      JoinTwo([], []);
    } else {
      RecipientKeys(rs[0]);
      RecipientsSpelled(rs[1..]);
      var a, b, c := ItemLine(P.Raw(D.ID, rs[0].id)), InnerLine(P.Raw(P.ENC, rs[0].enc)), InnerLine(P.Raw(P.WRAPPED, rs[0].wrappedKey));
      var rest := P.RecipientLines(rs[1..]);
      assert P.RecipientLines(rs) == [a] + ([b] + ([c] + rest));
      ThreeLines(a, b, c, rest);
    }
  }

  lemma StructureKeys()
    ensures P.STRUCTURE + [COLON] == M.Ascii("structure:")
    ensures [SPACE, SPACE] + P.Raw(P.BOUND, D.NOTHING) == M.Ascii("  ") + K("bound_sections") + M.Ascii("[]")
    ensures [SPACE, SPACE] + P.BOUND + [COLON] == M.Ascii("  bound_sections:")
  {
  }

  lemma StructureSpelled(p: P.Policy)
    ensures JoinLines(P.BoundLines(p)) == StructureText(p)
  {
    StructureKeys();
    hide M.Ascii, K, JoinLines, P.Raw, P.BoundItems, BoundText;
    JoinTwo([], []);
    if p.bound.Some? {
      var ss := p.bound.value;
      P.BoundLinesAre(p);
      BoundSpelled(ss);
      JoinTwo(P.STRUCTURE + [COLON], P.BoundInner(ss));
      if ss == [] {
        JoinTwo([SPACE, SPACE] + P.Raw(P.BOUND, D.NOTHING), []);
        assert P.BoundInner(ss) == [[SPACE, SPACE] + P.Raw(P.BOUND, D.NOTHING)] + [];
      } else {
        JoinTwo([SPACE, SPACE] + P.BOUND + [COLON], P.BoundItems(ss));
      }
    }
  }

  lemma PolicyKeys(p: P.Policy)
    ensures P.Raw(P.METHOD, p.cipher) == K("method") + p.cipher
    ensures P.Raw(P.MANAGEMENT, p.management) == K("key_management") + p.management
    ensures P.ENCRYPTED + [COLON] == M.Ascii("encrypted_files:") && P.RECIPIENTS + [COLON] == M.Ascii("recipients:")
  {
    RawIs("method", p.cipher);
    RawIs("key_management", p.management);
  }

  /** encryption/policy.yaml, key by key in the order of the source. */
  lemma PolicySpelled(p: P.Policy)
    ensures JoinLines(P.PolicyLines(p)) ==
      K("method") + p.cipher + [0x0A] + K("key_management") + p.management + [0x0A] +
      M.Ascii("encrypted_files:") + [0x0A] + FilesText(p.files) + StructureText(p) +
      M.Ascii("recipients:") + [0x0A] + RecipientsText(p.recipients)
  {
    PolicyKeys(p);
    hide M.Ascii, K, JoinLines, P.Raw, P.Items, P.BoundLines, P.RecipientLines, FilesText, StructureText, RecipientsText;
    var rs := P.RecipientLines(p.recipients);
    FilesSpelled(p.files);
    StructureSpelled(p);
    RecipientsSpelled(p.recipients);
    D.JoinConcat(P.Items(p.files), P.Tail(p));
    D.JoinConcat(P.BoundLines(p), [P.RECIPIENTS + [COLON]] + rs);
    JoinTwo(P.RECIPIENTS + [COLON], rs);
    var a, b, c, more := P.Raw(P.METHOD, p.cipher), P.Raw(P.MANAGEMENT, p.management), P.ENCRYPTED + [COLON], P.Items(p.files) + P.Tail(p);
    assert [a, b, c] + more == [a] + ([b] + ([c] + more));
    ThreeLines(a, b, c, more);
  }


  /** What the policy says of the ciphers and the members. */
  ghost function PolicyFront(paths: seq<Text>): Text {
    K("method") + M.Ascii("aes-256-gcm") + [0x0A] + K("key_management") + M.Ascii("hpke") + [0x0A] +
    M.Ascii("encrypted_files:") + [0x0A] + FilesText(paths)
  }

  /** The policy that sealing leaves in a container. */
  lemma SealedPolicySpelled(t: Seal.Tools, files: Seal.Files, paths: seq<Text>, keys: seq<Text>, cek: Text)
    requires Seal.Encrypted(t, files, paths, keys, cek).outcome == Seal.Done
    ensures var after, at := Seal.Encrypted(t, files, paths, keys, cek).files, M.Ascii("encryption/policy.yaml");
      at in after && PolicyFront(paths) <= after[at]
  {
    hide Seal.Attested, Seal.Recipients, Seal.SealAll, Seal.Covered, Seal.Encrypted, Seal.PolicyText, PolicyFront, M.Ascii;
    var p := Seal.PolicyWritten(t, files, paths, keys, cek);
    FrontOfPolicy(p);
  }

  lemma FrontOfPolicy(p: P.Policy)
    requires p.cipher == M.Ascii("aes-256-gcm") && p.management == M.Ascii("hpke")
    ensures PolicyFront(p.files) <= Seal.PolicyText(p)
  {
    PolicySpelled(p);
    hide JoinLines, P.PolicyLines, K, M.Ascii, FilesText, StructureText, RecipientsText;
  }
}
