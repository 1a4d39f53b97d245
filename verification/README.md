# A Dafny model of the MCDF container engine and its micro reader

MCDF is a document container: an archive of named members (`content.md`, `metadata.yaml`, `schema.yaml`,
`manifest.json`, signatures, an encryption policy, an audit log). The repository implements it twice, as a
C++ engine and studio and as a C reader that never allocates, and the two share no code. This project models
the parts where that is hardest to get right and proves what they promise, and that they agree.

Loops, in-place updates and stateful objects of the source are methods and classes here (the arena of the
index, the SHA-256 context, the JSON stream, the cursor, the window iterator, the working copy of a document,
the studio's queues). Each of them is proved equal to a function of its input, and the theorems are lemmas
about those functions, over every input and, for the state machines, over every run.

| part | modules |
|---|---|
| number codecs: base58btc as carry loops, base64url with a wrapping accumulator | `Radix`, `Base58`, `Base64Url` |
| line diff: trim, table filled backwards, greedy walk | `Lcs`, `Diff` |
| streaming SHA-256, whose compression function is a parameter | `Sha256` |
| archives: writer, reader, the one-pass C walk, the two-ended arena, cursors | `UstarFormat`, `Tar`, `Ustar`, `Index` |
| canonical JSON: UTF-16 key order twice, both manifest emitters, the streaming reader, the manifest check | `Lex`, `Utf16`, `Json`, `JsonLines`, `Manifest`, `Jcs`, `Canonical`, `Verify` |
| YAML: writers against the C line reader | `Yaml`, `YamlCode`, `YamlLines`, `Metadata`, `Schema`, `Policy` |
| content: windowed walk, anchor scanner with its ring buffer | `Spelling`, `Render`, `RenderLines`, `Anchors`, `AnchorWalk`, `AnchorLines` |
| trust: audit chain with checkpoints, sealing | `Container`, `Audit`, `Seal` |
| HTML normaliser, and a reader for the XML it writes | `Html`, `HtmlScan`, `HtmlRules`, `Xml`, `HtmlXml` |
| the written texts byte by byte | `Formats` |
| studio: one-worker job queue, revision-keyed caches | `Jobs`, `Caches` |

`Bytes` holds the byte type, `Option`, `Result` and the UTF-8 encoder, `Layout` the member names of a container, and
`Markup` what the two markup readers share.

Hashes, ciphers, signatures and the foreign parsers are function parameters. No injectivity is supposed of a
hash: theorems about digests end in "or here is a collision".

## Where the code and its documentation part

The model follows the code. Each point has a lemma that says exactly when the promise holds, or an input for
which it does not.

- The YAML writer quotes the words that YAML 1.1 would read as a truth value, but not `y` and `n`
  (`Yaml.RetypedIsQuoted`, `Yaml.OneLetterIsPlain`).
- A long path that begins with `/` and is split there loses the slash (`UstarFormat.SplitJoin`, `Tar.WriteRead`;
  `UstarFormat.SlashIsLost` for one).
- The C reader drops the prefix field of a header whose magic starts with NUL; the C++ reader keeps it. The two
  agree exactly on archives without such a regular entry (`Ustar.Agreement`; `Ustar.NamelessIsReadTwice`).
- A control byte other than line feed, carriage return and tab is written as `\xHH`, which the C line reader
  does not decode (`Yaml.ScalarRoundTrip`).
- The policy writer does not quote member names. The C reader finds exactly the listed members when every name is
  read as itself, and otherwise not (`Policy.ListedExactly`); a member `a #b` is taken for plaintext
  (`Policy.SharpNameIsLost`).
- The two key orders decode UTF-8 differently. They take the same bytes for the same values exactly where every
  lead byte is the last byte or has all its continuation bytes (`Utf16.SamePieces`), which well-formed text does;
  a path is ordered alike against all such paths exactly when both read it as the same units
  (`Jcs.OrdersAgreeExactly`). C3 28 and 41 change places (`Jcs.MalformedKeysSwap`).
- A fence that opens after a blank line is a block boundary at which the window scan does not cut, although its
  line may start a block: a window with only that boundary is refused (`Render.FenceIsNotACut`; exactly which
  boundaries are taken: `Render.CutsAreBoundaries`).
- The header of the windowed walk promises that a list is never split. A line that is indented to the content of an
  open list item passes the scan, so after a blank line the item is cut (`Render.CutsInsideItems`, exactly when;
  `Render.ItemIsCut` for `- a`, an empty line, `  b`). So is tab-indented code, whose indentation the scan does not
  see (`Render.IndentedCutsAreTabs`).
- Lines longer than the line buffer are passed over when definitions are collected. That does no harm exactly when
  such a line outside a fence is neither a fence nor a definition, and inside a fence does not close it
  (`Render.CarriesBehindEveryLine`; without over-long fence lines, `Render.CarriesExactly`). Otherwise a definition
  is lost (`Render.LongDefinitionIsLost`, `Render.LongFenceHidesDefinition`).
- `mcdf_micro_render_next` sets `done` in the call that emits the last window, where its header says that no
  events were emitted (`Render.Iter.Next`).
- The anchor walk measures fences within the first sixteen bytes of a line: a fence of twenty backticks is closed by
  sixteen (`AnchorLines.ShownFenceExactly`).
- A CRLF line of 160 bytes or more does not scan like the LF line (`Anchors.ReturnScansAlike`,
  `Anchors.LongReturnDiffers`).
- Appending to an audit log whose last line is unfinished, or a field with a tab in it, makes the log unreadable
  (`Audit.AppendKeepsChain`; `Audit.TabBreaksLog` for one).
- A checkpoint of an empty log verifies against every log (`Audit.EmptyCheckpointHolds`).
- The studio promises not to read a document that a job owns. A panel tests for that once and reads on after its own
  buttons have submitted a job, and a window reads the path for its title before it tests
  (`Jobs.ReadBesideJob`, exactly when; `Jobs.PanelRaces`, `Jobs.TitleRaces`).
- Sealing `content.md` under a schema that declares no section changes the structural verdict
  (`Seal.SealKeepsVerdict`).
- Sealing that fails half-way leaves ciphertext and no policy (`Seal.FailureLeavesNoPolicy`).
- Decrypting that fails leaves the container alone exactly when the policy is absent or unreadable, no key unwraps,
  or every member opened before the stop opens to what it held (`Seal.FailureLeavesAlone`). Otherwise the studio
  does not notice: cached views of signatures and reports that claim to be current need not be, and the audit view
  depends on its two members (`Caches.ViewsSurviveExactly`; `Caches.StaleView` is a document in that state).
- The HTML normaliser promises well-formed XML. What it writes is well-formed exactly when each opening tag of the
  input has an XML name, no attribute twice and legal characters in its values, and each text run legal characters
  and numeric references to legal characters (`HtmlXml.WellFormedExactly`). `<a<b>`, `<a x x>` and `<&#<;` are not
  such input (`HtmlXml.OddNameBreaks`, `HtmlXml.RepeatedAttributeBreaks`, `HtmlXml.StrayReferenceBreaks`). The tags
  nest whatever the input (`Html.BuildNests`). A script closed by `</SCRIPT>` is not closed: the rest of the document goes with it
  (`HtmlRules.ReadsRawTag`).

## Model

| member | source | states |
|---|---|---|
| `Base58.DecodeEncode` | src/crypto/encoding.cpp:78-125 | decoding what was encoded gives every byte string back, leading zero bytes included |
| `Base58.EncodeDecode` | src/crypto/encoding.cpp:78-125 | encoding what was decoded gives every string over the alphabet back; what decodes are bytes |
| `Base58.Encode` | src/crypto/encoding.cpp:78-101 | the carry loops compute the text whose leading `1`s count the zero bytes and whose other digits are the number in base 58 |
| `Base58.Decode` | src/crypto/encoding.cpp:103-125 | succeeds exactly on strings over the alphabet, and returns the bytes they denote |
| `Radix.DigitsSound` | src/crypto/encoding.cpp:82-96 | the canonical digit vector is below the base, keeps the value, and has no zero top digit |
| `Radix.DigitsComplete` | src/crypto/encoding.cpp:82-120 | such a vector is determined by its value |
| `Radix.MulAddIsArithmetic` | src/crypto/encoding.cpp:86-95 | multiply-and-carry over a digit vector is multiplication and addition on the number |
| `Radix.CarryThrough` | src/crypto/encoding.cpp:87-91 | the inner loop: digits stay below the base, the carry below the multiplier (256 encoding, 58 decoding), and digits and carry together are the multiplied vector |
| `Radix.MulAddDigits` | src/crypto/encoding.cpp:84-96 | one input byte or digit folded in: the value is preserved and the top digit stays non-zero |
| `Base64Url.DecodeEncode` | src/crypto/encoding.cpp:33-76 | decoding undoes encoding on every byte string (section 5 of RFC 4648, unpadded) |
| `Base64Url.TableIsClosedForm` | src/crypto/encoding.cpp:10-30 | the alphabet table is the six-bit digits A-Z, a-z, 0-9, `-`, `_` in order |
| `Base64Url.EncodeDecode` | src/crypto/encoding.cpp:33-76 | encoding undoes decoding exactly on the texts whose last group drops no set bits |
| `Base64Url.UngroupRegroup` | src/crypto/encoding.cpp:33-60 | three-byte groups cut into six-bit values and put together again are the same bytes |
| `Base64Url.RegroupUngroup` | src/crypto/encoding.cpp:61-76 | the other way round holds exactly when the last group is complete in its bits |
| `Base64Url.WrapIsHarmless` | src/crypto/encoding.cpp:63-73 | the 32-bit accumulator may wrap: the pending low bits of a group are what an unbounded one holds |
| `Base64Url.DecodeStep` | src/crypto/encoding.cpp:65-74 | one character of the loop: the emitted byte and the new pending bits are those of the longer text |
| `Base64Url.Encode` | src/crypto/encoding.cpp:33-60 | the loop over groups and the one- or two-byte tail produce the encoded text |
| `Base64Url.Decode` | src/crypto/encoding.cpp:61-76 | succeeds exactly on strings over the alphabet, and returns the bytes they denote, whatever the accumulator has wrapped |
| `Lcs.LengthIsBound` | apps/studio/core/studio_core.cpp:885-892 | no common subsequence of two lists is longer than the table recurrence says |
| `Lcs.SharedPrefix` | apps/studio/core/studio_core.cpp:871-872 | a common prefix can be trimmed without losing any of a longest common subsequence |
| `Lcs.SharedSuffix` | apps/studio/core/studio_core.cpp:873-876 | so can a common suffix |
| `Diff.LinesJoinBack` | apps/studio/core/studio_core.cpp:850-863 | joining the split lines gives the text back, up to a missing last newline |
| `Diff.LinesAreLines` | apps/studio/core/studio_core.cpp:850-863 | no split line holds a newline |
| `Diff.SplitLines` | apps/studio/core/studio_core.cpp:850-863 | the splitting loop computes that line list |
| `Diff.CommonPrefix` | apps/studio/core/studio_core.cpp:871-872 | the lines up to the result agree and the next pair, if there is one, does not |
| `Diff.CommonSuffix` | apps/studio/core/studio_core.cpp:873-876 | the same from the back |
| `Diff.FillRow` | apps/studio/core/studio_core.cpp:887-891 | one row of the table filled from the right leaves every cell below correct |
| `Diff.FillTable` | apps/studio/core/studio_core.cpp:885-892 | cell (i, j) is the LCS length of what follows line i and line j |
| `Diff.Walk` | apps/studio/core/studio_core.cpp:893-908 | the greedy walk is an edit script from one list to the other that keeps as many lines as the LCS has; equal lines are kept at once, and an old line goes unless that costs a kept line |
| `Diff.KeptIsCommon` | apps/studio/core/studio_core.cpp:867-919 | the kept lines of any edit script are common to both texts, so none keeps more than the LCS |
| `Diff.DiffMiddle` | apps/studio/core/studio_core.cpp:885-914 | the changed middle, by table or replaced wholesale, is an edit script, and a longest one up to a million cells |
| `Diff.Behind` | apps/studio/core/studio_core.cpp:871-882 | common lines put in front of a script are kept, and change neither its correctness nor its distance to the LCS length |
| `Diff.InFront` | apps/studio/core/studio_core.cpp:883-918 | the same of common lines at the end |
| `Diff.DiffFronts` | apps/studio/core/studio_core.cpp:876-918 | what the prefix left, with its common end trimmed, gets a correct script, optimal when the table is used |
| `Diff.DiffTrimmed` | apps/studio/core/studio_core.cpp:867-919 | the same for the untrimmed line lists |
| `Diff.DiffLines` | apps/studio/core/studio_core.cpp:867-919 | kept plus removed lines are exactly the first text, kept plus added the second; in every hunk removed lines come first unless that would cost a kept line; in the table branch the kept lines number the LCS length of the whole texts and every line is the one chosen there |
| `Diff.ChosenIsUnique` | apps/studio/core/studio_core.cpp:893-908 | those choices leave only one diff between two texts |
| `Diff.ChosenIsRemovedFirst` | apps/studio/core/studio_core.cpp:896-903 | and they put removed lines first |
| `Diff.ReplacedIsRemovedFirst` | apps/studio/core/studio_core.cpp:909-914 | so does replacing the middle wholesale |
| `Sha256.AbsorbConcat` | micro/src/sha256.c:86-102 | absorbing whole blocks in two goes is absorbing them at once |
| `Sha256.Context.constructor` | micro/src/sha256.c:75-84 | a new context has hashed the empty message |
| `Sha256.Context.Push` | micro/src/sha256.c:94-100 | one byte more in the buffer is one byte more of the message |
| `Sha256.Context.Update` | micro/src/sha256.c:86-102 | hashing more data is hashing the longer message |
| `Sha256.Context.StartPadding` | micro/src/sha256.c:112-118 | the marker byte, and a block of its own when the length would not fit |
| `Sha256.Context.StoreLength` | micro/src/sha256.c:119-121 | the bit length as eight big-endian bytes at the end of the block |
| `Sha256.Context.Pad` | micro/src/sha256.c:110-122 | the state is the fold of the compression function over the message padded as in section 5.1.1 of FIPS 180-4 |
| `Sha256.Context.Final` | micro/src/sha256.c:104-131 | the digest of everything hashed since init, however it was split |
| `Sha256.EmitWords` | micro/src/sha256.c:124-129 | the state words leave most significant byte first |
| `UstarFormat.OctFieldRead` | src/container/tar.cpp:16-23 | an octal field reads back as its number, except for digits beyond the width |
| `UstarFormat.PaddedField` | src/container/tar.cpp:75-79 | a NUL-padded field keeps exactly the strings without a NUL |
| `UstarFormat.SplitJoin` | src/container/tar.cpp:25-43 | name and prefix join to the path again exactly when the split was not at a leading slash |
| `UstarFormat.SlashIsLost` | src/container/tar.cpp:25-43 | `/` and a hundred letters come back without the slash |
| `UstarFormat.HeaderRead` | src/container/tar.cpp:45-88 | a written header passes its own checksum and yields the fields written into it |
| `UstarFormat.HeaderSpelled` | src/container/tar.cpp:45-66 | the fields no reader asks for, byte by byte: mode 0644, owner and time 0, no link, `ustar` and 00 |
| `Tar.PathRead` | src/container/tar.cpp:25-79 | a path survives its header exactly when it has no NUL and loses no leading slash |
| `Tar.EntryHeader` | src/container/tar.cpp:45-141 | the header of a member reads back as its path and size exactly when the format can carry it: path as above and size below 8^11 |
| `Tar.ReadBody` | src/container/tar.cpp:98-146 | reading what was written gives exactly the members, in order, iff all of them can be carried |
| `Tar.WriteRead` | src/container/tar.cpp:98-146 | the round trip over whole archives, with that condition |
| `Tar.PutOctal` | src/container/tar.cpp:16-23 | digits from the right, in place, then the NUL; nothing else in the block changes |
| `Tar.SplitLongPath` | src/container/tar.cpp:25-43 | the first slash whose two sides fit 155 and 100 bytes; failure exactly when there is none |
| `Tar.StoreChecksum` | src/container/tar.cpp:64-72 | the checksum over blanks fits six octal digits and is stored with NUL and blank |
| `Tar.WriteHeader` | src/container/tar.cpp:45-73 | the 512-byte block built in place is the header; failure exactly when the path cannot be split |
| `Tar.Write` | src/container/tar.cpp:98-111 | headers, padded bodies and two zero blocks, or failure when some path does not fit |
| `Tar.ArchiveSpelled` | src/container/tar.cpp:98-111 | an archive is whole blocks and ends with 1024 zero bytes |
| `Tar.ReadOctal` | src/container/tar.cpp:81-88 | leading blanks skipped, then the digits up to the first other byte |
| `Tar.DecodeHeader` | src/container/tar.cpp:118-137 | end, bad checksum, or an entry with path, size and whether it is regular |
| `Tar.ReadArchive` | src/container/tar.cpp:113-146 | the members of the regular entries, or failure on a bad checksum or a size past the end |
| `Tar.TypeDecides` | src/container/tar.cpp:130-143 | an entry is a member exactly when its type byte is `0` or NUL |
| `Ustar.SameHeader` | micro/src/ustar.c:94-154 | what the C reader accepts as a header means the same to the C++ reader, except for a hidden prefix |
| `Ustar.NamelessIsReadTwice` | micro/src/ustar.c:120-150 | a header of `p/a` without its magic is `a` to the C reader and `p/a` to the C++ reader |
| `Ustar.Agreement` | micro/src/index.c:200-231 | whatever the C reader opens, the C++ reader reads, with the same members byte by byte; the paths are the same exactly when no regular header has a NUL magic byte and a prefix |
| `Ustar.WalkInSource` | micro/src/index.c:200-231 | every indexed range lies inside the source and every name is NUL-free |
| `Ustar.StrictHeaderOfWritten` | micro/src/ustar.c:94-154 | a header written by the C++ engine is accepted by the C parser unless its name field is empty |
| `Ustar.OpenWritten` | micro/src/index.c:162-235 | the C reader indexes exactly the members the C++ writer packed, iff the format can carry them and no path is empty |
| `Ustar.ParseOctal` | micro/src/ustar.c:39-67 | the number of a field, or refusal of a stray byte, an empty field and values past the cap; the check before each shift keeps it below 2^64 |
| `Ustar.Checksum` | micro/src/ustar.c:69-80 | the byte sum with the checksum field replaced by blanks |
| `Ustar.ParseHeader` | micro/src/ustar.c:94-154 | end marker, refusal, or an entry with path, size and kind |
| `Index.ArenaSizeSuffices` | micro/include/mcdf_micro/mcdf_micro.h:165-169 | an arena of `MCDF_MICRO_ARENA_SIZE(members, paths)` holds the index at any misalignment |
| `Index.HoldsFrame` | micro/src/index.c:138-160 | an entry and its name survive every write between the two ends of the arena |
| `Index.AllHoldPush` | micro/src/index.c:138-160 | a push adds one slot below and one name above, and keeps all that is stored |
| `Index.Reader.Push` | micro/src/index.c:138-160 | one member more, or E_ARENA exactly when slot and name no longer fit; slots and names never meet |
| `Index.Reader.Scan` | micro/src/index.c:200-231 | the arena index is the list of the reference walk, or E_ARENA exactly when that does not fit |
| `Index.Open` | micro/src/index.c:162-235 | E_PARSE on a truncated source, E_ARENA exactly when the whole index does not fit, else the index of the walk |
| `Index.Reader.LoadEntry` | micro/src/index.c:262-282 | offset, size and name of an entry come back from arena memory as stored |
| `Index.Reader.NameIs` | micro/src/index.c:40-44 | the byte loop decides equality of the whole strings |
| `Index.Reader.Find` | micro/src/index.c:254-260 | the first member with that path, or none exactly when no member has it |
| `Index.Reader.Count` | micro/src/index.c:250-252 | the number of indexed members |
| `Index.Reader.ReadAt` | micro/src/index.c:284-302 | exactly the requested bytes of the member, E_RANGE past its end, E_NOT_FOUND without it |
| `Index.OpenCursor` | micro/src/index.c:304-318 | a stream of all bytes of the first member with that path |
| `Index.Cursor.Refill` | micro/src/index.c:325-333 | the window holds the next bytes of the member |
| `Index.Cursor.Next` | micro/src/index.c:320-335 | bytes come one by one, in order, none skipped at window edges, until the member ends |
| `Utf16.SameUnits` | micro/host/jcs.c:37-66 | both decoders turn well-formed UTF-8 into the same UTF-16 code units |
| `Utf16.StepAlike` | micro/host/jcs.c:47-59 | at one lead byte the two decoders take the same bytes exactly when it is the last byte or all its continuation bytes are there, and then for the same value |
| `Utf16.SamePieces` | micro/host/jcs.c:37-66 | they cut a text into the same values at the same places exactly when that holds at every lead byte |
| `Utf16.AlikeUnits` | src/serialize/canonical_json.cpp:20-42 | and then they give the same code units, on malformed text too |
| `Utf16.WellFormedIsAlike` | src/serialize/canonical_json.cpp:20-42 | well-formed UTF-8 is such text |
| `Utf16.MalformedDiffers` | src/serialize/canonical_json.cpp:20-42 | on malformed UTF-8 the code units may differ: C3 28 |
| `Utf16.OrderVersusBytes` | micro/host/jcs.c:68-78 | UTF-16 order is byte order exactly when the first difference is not a supplementary character against one from E000 on |
| `Utf16.OrderIsByteOrder` | micro/host/jcs.c:68-78 | without supplementary characters the two orders are one |
| `Utf16.UnitsInjective` | src/serialize/canonical_json.cpp:20-46 | different texts have different code units |
| `Utf16.KeyOrderIsTotal` | micro/host/jcs.c:68-78 | the key order is irreflexive and decides every two different texts (section 3.2.3 of RFC 8785) |
| `Lex.Transitive` | src/serialize/canonical_json.cpp:44-46 | and transitive |
| `Utf16.Utf8OneOrder` | micro/host/jcs.c:37-66 | the UTF-8 of two code points first differs where the order of the code points says |
| `Jcs.Units16.Next` | micro/host/jcs.c:37-66 | the iterator delivers the code units one by one, surrogate pairs through `pending`, then -1 |
| `Jcs.DecodeLead` | micro/host/jcs.c:43-62 | lead byte, checked continuation bytes, malformed bytes consumed one by one |
| `Jcs.KeyIsLess` | micro/host/jcs.c:68-78 | the loop decides lexicographic order of the code units |
| `Jcs.ToUtf16` | src/serialize/canonical_json.cpp:20-42 | the C++ decoding loop, which takes continuation bytes unchecked |
| `Jcs.SameKeyOrder` | src/serialize/canonical_json.cpp:44-46 | on well-formed paths `utf16_less` and `jcs_key_less` are one order, and it is strict and total |
| `Jcs.AlikeKeyOrder` | micro/host/jcs.c:68-78 | on any two paths whose lead bytes are taken alike, the two orders are one |
| `Jcs.MalformedKeysSwap` | src/serialize/canonical_json.cpp:44-46 | C3 28 sorts before 41 in C and behind it in C++ |
| `Jcs.OrdersAgreeExactly` | src/serialize/canonical_json.cpp:44-46 | a path is ordered alike against every path taken alike exactly when both decoders give it the same units |
| `Jcs.InsertKeepsSorted` | micro/host/jcs.c:144-152 | an element put where the inner loop stops leaves the list sorted |
| `Jcs.InsertDown` | micro/host/jcs.c:146-152 | one round in place: sorted prefix one longer, a permutation, the rest untouched |
| `Jcs.SortOrder` | micro/host/jcs.c:136-153 | the insertion sort leaves a sorted permutation |
| `Jcs.IsExcluded` | micro/src/validate.c:26-38 | manifest.json, audit.log, audit.checkpoint and everything under signatures/ are excluded, and nothing else |
| `Jcs.ExcludedIsOutside` | src/core/manifest_ops.cpp:15-18 | the excluded paths are `manifest.json`, `audit.log`, `audit.checkpoint` and every name under `signatures/`, and no other |
| `Jcs.Collect` | micro/host/jcs.c:123-131 | the covered members in archive order; E_ARENA exactly when more than 512 |
| `Jcs.Emit` | micro/host/jcs.c:159-177 | the written text is the canonical manifest of the ordered entries |
| `Jcs.EmitManifest` | micro/host/jcs.c:111-177 | the covered members, in key order and equal keys in archive order, as canonical JSON; E_ARENA beyond 512 of them |
| `Jcs.OutsideChangesNothing` | micro/src/validate.c:26-38 | containers that differ only in members outside the boundary, whatever is added, removed or changed there, have the same manifest |
| `Jcs.OneMoreOutside` | micro/src/validate.c:26-38 | one member more or less leaves the inside alone exactly when it lies outside |
| `Jcs.ListsExactly` | src/core/manifest_ops.cpp:21-36 | a path is listed, with the digest of what is found under it, exactly when a member inside has it |
| `Jcs.EntriesInOrder` | micro/host/jcs.c:140-152 | sorting the indices sorts the entries |
| `Canonical.SortSorts` | src/serialize/canonical_json.cpp:82-91 | sorting the properties of an object orders them by key |
| `Canonical.SortedUnique` | src/serialize/canonical_json.cpp:82-91 | there is only one sorted arrangement of properties with different keys, so it does not matter how it is found |
| `Canonical.CanonicalSorts` | src/serialize/canonical_json.cpp:74-123 | however the manifest holds its files, its canonical text lists them in key order |
| `Canonical.TopKeys` | src/serialize/canonical_json.cpp:44-46 | files < hash_algorithm < mcdf_version in key order |
| `Canonical.CanonicalManifest` | src/core/manifest_ops.cpp:39-46 | the C++ canonical text of a manifest is the text the C emitter writes for the same files in key order |
| `Formats.ManifestSpelled` | micro/host/jcs.c:111-177 | the text of manifest.json byte by byte |
| `Formats.FileSpelled` | micro/host/jcs.c:155-166 | one file of it: its path and its digest, a comma before all but the first |
| `Canonical.SameManifest` | micro/host/jcs.c:111-177 | the two implementations write byte-identical manifests for the same members, for every order the C sort may end in |
| `Json.WriteEscaped` | src/serialize/canonical_json.cpp:48-72 | the quoted string with two-character escapes, `\u00xx` for other control bytes, the rest as it is (section 3.2.2.2 of RFC 8785) |
| `Formats.EscapesSpelled` | src/serialize/canonical_json.cpp:48-72 | which escape each byte gets |
| `Json.PlainEscape` | src/serialize/canonical_json.cpp:48-72 | text without quotes, backslashes and control bytes is written unchanged |
| `Json.EscapedPiece` | micro/src/manifest.c:99-145 | every written escape is read as one piece that decodes to its byte |
| `Json.StrRoundTrip` | micro/src/manifest.c:95-151 | what was written is read back, and the reader stops right after the closing quote |
| `Json.Stream.NextHex4` | micro/src/manifest.c:59-72 | four hexadecimal digits and their value, or refusal |
| `Json.Stream.NextUnicode` | micro/src/manifest.c:121-142 | `\u` escapes, surrogate pairs combined, as UTF-8 |
| `JsonLines.UnicodeReads` | micro/src/manifest.c:121-142 | four digits in either case are that character; a low surrogate alone is refused |
| `JsonLines.PairReads` | micro/src/manifest.c:121-142 | a pair of escapes is the supplementary character it stands for |
| `Json.Stream.NextPiece` | micro/src/manifest.c:99-145 | one plain byte or one escape |
| `JsonLines.EscapesRead` | micro/src/manifest.c:99-145 | the two-character escapes, and no other |
| `Json.Stream.ReadString` | micro/src/manifest.c:95-151 | the decoded length always, the bytes as far as the buffer holds them |
| `Json.Stream.SkipValue` | micro/src/manifest.c:153-187 | one whole value, nested containers and strings with braces included, is skipped |
| `JsonLines.SkipsValue` | micro/src/manifest.c:153-187 | whatever a value holds, nested to any depth, exactly that value is passed over |
| `Manifest.SkipItems` | micro/src/manifest.c:153-187 | skipping a written `files` object ends right after its closing brace, whatever its strings hold |
| `Manifest.FilesReadBack` | micro/src/manifest.c:277-343 | over a written manifest each query answers from the list it was written from, sized buffers included |
| `Manifest.ManifestRoundTrip` | micro/src/manifest.c:345-370 | the count matches and entry i is the i-th written path with its hash, for paths below 256 bytes |
| `Manifest.AbsentByPath` | micro/src/manifest.c:345-352 | a path that is not listed is reported absent |
| `Manifest.PresentByPath` | micro/src/manifest.c:345-352 | a listed path answers with the hash of its first entry |
| `Manifest.HashByPath` | micro/src/manifest.c:345-352 | the same over the bytes of the written manifest |
| `Manifest.ScalarsReadBack` | micro/src/manifest.c:247-275 | `hash_algorithm` and `mcdf_version` are found behind the nested `files` object |
| `Manifest.ReadKey` | micro/src/manifest.c:206-226 | the next key, the end of the object, or refusal |
| `Manifest.EmitValue` | micro/src/manifest.c:230-245 | a string value through the 128-byte staging buffer; E_RANGE when it does not fit |
| `Manifest.SeekKey` | micro/src/manifest.c:257-272 | the first member of that name, everything before it skipped |
| `Manifest.LookupField` | micro/src/manifest.c:247-275 | the value of a top-level field of any manifest text |
| `Manifest.WalkEntries` | micro/src/manifest.c:297-341 | the entry loop: count, entry by index, or hash by path |
| `Manifest.WalkFiles` | micro/src/manifest.c:277-343 | the same from the start of the manifest |
| `Verify.HashChunks` | micro/src/sha256.c:86-131 | however a message is split into updates, the digest is that of the message |
| `Verify.HashWindows` | micro/src/verify.c:53-68 | hashing a member through 128-byte windows hashes its bytes |
| `Verify.HashMember` | micro/src/verify.c:35-76 | the hexadecimal digest of the member; E_RANGE and E_NOT_FOUND otherwise |
| `Formats.HexSpelled` | micro/src/verify.c:35-76 | two lower-case digits for each byte |
| `Verify.PathAt` | micro/src/index.c:262-270 | the path of entry i as the caller sees it |
| `Verify.CheckListed` | micro/src/verify.c:112-132 | one issue for each listed file that is missing or has another digest, in manifest order |
| `Verify.CheckExtra` | micro/src/verify.c:134-148 | one issue for each covered member the manifest does not list, in archive order |
| `Verify.VerifyManifest` | micro/src/verify.c:78-150 | the two loops after the algorithm and count checks, with the source's error returns |
| `Verify.VerdictOnWritten` | micro/src/verify.c:78-150 | over a written manifest exactly those two lists of issues are reported |
| `Verify.CleanMeansIntact` | micro/src/verify.c:78-150 | no issue is reported exactly when every listed file has its digest and every covered member is listed |
| `Verify.SameManifestSameBytes` | micro/src/verify.c:78-150 | two containers that pass the same manifest hold the same covered bytes, or two of their members collide under SHA-256 |
| `Verify.FreshManifestIsClean` | micro/src/verify.c:78-150 | a manifest just emitted for a container verifies without an issue |
| `Yaml.ScalarRoundTrip` | micro/src/yaml_min.c:62-102 | a written scalar reads back as itself exactly when no byte of it needs a hexadecimal escape |
| `Yaml.RetypedIsQuoted` | src/serialize/writers.cpp:14-24 | every YAML 1.1 word for null or a truth value but `y` and `n`, in any case, is written in quotes |
| `Yaml.OneLetterIsPlain` | src/serialize/writers.cpp:14-24 | `y` and `n` are not |
| `Yaml.ControlByteIsLost` | micro/src/yaml_min.c:62-102 | one that does: 07 comes back as `x07` |
| `Yaml.ScalarIsSnug` | src/serialize/writers.cpp:29-74 | a written scalar has no line break and no blank at either end |
| `Yaml.NextWrittenLine` | micro/src/yaml_min.c:27-51 | a written line below 256 bytes is read as it was written |
| `Yaml.NextLongLine` | micro/src/yaml_min.c:27-51 | a longer one is reported as truncated |
| `Yaml.EntrySplits` | micro/src/yaml_min.c:104-119 | a written `key: value` splits into its key and its value |
| `YamlLines.ColonNeedsBlank` | micro/src/yaml_min.c:104-119 | a colon separates only before a blank |
| `YamlCode.IsReservedWord` | src/serialize/writers.cpp:14-24 | the words a YAML reader would not take for strings, in any case |
| `YamlCode.IsPlainSafe` | src/serialize/writers.cpp:29-46 | the scalars that need no quotes |
| `YamlCode.WriteDoubleQuoted` | src/serialize/writers.cpp:48-70 | quotes with one escape per special byte |
| `YamlCode.WriteScalar` | src/serialize/writers.cpp:72-74 | plain where that is safe, quoted otherwise |
| `YamlCode.CanonicalizeContent` | src/serialize/writers.cpp:99-115 | the two loops compute the canonical text |
| `YamlCode.CanonicalTextIsCanonical` | src/serialize/writers.cpp:99-115 | the result has no carriage return and, unless empty, ends in exactly one line end; such texts are exactly the fixed points, so one pass is enough |
| `YamlCode.GatherLine` | micro/src/yaml_min.c:27-44 | the bytes up to the line end as far as 255 hold, the rest consumed |
| `YamlCode.ReadLine` | micro/src/yaml_min.c:27-51 | the next line without its carriage return, and whether it was cut |
| `YamlCode.TrimRange` | micro/src/yaml_min.c:53-60 | blanks at both ends stepped over |
| `YamlCode.SplitRange` | micro/src/yaml_min.c:104-119 | where trimmed key and value lie; not found exactly when no `:` ends a non-empty key |
| `YamlCode.UnquoteDouble` | micro/src/yaml_min.c:65-82 | the in-place rewriting leaves the unescaped text and touches nothing outside |
| `YamlCode.UnquoteSingle` | micro/src/yaml_min.c:84-93 | the same for single quotes |
| `YamlCode.CutComment` | micro/src/yaml_min.c:95-101 | an unquoted value ends before ` #`, without trailing blanks |
| `YamlLines.SingleQuotedReads` | micro/src/yaml_min.c:84-93 | a single-quoted scalar reads as what its doubled quotes stand for |
| `YamlLines.DoubleQuotedReads` | micro/src/yaml_min.c:65-82 | the escapes of a double-quoted scalar |
| `YamlLines.CommentIsCut` | micro/src/yaml_min.c:95-101 | a plain scalar reads the same with a comment behind it |
| `YamlCode.ResolveScalar` | micro/src/yaml_min.c:62-102 | the scalar resolved in place; bytes outside stay as they are |
| `Metadata.WriteAuthors` | src/serialize/writers.cpp:84-92 | the author block as lines |
| `Metadata.WriteMetadata` | src/serialize/writers.cpp:78-97 | the written document as lines, optional fields in their places |
| `Formats.MetadataSpelled` | src/serialize/writers.cpp:78-97 | metadata.yaml byte by byte, for every document |
| `Metadata.KeysReadBack` | micro/src/yaml_min.c:123-198 | every top-level key of a written document, and no other, is found with what its scalar reads as |
| `Metadata.AuthorsReadBack` | micro/src/yaml_min.c:123-198 | every author name is found by index, and none past the last |
| `Metadata.RightOrRefused` | micro/src/yaml_min.c:123-198 | over any lines the walk answers as over untruncated lines, or E_RANGE when some line does not fit |
| `Metadata.WrittenIsReadOrRefused` | micro/src/yaml_min.c:123-198 | the same for the bytes of a written document |
| `Metadata.MetadataRoundTrip` | micro/src/yaml_min.c:200-210 | the reader returns every written scalar and every author name, and E_RANGE only when a line is too long |
| `Metadata.DoLine` | micro/src/yaml_min.c:140-197 | one line of the walk: answered, or the state after it |
| `YamlLines.PlainAuthorReads` | micro/src/yaml_min.c:140-197 | an author may be a list item without a key |
| `Metadata.WalkLines` | micro/src/yaml_min.c:123-198 | the line loop over an open member |
| `Metadata.ReadMeta` | micro/src/yaml_min.c:200-210 | the answer over the bytes of metadata.yaml, E_NOT_FOUND without it |
| `Schema.WriteSchema` | src/serialize/writers.cpp:117-136 | the written schema as lines |
| `Formats.SchemaSpelled` | src/serialize/writers.cpp:117-138 | schema.yaml likewise |
| `Schema.DocumentWalked` | micro/src/schema.c:44-141 | the walk of a written schema is the walk of its list of sections |
| `Schema.ExpectedCount` | micro/src/schema.c:44-141 | counting: the number of sections, when every id fits its 128-byte buffer |
| `Schema.ExpectedAt` | micro/src/schema.c:44-141 | by index: that section, E_NOT_FOUND past the last, E_RANGE when an id up to it does not fit |
| `Schema.RightOrRefused` | micro/src/schema.c:44-141 | over any lines the walk answers as over untruncated lines, or E_RANGE |
| `Schema.SchemaRoundTrip` | micro/src/schema.c:143-155 | count, and id and required flag of every section, as written |
| `Schema.IsTrue` | micro/src/schema.c:26-40 | true, yes, on, y and 1 in any case |
| `YamlLines.TruthsSpelled` | micro/src/schema.c:26-40 | those five words and no other |
| `Schema.DoLine` | micro/src/schema.c:60-138 | one line of the walk |
| `YamlLines.TopKeyEnds` | micro/src/schema.c:60-138 | the next key at the margin ends the list |
| `YamlLines.SilentLines` | micro/src/yaml_min.c:140-160 | comments and empty lines change nothing in any of the three walks |
| `YamlLines.MarkersAreSilent` | micro/src/yaml_min.c:140-160 | document markers neither |
| `Schema.WalkLines` | micro/src/schema.c:44-141 | the line loop over an open member |
| `Schema.ReadSchema` | micro/src/schema.c:143-155 | the answer over the bytes of schema.yaml |
| `Policy.WritePolicy` | src/serialize/policy_yaml.cpp:46-72 | the written policy as lines |
| `Formats.PolicySpelled` | src/serialize/policy_yaml.cpp:46-72 | policy.yaml likewise |
| `Formats.SealedPolicySpelled` | src/core/encrypt_ops.cpp:121-135 | the policy that sealing leaves behind, with its ciphers and members |
| `Policy.NamesListed` | micro/src/yaml_min.c:226-293 | over a written policy the reader names exactly what the listed names are read as |
| `Policy.ListedExactly` | micro/src/yaml_min.c:226-293 | it names exactly the listed files if and only if every listed name is read as itself: not empty, no blank at its ends, no NUL, no quotes or comment to be resolved |
| `Policy.NamesItself` | micro/src/yaml_min.c:284-290 | that is what makes an item name its own path |
| `Policy.SharpNameIsLost` | src/serialize/policy_yaml.cpp:46-52 | a policy that lists `a #b` alone does not name it, but names `a` |
| `Policy.SealedOrUnreadable` | micro/src/yaml_min.c:226-293 | a line that does not fit never makes a sealed member look plaintext |
| `Policy.SealedIffListed` | micro/src/yaml_min.c:226-293 | over the written bytes: whatever a listed name is read as is called sealed, nothing else while the lines fit, and with names read as themselves that is exactly the listed files |
| `Policy.OrdinaryNames` | src/serialize/policy_yaml.cpp:46-52 | names without quotes, blanks and comment signs are read as themselves |
| `Policy.FlowLoop` | micro/src/yaml_min.c:261-280 | an item of a flow list `[a, b]` equals the path |
| `YamlLines.FlowListNames` | micro/src/yaml_min.c:261-280 | `[a, b]` names exactly its items |
| `Policy.NulEndsItem` | micro/src/yaml_min.c:261-280 | a NUL byte ends an item of a flow list: `[a`, NUL, `b]` names `b` |
| `Policy.DoLine` | micro/src/yaml_min.c:249-290 | one line of the search |
| `Policy.WalkLines` | micro/src/yaml_min.c:236-292 | the line loop over an open member |
| `Policy.IsSealed` | micro/src/yaml_min.c:226-293 | the verdict over the bytes of encryption/policy.yaml, not sealed without it |
| `Render.CutsAreBoundaries` | micro/render/render.c:549-599 | in a window that starts at a block boundary, the places to cut are exactly the boundaries of the whole document before a line the scan accepts |
| `Render.CutsInsideItems` | micro/render/render.c:524-599 | whatever the parser takes for items and lazy lines: a cut that is taken lies inside a list item exactly when an item is open there and the line is indented to its content |
| `Render.ItemsExactly` | micro/render/render.c:520-523 | one pass that carries the outermost open item tells which lines belong to an item |
| `Render.ItemIsCut` | micro/render/render.c:549-599 | `- a`, an empty line, `  b`: the scan cuts inside the item |
| `Render.IndentedCutsAreTabs` | micro/render/render.c:524-544 | a line the scan accepts is indented by four columns or more exactly when a tab follows its spaces |
| `Render.WindowEnd` | micro/render/render.c:549-599 | the last such place in the window, or 0 when there is none; all of a window that reaches the end |
| `RenderLines.CutsSpelled` | micro/render/render.c:549-599 | by the bytes of the lines: a cut may be taken exactly outside fences, behind a blank line, before a line that is no quote, list marker or indented line, nor, seen whole, blank or a fence |
| `RenderLines.WindowEndsOutsideFences` | micro/render/render.c:549-599 | no window ends behind a line that opens a fence and before one of at least as many of that character |
| `RenderLines.FencedExactly` | micro/render/render.c:549-599 | the fence state of the scan at every line start, from the lines alone |
| `RenderLines.TildesAreNotCut` | micro/render/render.c:506-517 | a fence of tildes around a blank line is not cut |
| `RenderLines.BoundariesSpelled` | micro/render/render.c:549-599 | the same for the boundaries of a whole document |
| `Render.FenceIsNotACut` | micro/render/render.c:549-599 | a fence that opens after a blank line is a boundary the scan does not take |
| `Render.CutHere` | micro/render/render.c:560-594 | the test at one line start |
| `Render.NoCutInside` | micro/render/render.c:549-599 | between two line starts there is no place to cut |
| `Render.FindFence` | micro/render/render.c:506-517 | three or more of one fence character after at most three blanks |
| `RenderLines.FenceExactly` | micro/render/render.c:506-517 | a fence is up to three spaces, three or more backticks or tildes, and something else; no other line is one |
| `Render.IsTopStart` | micro/render/render.c:524-544 | what may start a top-level block: no quote, no list marker, not indented |
| `RenderLines.TopStartExactly` | micro/render/render.c:524-544 | the lines turned down are exactly quotes, list markers and lines that are blank or indented by four spaces |
| `Render.AdvanceState` | micro/render/render.c:572-594 | fence and blank-line state after one line |
| `Render.CarriesDefinitions` | micro/render/render.c:609-672 | exactly the definitions outside fences are carried, in any document whose over-long lines may be passed over: outside a fence neither fence nor definition, inside one not its end |
| `Render.CarriesExactly` | micro/render/render.c:609-672 | in a document without over-long fence lines, exactly under that condition |
| `Render.CarriesBehindEveryLine` | micro/render/render.c:609-672 | in any document, exactly under that condition is a definition put behind any of its lines carried as it should be, with all before it |
| `Render.LongDefinitionIsLost` | micro/render/render.c:620-645 | a definition too long for the line buffer is not carried |
| `Render.LongFenceHidesDefinition` | micro/render/render.c:609-672 | with a fence line too long for the buffer, a definition after the fence is lost |
| `Render.GatherRefs` | micro/render/render.c:609-672 | the carried lines, in place behind each other; E_RANGE exactly when they do not fit |
| `RenderLines.DefinitionExactly` | micro/render/render.c:604-640 | a definition is up to three spaces, `[`, a label, `]:` |
| `Render.CollectRefs` | micro/render/render.c:609-672 | the same with the separating line end |
| `RenderLines.PrefixIsSetOff` | micro/render/render.c:609-672 | an empty line stands between what is carried and the window |
| `Render.Begin` | micro/render/render.c:674-698 | refusal of sealed, missing and too large documents, else a walk at the start with the definitions in front |
| `Render.Iter.Next` | micro/render/render.c:700-747 | the next window is parsed behind the definitions, the walk strictly advances or fails; E_RANGE exactly when the window holds no place to cut |
| `Render.CoversAll` | micro/render/render.c:700-747 | windows are a prefix of the document, opened at the first, closed at the last, every inner cut a boundary of the whole document |
| `Render.DrawAll` | micro/host/mcdf_micro_cli.c:376-378 | a walk that ends without error has handed out the whole document, one that fails a prefix |
| `Anchors.Linearised` | micro/src/anchors.c:105-118 | reading the ring from its oldest slot gives the last 160 bytes (159 when a carriage return stepped it back) |
| `Anchors.SuffixAnchor` | micro/src/anchors.c:225-257 | the anchor of a suffix is the anchor of the whole text if that lies inside the suffix |
| `Anchors.TailAnchor` | micro/src/anchors.c:225-257 | the anchor found in the tail is the one of the whole line, found exactly when all of it is within reach |
| `Anchors.ReturnScansAlike` | micro/src/anchors.c:95-118 | a CRLF line scans like the LF line exactly when it is shorter than the ring (or a carriage return stands at its edge) |
| `Anchors.LongReturnDiffers` | micro/src/anchors.c:95-118 | 160 letters with a carriage return scan differently |
| `Anchors.Gather` | micro/src/anchors.c:74-93 | the reading loop: length, head, ring and indentation of the line |
| `Anchors.Finish` | micro/src/anchors.c:95-118 | carriage return dropped and ring linearised |
| `Anchors.ScanLine` | micro/src/anchors.c:61-120 | head, tail and measures of the next line, the stream just behind it |
| `AnchorWalk.InfoShape` | micro/src/anchors.c:61-120 | what a scanned line guarantees the tests that follow |
| `AnchorWalk.FindFence` | micro/src/anchors.c:124-135 | fence character and run from the head |
| `AnchorLines.ShownFenceExactly` | micro/src/anchors.c:124-135 | the fences the walk sees, their length measured within the first sixteen bytes |
| `AnchorWalk.FindAtx` | micro/src/anchors.c:139-146 | heading level from the head |
| `AnchorLines.AtxExactly` | micro/src/anchors.c:139-146 | a heading of level k is up to three spaces, k of one to six hashes, and a blank or the end |
| `AnchorWalk.FindSetext` | micro/src/anchors.c:149-164 | underline level |
| `AnchorLines.SetextExactly` | micro/src/anchors.c:149-164 | `===` underlines a first and `---` a second level, and no other line does |
| `AnchorWalk.IsSetextText` | micro/src/anchors.c:172-221 | what can be underlined |
| `AnchorLines.TextExactly` | micro/src/anchors.c:172-221 | exactly the line of a paragraph: not blank, indented, a quote, a list item, a fence or a heading |
| `AnchorWalk.FindAnchor` | micro/src/anchors.c:225-257 | the id in `{#id}` at the end of a heading |
| `AnchorLines.AnchorExactly` | micro/src/anchors.c:225-257 | an id is found exactly where `{#id}` stands at the end, before blanks and a closing sequence of hashes |
| `AnchorWalk.DoLine` | micro/src/anchors.c:284-320 | one line: anchor found, fence and previous line carried on |
| `AnchorLines.HeadingFound` | micro/src/anchors.c:300-308 | outside a fence a heading gives its id and level |
| `AnchorLines.UnderlinedFound` | micro/src/anchors.c:309-316 | an underline makes a heading of the text before it |
| `AnchorLines.InsideFence` | micro/src/anchors.c:290-299 | inside a fence a fence line closes it or nothing comes of it |
| `AnchorLines.TextKept` | micro/src/anchors.c:317-320 | any other line is kept for the next one |
| `AnchorWalk.WalkLines` | micro/src/anchors.c:261-345 | count, by index and by id over one stream |
| `AnchorWalk.Ask` | micro/src/anchors.c:347-366 | the three calls, over the bytes of content.md |
| `AnchorWalk.ModesAgree` | micro/src/anchors.c:347-366 | over any content.md the three calls agree: `count` many answer by index, and an id is known exactly when some index answers it |
| `Audit.LineRoundTrip` | src/serialize/audit_log.cpp:7-43 | a written line parses back to its entry |
| `Audit.ParsedLine` | src/serialize/audit_log.cpp:12-43 | what parses prints as the line it came from, so an entry's digest is its line's |
| `Audit.LogRoundTrip` | src/serialize/audit_log.cpp:7-43 | a printed log parses back to itself |
| `Audit.SplitFields` | src/serialize/audit_log.cpp:16-38 | the field loop: four fields, or refusal |
| `Audit.ParseLog` | src/serialize/audit_log.cpp:12-43 | the log of a text, or refusal of a malformed line |
| `Audit.ReadLog` | src/core/audit_ops.cpp:37-42 | the log of a container, empty without the member |
| `Audit.Append` | src/core/audit_ops.cpp:44-52 | the line of time, action, actor and current head, tabs between them, is added at the end; nothing changes when the log does not parse |
| `Formats.GenesisSpelled` | src/core/audit_ops.cpp:29-35 | the first entry names sixty-four zeros |
| `Audit.AppendKeepsChain` | src/core/audit_ops.cpp:44-52 | what is appended to a log that parses reads back as one more entry, and chain-valid stays chain-valid, exactly when the text ended its last line and no field holds a tab or a line end; with fields free of line ends the log is otherwise unreadable |
| `Audit.TabBreaksLog` | src/core/audit_ops.cpp:44-52 | an action that is a tab makes the log unreadable |
| `Audit.Verify` | src/core/audit_ops.cpp:54-71 | valid exactly when every entry names the digest of the one before, else the first that does not |
| `Audit.HeadReached` | src/core/audit_ops.cpp:111-123 | the walk finds the head exactly when an unbroken chain from genesis reaches it |
| `Audit.TraceBack` | src/core/audit_ops.cpp:54-71 | equal digests at two places of two chains trace both back to their start |
| `Audit.CheckpointMeansPrefix` | src/core/audit_ops.cpp:86-127 | a checkpoint of a non-empty chain-valid log verifies against another log only if the first is its prefix, or a collision or a line digesting to genesis exists; and against every extension |
| `Audit.EmptyCheckpointHolds` | src/core/audit_ops.cpp:86-127 | a checkpoint of the empty log verifies against every log |
| `Audit.SignCheckpoint` | src/core/audit_ops.cpp:73-84 | the head is signed and stored, or nothing changes |
| `Audit.VerifyCheckpoint` | src/core/audit_ops.cpp:86-127 | absence, unreadable pair, signature and chain verdict as the source returns them |
| `Audit.CarriedCheckpoint` | src/core/audit_ops.cpp:73-127 | from checkpointing one container to checking another: valid means signed and prefix, up to the exceptions above |
| `Seal.FindBound` | src/core/encrypt_ops.cpp:31-52 | the declared sections whose ids are among the heading anchors |
| `Seal.AttestedExactly` | src/core/encrypt_ops.cpp:31-67 | an attestation is made exactly for content.md sealed under a schema that stays readable and declares sections; it names exactly the declared ids that a top-level heading carries |
| `Seal.Attest` | src/core/encrypt_ops.cpp:56-67 | whether the sealed set hides the structure, and then its bound sections |
| `Seal.SealMembers` | src/core/encrypt_ops.cpp:112-120 | members overwritten one by one up to the first failure |
| `Seal.SealedWithOwnNonce` | src/core/encrypt_ops.cpp:112-120 | the i-th member is sealed with the i-th nonce under its own path |
| `Seal.OpenMembers` | src/core/encrypt_ops.cpp:170-177 | members opened one by one up to the first failure |
| `Seal.WrapForAll` | src/core/encrypt_ops.cpp:122-133 | the content key wrapped for each recipient |
| `Seal.Encrypt` | src/core/encrypt_ops.cpp:81-139 | the whole new container and outcome, failures half-way included |
| `Seal.FindKey` | src/core/encrypt_ops.cpp:151-168 | one's own entry in the policy, and the key unwrapped from it |
| `Seal.Decrypt` | src/core/encrypt_ops.cpp:141-201 | the whole new container and outcome |
| `Seal.OutcomesSpelled` | src/core/encrypt_ops.cpp:141-201 | which refusal has which outcome |
| `Seal.OpenUndoesSeal` | src/core/encrypt_ops.cpp:81-201 | opening the listed members gives the container back, even when a member is listed more than once |
| `Seal.ListedGetsKey` | src/core/encrypt_ops.cpp:122-168 | every listed recipient gets the content key |
| `Seal.DecryptRestores` | src/core/encrypt_ops.cpp:81-201 | decrypting with any listed recipient's key after sealing restores every member, passes the attestation check, removes the policy and leaves a fresh manifest |
| `Seal.RebuiltIsFresh` | src/core/encrypt_ops.cpp:71-77 | rebuilding the manifest twice changes nothing |
| `Seal.CoveredIgnores` | src/core/manifest_ops.cpp:15-18 | a write or a removal leaves what the manifest covers alone exactly when it changes nothing or lies outside |
| `Seal.AuditAndSignaturesKeepFresh` | src/core/manifest_ops.cpp:15-18 | an audit entry, a checkpoint, and a signature written or removed keep a fresh manifest fresh |
| `Seal.FailureLeavesNoPolicy` | src/core/encrypt_ops.cpp:81-139 | a failure after sealing began leaves ciphertext and no policy |
| `Seal.OpensUpTo` | src/core/encrypt_ops.cpp:170-177 | wherever opening stops, exactly the members up to there have been opened, each as often as it is listed |
| `Seal.FailureLeavesAlone` | src/core/encrypt_ops.cpp:141-201 | a decryption that fails leaves the container as it was exactly when the policy is absent or unreadable, no key unwraps, or every member opened before the stop opens to what it held |
| `Seal.FirstStops` | src/core/encrypt_ops.cpp:170-177 | so it does when the first listed member is missing or does not open |
| `Seal.MismatchIsLate` | src/core/encrypt_ops.cpp:179-196 | an attestation mismatch is reported after all listed members have been rewritten |
| `Seal.AttestedIssues` | src/core/validate.cpp:24-76 | the attested sections stand in for the headings without changing an issue |
| `Seal.SealKeepsVerdict` | src/core/validate.cpp:24-76 | sealing leaves the list of core issues unchanged exactly unless content.md is sealed under a schema that declares no section |
| `Seal.CheckCore` | src/core/validate.cpp:24-76 | the core issues of a container, in order |
| `Seal.ReportedExactly` | src/core/validate.cpp:55-76 | what is reported over unsealed members: a missing content.md, and exactly the declared sections whose id no top-level heading carries |
| `Seal.SectionReported` | src/core/validate.cpp:55-76 | one declared section: RequiredMissing or SchemaUnbound exactly when no top-level heading carries its id |
| `Seal.SealedSectionReported` | src/core/validate.cpp:35-53 | the same after content.md has been sealed, by the headings that were sealed |
| `Seal.NestedHeadingsDoNotBind` | src/core/validate.cpp:55-60 | anchors only inside a quote and a list item: both sections are reported |
| `Html.BuildNests` | src/core/html_normalize.hpp:173-289 | whatever was scanned, the written tags nest: each opened element is closed once, last in first out |
| `Html.TextIsKept` | src/core/html_normalize.hpp:129-290 | every scanned text run survives, in order |
| `Html.NestedIsKept` | src/core/html_normalize.hpp:173-281 | input that nests already is kept tag by tag |
| `HtmlRules.NeverInside` | src/core/html_normalize.hpp:36-51 | in what is written for any document no block stands in a paragraph, no `li` in `li`, no `dt` or `dd` in either, no cell or row in a cell, no row in a row, no option in an option |
| `HtmlRules.OpensOrEnds` | src/core/html_normalize.hpp:213-217 | an opening tag ends the element it stands in exactly by these rules, and otherwise closes nothing |
| `HtmlRules.VoidStaysEmpty` | src/core/html_normalize.hpp:23-28 | the fourteen elements without content are never opened or closed |
| `HtmlRules.RawIsDropped` | src/core/html_normalize.hpp:31-33 | no script or style sheet is written |
| `HtmlScan.NormalNests` | src/core/html_normalize.hpp:129-290 | for every input string the normalised tags nest and keep its text |
| `HtmlScan.Normalize` | src/core/html_normalize.hpp:129-290 | for every input the loops end and write the normalised tags inside one root element |
| `HtmlScan.Scan` | src/core/html_normalize.hpp:142-211 | one construct: text, comment, closing or opening tag, always moving on |
| `HtmlRules.ScansText` | src/core/html_normalize.hpp:143-149 | text up to the next `<` is one run |
| `HtmlRules.ScansComment` | src/core/html_normalize.hpp:152-156 | a comment is passed over to its end, or to the end of the document |
| `HtmlRules.ScansDeclaration` | src/core/html_normalize.hpp:157-161 | a declaration or processing instruction to its `>` |
| `HtmlRules.ScansStrayTail` | src/core/html_normalize.hpp:163-167 | a tag that never ends is text |
| `HtmlRules.ScansEndTag` | src/core/html_normalize.hpp:173-191 | `</name>` in any case, blanks left out |
| `HtmlRules.ScansStartTag` | src/core/html_normalize.hpp:193-211 | `<name attributes>` and `<name attributes/>` in any case |
| `HtmlRules.ReadsRawTag` | src/core/html_normalize.hpp:199-211 | a script or style sheet is passed over to the `>` of its end tag |
| `HtmlScan.Take` | src/core/html_normalize.hpp:143-281 | what one construct writes and does to the stack |
| `HtmlScan.CloseNamed` | src/core/html_normalize.hpp:173-191 | everything down to the named element is closed, or nothing when it is not open |
| `HtmlScan.CloseImplied` | src/core/html_normalize.hpp:213-217 | the elements an opening tag ends |
| `HtmlScan.ReadAttr` | src/core/html_normalize.hpp:225-263 | one attribute with quoted, bare or missing value |
| `HtmlScan.ReadAttrs` | src/core/html_normalize.hpp:221-274 | the attribute loop, which moves on at every turn |
| `HtmlRules.AttrsAsSpelled` | src/core/html_normalize.hpp:221-274 | any list of attributes spelled ` name="value"` is read as it is |
| `HtmlRules.QuotedAttr` | src/core/html_normalize.hpp:225-263 | a value in either kind of quotes |
| `HtmlRules.BareAttr` | src/core/html_normalize.hpp:225-263 | a value without quotes, up to the next blank |
| `HtmlRules.NameAloneAttr` | src/core/html_normalize.hpp:225-263 | a name alone has an empty value |
| `HtmlScan.EscapeText` | src/core/html_normalize.hpp:95-125 | escaped text: references resolved, copied or escaped |
| `HtmlRules.ReferencesSpelled` | src/core/html_normalize.hpp:105-120 | `&name;` of at most eleven characters is copied when numeric and resolved when known; any other is left alone |
| `HtmlScan.ValueIsClean` | src/core/html_normalize.hpp:266-273 | attribute values can neither end their quotes nor open a tag |
| `HtmlScan.TextIsClean` | src/core/html_normalize.hpp:95-125 | text is written without `<` and `>` exactly when no numeric reference in it, as long as the source looks for one, holds any |
| `HtmlScan.NamesAreNotChecked` | src/core/html_normalize.hpp:193-220 | the tag name of `<a<b>` is `a<b`, and is written so |
| `HtmlXml.EntitiesAreSound` | src/core/html_normalize.hpp:56-93 | every named entity resolves to text XML reads |
| `HtmlXml.CopyAndReg` | src/core/html_normalize.hpp:56-93 | two of the entities, each the UTF-8 of the code point the HTML standard gives it; the others likewise |
| `HtmlXml.ReadText` | src/core/html_normalize.hpp:95-125 | escaped text, read as XML, says the text with its references resolved, or cannot be read at all |
| `HtmlXml.SaysExactly` | src/core/html_normalize.hpp:95-125 | it can be read exactly when its characters are legal and its numeric references name legal characters |
| `HtmlXml.ReadValueOf` | src/core/html_normalize.hpp:266-273 | a written attribute value reads as the value |
| `HtmlXml.ReadAttrsOf` | src/core/html_normalize.hpp:221-274 | the written attributes read as the attributes |
| `HtmlXml.ReadNestedIsGood` | src/core/html_normalize.hpp:173-289 | tags that nest and can be read are all ones XML can say: a bad name shows at the latest in its closing tag |
| `HtmlXml.BuildGood` | src/core/html_normalize.hpp:173-289 | the tags written are such tags exactly when the opening tags and texts of the input are |
| `HtmlXml.ReadsBack` | src/core/html_normalize.hpp:129-290 | then the written text reads back as the normalised tags inside the root element |
| `HtmlXml.WellFormedExactly` | src/core/html_normalize.hpp:127-290 | what is written is well-formed XML exactly when every opening tag of the input has an XML name, no attribute twice and legal characters in its values, and every text run legal characters and numeric references to legal characters |
| `HtmlXml.NormalizeHtml` | src/core/html_normalize.hpp:127-290 | both for the method, with the entities the source knows |
| `HtmlXml.StrayReference` | src/core/html_normalize.hpp:163-167 | `<&#<;` is one stray tail, written as `&lt;&#<;` |
| `HtmlXml.StrayReferenceBreaks` | src/core/html_normalize.hpp:106-112 | which is not well-formed |
| `HtmlXml.OddNameBreaks` | src/core/html_normalize.hpp:193-220 | nor is what `<a<b>` becomes |
| `HtmlXml.RepeatedAttribute` | src/core/html_normalize.hpp:221-274 | the tag of `<a x x>` keeps both attributes |
| `HtmlXml.RepeatedAttributeBreaks` | src/core/html_normalize.hpp:221-274 | and is not well-formed either |
| `Jobs.StepKeeps` | apps/studio/main.cpp:776-842 | every lock-held section keeps the invariant |
| `Jobs.RunKeeps` | apps/studio/main.cpp:776-842 | so does every interleaving of them |
| `Jobs.BusyMeansOneJob` | apps/studio/main.cpp:808-832 | a document is busy exactly when one job for it is queued, in hand or done; no document is erased while a job refers to it |
| `Jobs.ReadBesideJob` | apps/studio/main.cpp:1412-1417 | in every run: a job refers to the document a panel reads exactly when that panel has itself submitted one since it began; to the document of a window title exactly when it is busy |
| `Jobs.PanelRaces` | apps/studio/main.cpp:1814-1867 | a panel that submits a job and reads on reads while the worker holds that job |
| `Jobs.TitleRaces` | apps/studio/main.cpp:2443-2460 | a window title is read while the worker holds a job for its document |
| `Jobs.AppliedInOrder` | apps/studio/main.cpp:789-832 | jobs run and are applied in submit order, none skipped or repeated |
| `Jobs.ShutdownIsComplete` | apps/studio/main.cpp:834-842 | after shutdown every submitted job has run and been applied |
| `Jobs.ShutdownEnds` | apps/studio/main.cpp:834-842 | a shutdown can always go on until it is over, and each step brings that nearer |
| `Jobs.Studio.MarkBusyStep` | apps/studio/main.cpp:808-816 | the busy flag, behind the caller's guard |
| `Jobs.Studio.PushStep` | apps/studio/main.cpp:808-816 | the job into the queue |
| `Jobs.Studio.TakeStep` | apps/studio/main.cpp:789-798 | the oldest job in hand, or the end of the thread when there is none and it should quit |
| `Jobs.Studio.WorkStep` | apps/studio/main.cpp:799-800 | the job run outside the lock |
| `Jobs.Studio.FinishStep` | apps/studio/main.cpp:801-805 | the job on the done list |
| `Jobs.Studio.PopStep` | apps/studio/main.cpp:819-828 | the oldest finished job, if any |
| `Jobs.Studio.ApplyStep` | apps/studio/main.cpp:828-831 | its completion on the interface thread, and the document no longer busy |
| `Jobs.Studio.ReapStep` | apps/studio/main.cpp:2790-2798 | a closed document is erased unless it is busy |
| `Jobs.Studio.DrainAll` | apps/studio/main.cpp:834-842 | the last drain leaves nothing done, nothing busy, and everything applied |
| `Caches.Doc.RefreshSignatures` | apps/studio/core/studio_core.cpp:695-702 | after it the cached checks are those of the working copy, recomputed or not |
| `Caches.Doc.RefreshAudit` | apps/studio/core/studio_core.cpp:807-819 | the same for entries, chain verdict and checkpoint |
| `Caches.Doc.RefreshConformance` | apps/studio/core/studio_core.cpp:937-950 | the same for the reports |
| `Caches.Doc.Reload` | apps/studio/core/studio_core.cpp:156-176 | the revision moves past every cached one, and member list and manifest are those of the working copy |
| `Caches.Doc.ResetViews` | apps/studio/core/studio_core.cpp:236-265 | everything derived is dropped |
| `Caches.Doc.LoadModels` | apps/studio/core/studio_core.cpp:200-224 | models and policy as the working copy has them |
| `Caches.Doc.Open` | apps/studio/core/studio_core.cpp:269-300 | a new working copy, or none, with nothing cached current |
| `Caches.Doc.WriteMembers` | apps/studio/core/studio_core.cpp:483-526 | canonical content, models and manifest written; members sealed at rest left alone |
| `Caches.Doc.Flush` | apps/studio/core/studio_core.cpp:528-537 | the same on the working copy, and the revision moves on |
| `Caches.SaveKeepsSealed` | apps/studio/core/studio_core.cpp:500-526 | which members a save writes; a sealed one is never touched |
| `Caches.Doc.SaveAs` | apps/studio/core/studio_core.cpp:567-597 | the working copy is not touched; the document moves to the archive read back |
| `Caches.Doc.Sign` | apps/studio/core/studio_core.cpp:704-739 | flush, then the signature under the filtered name; the manifest is fresh afterwards |
| `Caches.FileNameOf` | apps/studio/core/studio_core.cpp:719-729 | the name filter |
| `Caches.SignatureNamed` | apps/studio/core/studio_core.cpp:719-729 | a name of letters, digits, `-` and `_` is the name of the file, `author` stands for none, and no other byte makes a difference |
| `Caches.Doc.RemoveSignature` | apps/studio/core/studio_core.cpp:741-750 | the member is gone and the revision moves on; a fresh manifest stays fresh when it lay outside |
| `Caches.FindKeys` | apps/studio/core/studio_core.cpp:761-769 | the recipient loop, before anything is written |
| `Caches.Doc.Encrypt` | apps/studio/core/studio_core.cpp:754-786 | nothing changes without usable recipients; else flush, seal, and reload on success |
| `Caches.Doc.Decrypt` | apps/studio/core/studio_core.cpp:788-803 | on success everything is reloaded; on failure the working copy is unchanged, and every view as right as it was, exactly for a container that failing leaves alone |
| `Caches.FailsHalfway` | apps/studio/core/studio_core.cpp:788-803 | opening that fails at the second member has rewritten the first |
| `Caches.StayRightExactly` | apps/studio/core/studio_core.cpp:695-702 | views stay right for every engine exactly when what they are computed from did not change |
| `Caches.ViewsSurviveExactly` | apps/studio/core/studio_core.cpp:788-803 | views survive a failed decryption, whatever the engine computes, exactly when none is current or the state before it says so: signatures and reports need a container that failing leaves alone, the audit view its two members |
| `Caches.HalfOpens` | apps/studio/core/studio_core.cpp:788-803 | a container, a key and an engine for which they do not |
| `Caches.StaleView` | apps/studio/core/studio_core.cpp:788-803 | the document in that state: a signature view that claims to be current and is not |
| `Caches.Doc.AppendEntry` | apps/studio/core/studio_core.cpp:821-832 | the appended log, and the revision moves on exactly when it was written; a fresh manifest stays fresh |
| `Caches.Doc.MakeCheckpoint` | apps/studio/core/studio_core.cpp:834-844 | the stored checkpoint likewise |
| `Caches.Doc.Perform` | apps/studio/core/studio_core.cpp:695-844 | one operation leaves every current view right exactly unless it is a decryption that fails after rewriting what some current view shows |
| `Caches.Doc.PerformAll` | apps/studio/core/studio_core.cpp:156-844 | after any sequence of operations every current view is right, unless such a decryption came after the last operation that moved the revision on |

## Left out

- Seal.SealKeepsVerdict: heading extraction and schema parsing (md4c, yaml-cpp) are parameters, and so is reading a written policy back.
- Seal.DecryptRestores: AES-GCM and HPKE are parameters of which only "opening undoes sealing" is supposed.
- Verify.SameManifestSameBytes: the SHA-256 compression function is a parameter; its rounds are not modelled.
- Canonical.CanonicalManifest: `std::sort` is represented by a sorting function; the sorted arrangement is unique (`Canonical.SortedUnique`). Floats are not modelled, and integers are given by their printed text.
- Index.Open: a read callback that fails (E_IO), null arguments and the feature gates.
- Index.ArenaSizeSuffices: the size of the reader struct is a parameter below the published overhead, and an entry has its published size, as the build asserts.
- Manifest.LookupField: outputs are byte strings, not NUL-terminated buffers.
- Metadata.MetadataRoundTrip: the ids of authors, which the C reader does not return.
- Policy.SealedIffListed: fields with line breaks in them, which would be written as more lines.
- Render.DrawAll: what md4c makes of a window; that rendered events equal those of a whole-document parse is not claimed. The parser is a parameter that accepts or fails.
- Render.CutsInsideItems: which markers the parser takes for items and which lines for lazy ones is a parameter, and block quotes and HTML blocks are not told apart.
- Render.CutsAreBoundaries: a boundary is judged by the scan's own fence state; a fence inside a list item that the parser closes together with the item stays open for the scan.
- AnchorWalk.Ask: that the anchors are those md4c would report.
- Audit.VerifyCheckpoint: parsing the stored JSON pair and checking the detached signature are parameters.
- Seal.CheckCore: the integrity, signed, encrypted and render checks and the profile names of `validate`.
- HtmlXml.WellFormedExactly: bytes from 80 on count as letters and characters, whatever they encode, and attribute values are compared before white space in them is normalised.
- Jobs.AppliedInOrder: fairness of the scheduler; the theorems are about every interleaving, not about when one ends.
- Caches.Doc.RefreshAudit: the text that names the broken entry.
- Caches.Doc.Flush: directory I/O that fails; a working copy is a map from path to bytes.
- Jobs.Studio.WorkStep: what a job computes; the queue does not depend on it.
- Jobs.Studio.ApplyStep: the editor update and the completion callback of a job.
- Jobs.Studio.ReapStep: which documents the user has closed; any document that is not busy may be erased at any time, so more runs are covered.
- Caches.Doc.Perform: keys without a private part and operations refused for lack of a path, which change nothing.
- Live hash overlays of unsaved edits, image insertion, disk-hash drift, keys without a private part.
- ZIP, EPUB and XHTML conversion, signing internals, path safety, file dialogs, panels, preferences and command lines.
