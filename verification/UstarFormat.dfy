/**
 * The USTAR header block both implementations speak: octal fields, NUL-padded fields, checksum,
 * and the split of a long path over two fields. Everything here is the common reference that the
 * writer (Tar), the C++ reader (Tar) and the C reader (Ustar, Index) are proved against.
 */
module UstarFormat {
  import opened Bytes

  const BLOCK: nat := 512
  /** "ustar" */
  const MAGIC: seq<byte> := [0x75, 0x73, 0x74, 0x61, 0x72]

  type Path = seq<byte>

  datatype Member = Member(path: Path, data: seq<byte>)

  // ------------------------------------------------------------ numbers

  predicate IsOctal(b: byte) {
    0x30 <= b <= 0x37
  }

  predicate IsBlank(b: byte) {
    b == SPACE || b == 0
  }

  ghost function OctValue(ds: seq<byte>): int {
    if ds == [] then 0 else OctValue(ds[..|ds| - 1]) * 8 + (ds[|ds| - 1] as int - 0x30)
  }

  /** The low `n` octal digits of `v`, right-justified. */
  ghost function OctDigits(v: nat, n: nat): (ds: seq<byte>)
    ensures |ds| == n && forall i :: 0 <= i < n ==> IsOctal(ds[i])
  {
    if n == 0 then [] else OctDigits(v / 8, n - 1) + [0x30 + v % 8]
  }

  /** What is left of `v` in a field of `n` octal digits. */
  ghost function LowDigits(v: nat, n: nat): nat {
    if n == 0 then 0 else LowDigits(v / 8, n - 1) * 8 + v % 8
  }

  function Pow8(n: nat): (p: nat)
    ensures p > 0
  {
    if n == 0 then 1 else 8 * Pow8(n - 1)
  }

  lemma Pow8Values()
    ensures Pow8(6) == 262144 && Pow8(11) == 0x2_0000_0000 && Pow8(12) == 0x10_0000_0000
  {
    assert Pow8(4) == 4096;
    assert Pow8(8) == 16777216;
  }

  lemma {:induction false} OctRoundTrip(v: nat, n: nat)
    ensures OctValue(OctDigits(v, n)) == LowDigits(v, n)
    ensures LowDigits(v, n) < Pow8(n)
    ensures LowDigits(v, n) == v <==> v < Pow8(n)
  {
    if n > 0 {
      OctRoundTrip(v / 8, n - 1);
      assert OctDigits(v, n)[..n - 1] == OctDigits(v / 8, n - 1);
    }
  }

  lemma {:induction false} OctBound(ds: seq<byte>)
    requires forall i :: 0 <= i < |ds| ==> IsOctal(ds[i])
    ensures 0 <= OctValue(ds) < Pow8(|ds|)
  {
    if ds != [] {
      OctBound(ds[..|ds| - 1]);
    }
  }

  /** First position from `i` on that is neither a space nor a NUL. */
  ghost function SkipBlank(p: seq<byte>, i: nat): (s: nat)
    requires i <= |p|
    ensures i <= s <= |p| && (forall k :: i <= k < s ==> IsBlank(p[k])) && (s < |p| ==> !IsBlank(p[s]))
    decreases |p| - i
  {
    if i < |p| && IsBlank(p[i]) then SkipBlank(p, i + 1) else i
  }

  /** First position from `i` on that is not an octal digit. */
  ghost function RunEnd(p: seq<byte>, i: nat): (e: nat)
    requires i <= |p|
    ensures i <= e <= |p| && (forall k :: i <= k < e ==> IsOctal(p[k])) && (e < |p| ==> !IsOctal(p[e]))
    decreases |p| - i
  {
    if i < |p| && IsOctal(p[i]) then RunEnd(p, i + 1) else i
  }

  /** The octal number in a field: the first run of digits, wherever it stops. */
  ghost function FieldNumber(p: seq<byte>): (v: nat) {
    var s := SkipBlank(p, 0);
    OctBound(p[s..RunEnd(p, s)]);
    OctValue(p[s..RunEnd(p, s)])
  }

  lemma {:induction false} RunEndIs(p: seq<byte>, i: nat, e: nat)
    requires i <= e <= |p| && (forall k :: i <= k < e ==> IsOctal(p[k])) && (e < |p| ==> !IsOctal(p[e]))
    ensures RunEnd(p, i) == e
    decreases e - i
  {
    if i < e {
      RunEndIs(p, i + 1, e);
    }
  }

  /** A written number field is read back, up to the digits that did not fit. */
  lemma OctFieldRead(v: nat, n: nat, rest: seq<byte>)
    requires n > 0 && rest != [] && IsBlank(rest[0])
    ensures FieldNumber(OctDigits(v, n) + rest) == LowDigits(v, n)
    ensures SkipBlank(OctDigits(v, n) + rest, 0) == 0 && RunEnd(OctDigits(v, n) + rest, 0) == n
  {
    var p := OctDigits(v, n) + rest;
    assert IsOctal(OctDigits(v, n)[0]) && p[0] == OctDigits(v, n)[0];
    RunEndIs(p, 0, n);
    assert p[0..n] == OctDigits(v, n);
    OctRoundTrip(v, n);
  }

  // ------------------------------------------------------------ strings

  /** Length of a NUL-padded field. */
  ghost function FieldLen(p: seq<byte>): (n: nat)
    ensures n <= |p| && (forall k :: 0 <= k < n ==> p[k] != 0) && (n < |p| ==> p[n] == 0)
  {
    if p == [] || p[0] == 0 then 0 else 1 + FieldLen(p[1..])
  }

  /** The text of a NUL-padded field. */
  ghost function Field(p: seq<byte>): (s: seq<byte>)
    ensures 0 !in s
  {
    p[..FieldLen(p)]
  }

  function Padded(s: seq<byte>, n: nat): (r: seq<byte>)
    requires |s| <= n
    ensures |r| == n
  {
    s + Repeat(0, n - |s|)
  }

  lemma FieldLenIs(p: seq<byte>, n: nat)
    requires n <= |p| && (forall k :: 0 <= k < n ==> p[k] != 0) && (n < |p| ==> p[n] == 0)
    ensures FieldLen(p) == n
  {
  }

  /** A padded field keeps exactly the strings without a NUL. */
  lemma PaddedField(s: seq<byte>, n: nat)
    requires |s| <= n
    ensures Field(Padded(s, n)) == s <==> 0 !in s
    ensures 0 in s ==> |Field(Padded(s, n))| < |s|
  {
    var p := Padded(s, n);
    if 0 !in s {
      FieldLenIs(p, |s|);
    } else {
      var k :| 0 <= k < |s| && s[k] == 0;
      assert p[k] == 0;
    }
  }

  // ------------------------------------------------------------ path splitting

  /** Whether `/` at `i` splits `path` into a prefix and a name that both fit. */
  predicate SplitsAt(path: Path, i: nat) {
    i < |path| && path[i] == SLASH && i + 1 < |path| && i <= 155 && |path| - i - 1 <= 100
  }

  ghost function FirstSplit(path: Path, i: nat): (r: nat)
    requires i <= |path|
    ensures i <= r <= |path| && (r < |path| ==> SplitsAt(path, r))
    ensures forall k :: i <= k < r ==> !SplitsAt(path, k)
    decreases |path| - i
  {
    if i == |path| || SplitsAt(path, i) then i else FirstSplit(path, i + 1)
  }

  datatype Split = Split(prefix: Path, name: Path)

  /** `split_path`: the two header fields of a path, if it fits them. */
  ghost function SplitPath(path: Path): (r: Option<Split>)
    ensures r.Some? ==> |r.value.name| <= 100 && |r.value.prefix| <= 155
  {
    if |path| <= 100 then Some(Split([], path))
    else if |path| > 255 then None
    else
      var i := FirstSplit(path, 0);
      if i == |path| then None else Some(Split(path[..i], path[i + 1..]))
  }

  /** The path a reader assembles from the two fields. */
  function JoinPath(prefix: Path, name: Path): Path {
    if prefix == [] then name else prefix + [SLASH] + name
  }

  /** The only split that loses a byte: a leading slash with exactly 100 bytes after it. */
  predicate LosesSlash(path: Path) {
    |path| == 101 && path[0] == SLASH
  }

  /** Joining the two fields gives the path back exactly when the split was not at a leading slash. */
  lemma SplitJoin(path: Path)
    requires SplitPath(path).Some?
    ensures var s := SplitPath(path).value;
      (JoinPath(s.prefix, s.name) == path <==> !LosesSlash(path)) &&
      |JoinPath(s.prefix, s.name)| <= |path| &&
      (path != [] ==> s.name != [])
  {
    if |path| > 100 {
      var i := FirstSplit(path, 0);
      if LosesSlash(path) { assert SplitsAt(path, 0); }
      assert path == path[..i] + [SLASH] + path[i + 1..];
    }
  }

  /** `/` and a hundred letters: a path that comes back without its slash. */
  lemma SlashIsLost()
    ensures var path := [SLASH] + Repeat(0x61, 100);
      SplitPath(path) == Some(Split([], Repeat(0x61, 100))) && JoinPath([], Repeat(0x61, 100)) != path
  {
    var path := [SLASH] + Repeat(0x61, 100);
    assert SplitsAt(path, 0) && FirstSplit(path, 0) == 0;
    assert path[1..] == Repeat(0x61, 100) && path[..0] == [];
  }

  // ------------------------------------------------------------ the header block

  ghost function ByteSum(s: seq<byte>): nat {
    if s == [] then 0 else ByteSum(s[..|s| - 1]) + s[|s| - 1]
  }

  lemma {:induction false} ByteSumBound(s: seq<byte>)
    ensures ByteSum(s) <= 255 * |s|
  {
    if s != [] { ByteSumBound(s[..|s| - 1]); }
  }

  /** The block with its checksum field read as spaces. */
  function Blanked(block: seq<byte>): (r: seq<byte>)
    requires |block| == BLOCK
    ensures |r| == BLOCK
  {
    block[..148] + Repeat(SPACE, 8) + block[156..]
  }

  ghost function Octal(v: nat, width: nat): (r: seq<byte>)
    requires width > 0
    ensures |r| == width
  {
    OctDigits(v, width - 1) + [0]
  }

  /** Everything before the checksum: name, mode 0644, uid, gid, size, mtime. */
  ghost function HeaderFront(name: Path, size: nat): (r: seq<byte>)
    requires |name| <= 100
    ensures |r| == 148
  {
    Padded(name, 100) + Octal(0x1A4, 8) + Octal(0, 8) + Octal(0, 8) + Octal(size, 12) + Octal(0, 12)
  }

  /** Everything after it: type '0', link name, "ustar", "00", owner fields, prefix, padding. */
  ghost function HeaderBack(prefix: Path): (r: seq<byte>)
    requires |prefix| <= 155
    ensures |r| == 356
  {
    [ZERO] + Repeat(0, 100) + MAGIC + [0, ZERO, ZERO] + Repeat(0, 80) + Padded(prefix, 155) + Repeat(0, 12)
  }

  ghost function Header(s: Split, size: nat): (r: seq<byte>)
    requires |s.name| <= 100 && |s.prefix| <= 155
    ensures |r| == BLOCK
  {
    var sum := ByteSum(HeaderFront(s.name, size) + Repeat(SPACE, 8) + HeaderBack(s.prefix));
    HeaderFront(s.name, size) + (OctDigits(sum, 6) + [0, SPACE]) + HeaderBack(s.prefix)
  }

  lemma HeaderFields(s: Split, size: nat)
    requires |s.name| <= 100 && |s.prefix| <= 155
    ensures var h := Header(s, size);
      h[..100] == Padded(s.name, 100) && h[124..136] == Octal(size, 12) &&
      h[148..156] == OctDigits(ByteSum(Blanked(h)), 6) + [0, SPACE] && h[156] == ZERO &&
      h[257..262] == MAGIC && h[345..500] == Padded(s.prefix, 155)
  {
    var front, back := HeaderFront(s.name, size), HeaderBack(s.prefix);
    var h := Header(s, size);
    assert h[..148] == front && h[156..] == back;
    assert Blanked(h) == front + Repeat(SPACE, 8) + back;
    assert h[..100] == front[..100] && h[124..136] == front[124..136];
    assert h[257..262] == back[101..106] && h[345..500] == back[189..344];
  }

  lemma {:induction false} ZeroDigits(n: nat)
    ensures OctDigits(0, n) == Repeat(0x30, n)
  {
    if n > 0 { ZeroDigits(n - 1); }
  }

  lemma ModeDigits()
    ensures Octal(0x1A4, 8) == [0x30, 0x30, 0x30, 0x30, 0x36, 0x34, 0x34, 0x00]
  {
    ZeroDigits(4);
    assert OctDigits(6, 5) == OctDigits(0, 4) + [0x36];
    assert OctDigits(52, 6) == OctDigits(6, 5) + [0x34];
    assert OctDigits(0x1A4, 7) == OctDigits(52, 6) + [0x34];
  }

  /**
   * The fields no reader of the format asks for, byte by byte: mode 0644, owner, group and time 0, no
   * link, `ustar` with its NUL and version 00, no owner names, and zeros to the end.
   */
  lemma HeaderSpelled(s: Split, size: nat)
    requires |s.name| <= 100 && |s.prefix| <= 155
    ensures var h := Header(s, size);
      h[100..108] == [0x30, 0x30, 0x30, 0x30, 0x36, 0x34, 0x34, 0x00] &&
      h[108..116] == h[116..124] == Repeat(0x30, 7) + [0x00] && h[136..148] == Repeat(0x30, 11) + [0x00] &&
      h[157..257] == Repeat(0, 100) && h[257..265] == [0x75, 0x73, 0x74, 0x61, 0x72, 0x00, 0x30, 0x30] &&
      h[265..345] == Repeat(0, 80) && h[500..512] == Repeat(0, 12)
  {
    ModeDigits();
    ZeroDigits(7);
    ZeroDigits(11);
    hide OctDigits, ByteSum, Padded;
    var front, back := HeaderFront(s.name, size), HeaderBack(s.prefix);
    var h := Header(s, size);
    assert h[..148] == front && h[156..] == back;
    assert h[100..108] == front[100..108] && h[108..116] == front[108..116] && h[116..124] == front[116..124];
    assert h[136..148] == front[136..148];
    assert h[157..257] == back[1..101] && h[257..265] == back[101..109];
    assert h[265..345] == back[109..189] && h[500..512] == back[344..356];
  }

  predicate IsZeroBlock(block: seq<byte>) {
    forall i :: 0 <= i < |block| ==> block[i] == 0
  }

  ghost predicate ChecksumOk(block: seq<byte>)
    requires |block| == BLOCK
  {
    FieldNumber(block[148..156]) == ByteSum(Blanked(block))
  }

  predicate IsRegular(block: seq<byte>)
    requires |block| == BLOCK
  {
    block[156] == ZERO || block[156] == 0
  }

  /** A decoded header: the end marker, something unacceptable, or an entry. */
  datatype Decoded = End | Bad | Entry(path: Path, size: nat, regular: bool)

  /** What the C++ reader makes of a header block. */
  ghost function LaxHeader(block: seq<byte>): Decoded
    requires |block| == BLOCK
  {
    if IsZeroBlock(block) then End
    else if !ChecksumOk(block) then Bad
    else Entry(JoinPath(Field(block[345..500]), Field(block[..100])), FieldNumber(block[124..136]), IsRegular(block))
  }

  /** A written header is a regular entry, and its path and size are those of its fields. */
  lemma HeaderRead(s: Split, size: nat)
    requires |s.name| <= 100 && |s.prefix| <= 155
    ensures var h := Header(s, size);
      LaxHeader(h) ==
        Entry(JoinPath(Field(Padded(s.prefix, 155)), Field(Padded(s.name, 100))), LowDigits(size, 11), true)
  {
    var h := Header(s, size);
    HeaderFields(s, size);
    var sum := ByteSum(Blanked(h));
    ByteSumBound(Blanked(h));
    Pow8Values();
    OctRoundTrip(sum, 6);
    OctFieldRead(sum, 6, [0, SPACE]);
    OctFieldRead(size, 11, [0]);
    assert h[156] != 0;
  }

  function RoundUp(size: nat): (r: nat)
    ensures size <= r < size + BLOCK && r % BLOCK == 0
  {
    (size + BLOCK - 1) / BLOCK * BLOCK
  }
}
