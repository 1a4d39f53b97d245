/** The archive writer and reader of src/container/tar.cpp. */
module Tar {
  import opened Bytes
  import opened UstarFormat

  type Members = seq<Member>

  // ------------------------------------------------------------ the archive as a value

  ghost function Entry(m: Member): seq<byte>
    requires SplitPath(m.path).Some?
  {
    Header(SplitPath(m.path).value, |m.data|) + m.data + Repeat(0, RoundUp(|m.data|) - |m.data|)
  }

  ghost predicate AllFit(ms: Members) {
    forall i :: 0 <= i < |ms| ==> SplitPath(ms[i].path).Some?
  }

  ghost function Body(ms: Members): seq<byte>
    requires AllFit(ms)
  {
    if ms == [] then [] else Entry(ms[0]) + Body(ms[1..])
  }

  /** What `tar_write` produces, and the error it stops at. */
  ghost function Archive(ms: Members): Option<seq<byte>> {
    if AllFit(ms) then Some(Body(ms) + Repeat(0, 2 * BLOCK)) else None
  }

  /** What `tar_read` returns from position `pos` on. */
  ghost function Read(a: seq<byte>, pos: nat): Option<Members>
    decreases if pos <= |a| then |a| - pos else 0
  {
    if pos + BLOCK > |a| then Some([])
    else match LaxHeader(a[pos..pos + BLOCK])
      case End => Some([])
      case Bad => None
      case Entry(path, size, regular) =>
        var at := pos + BLOCK;
        if regular && at + size > |a| then None
        else
          var rest := Read(a, at + RoundUp(size));
          if rest.Some? && regular then Some([Member(path, a[at..at + size])] + rest.value) else rest
  }

  /** An entry is a member exactly when its type byte is `0` or NUL; any other entry is passed over. */
  lemma TypeDecides(a: seq<byte>, pos: nat)
    requires pos + 512 <= |a| && LaxHeader(a[pos..pos + 512]).Entry?
    ensures var h, at := LaxHeader(a[pos..pos + 512]), pos + 512;
      var rest := Read(a, at + RoundUp(h.size));
      Read(a, pos) ==
        if a[pos + 156] != 0x30 && a[pos + 156] != 0x00 then rest
        else if at + h.size > |a| || rest.None? then None
        else Some([Member(h.path, a[at..at + h.size])] + rest.value)
  {
    assert a[pos..pos + 512][156] == a[pos + 156];
  }

  /** An archive is made of 512-byte blocks, and the last two are zero. */
  lemma ArchiveSpelled(ms: Members)
    requires Archive(ms).Some?
    ensures var a := Archive(ms).value; |a| % 512 == 0 && |a| >= 1024 && a[|a| - 1024..] == Repeat(0, 1024)
  {
    hide Body, AllFit;
    BodyIsBlocks(ms);
    ZerosBehind(Body(ms));
  }

  lemma ZerosBehind(b: seq<byte>)
    ensures var a := b + Repeat(0, 1024); |a| == |b| + 1024 && a[|a| - 1024..] == Repeat(0, 1024)
  {
    assert (b + Repeat(0, 1024))[|b|..] == Repeat(0, 1024);
  }

  lemma {:induction false} BodyIsBlocks(ms: Members)
    requires AllFit(ms)
    ensures |Body(ms)| % 512 == 0
  {
    hide Entry;
    if ms != [] {
      EntryIsBlocks(ms[0]);
      BodyIsBlocks(ms[1..]);
      BlocksAdd(|Entry(ms[0])|, |Body(ms[1..])|);
    }
  }

  lemma BlocksAdd(a: nat, b: nat)
    requires a % 512 == 0 && b % 512 == 0
    ensures (a + b) % 512 == 0
  {
  }

  lemma EntryIsBlocks(m: Member)
    requires SplitPath(m.path).Some?
    ensures |Entry(m)| % 512 == 0
  {
    hide Header;
    assert |Entry(m)| == 512 + RoundUp(|m.data|);
  }

  /** Members the format can carry: no NUL in the path, no lost leading slash, size in 11 digits. */
  ghost predicate Faithful(m: Member) {
    0 !in m.path && !LosesSlash(m.path) && |m.data| < 0x2_0000_0000
  }

  ghost predicate AllFaithful(ms: Members) {
    ms == [] || (Faithful(ms[0]) && AllFaithful(ms[1..]))
  }

  /** A path survives the header exactly when it has no NUL and keeps its leading slash. */
  lemma PathRead(path: Path)
    requires SplitPath(path).Some?
    ensures var s := SplitPath(path).value;
      JoinPath(Field(Padded(s.prefix, 155)), Field(Padded(s.name, 100))) == path
      <==> 0 !in path && !LosesSlash(path)
  {
    var s := SplitPath(path).value;
    SplitJoin(path);
    PaddedField(s.prefix, 155);
    PaddedField(s.name, 100);
    var joined := JoinPath(Field(Padded(s.prefix, 155)), Field(Padded(s.name, 100)));
    assert 0 !in joined;
    if 0 !in path {
      assert forall b :: b in s.prefix || b in s.name ==> b in path;
    }
  }

  /** One written entry at the front of what is left. */
  ghost predicate EntryAt(a: seq<byte>, pos: nat, m: Member)
    requires SplitPath(m.path).Some?
  {
    var at := pos + BLOCK;
    at + RoundUp(|m.data|) <= |a| && a[pos..at] == Header(SplitPath(m.path).value, |m.data|) &&
    a[at..at + |m.data|] == m.data
  }

  /** The header of a written entry says what it should exactly when the format can carry the member. */
  lemma EntryHeader(m: Member)
    requires SplitPath(m.path).Some?
    ensures var h := LaxHeader(Header(SplitPath(m.path).value, |m.data|));
      h.Entry? && h.regular && (Faithful(m) <==> h.path == m.path && h.size == |m.data|)
  {
    var s := SplitPath(m.path).value;
    HeaderRead(s, |m.data|);
    OctRoundTrip(|m.data|, 11);
    Pow8Values();
    PathRead(m.path);
  }

  lemma ReadUnfold(a: seq<byte>, pos: nat, h: Decoded, rest: Option<Members>)
    requires pos + BLOCK <= |a| && h == LaxHeader(a[pos..pos + BLOCK]) && h.Entry?
    requires rest == Read(a, pos + BLOCK + RoundUp(h.size))
    ensures Read(a, pos) ==
      if h.regular && pos + BLOCK + h.size > |a| then None
      else if rest.Some? && h.regular then
        Some([Member(h.path, a[pos + BLOCK..pos + BLOCK + h.size])] + rest.value)
      else rest
  {
    hide LaxHeader, RoundUp;
  }

  /** One step of the reader over a written entry. */
  lemma ReadStep(a: seq<byte>, pos: nat, m: Member, next: nat)
    requires SplitPath(m.path).Some? && EntryAt(a, pos, m) && next == pos + BLOCK + RoundUp(|m.data|)
    ensures Faithful(m) ==>
      Read(a, pos) == if Read(a, next).None? then None else Some([m] + Read(a, next).value)
    ensures !Faithful(m) ==> Read(a, pos).None? || (Read(a, pos).value != [] && Read(a, pos).value[0] != m)
  {
    hide LaxHeader, Header, Faithful, RoundUp, SplitPath, Read;
    EntryHeader(m);
    var h := LaxHeader(a[pos..pos + BLOCK]);
    ReadUnfold(a, pos, h, Read(a, pos + BLOCK + RoundUp(h.size)));
  }

  lemma RestOf(a: seq<byte>, pos: nat, m: Member, rest: seq<byte>)
    requires SplitPath(m.path).Some? && pos <= |a| && a[pos..] == Entry(m) + rest
    ensures EntryAt(a, pos, m) && a[pos + BLOCK + RoundUp(|m.data|)..] == rest
  {
    hide Header, RoundUp;
    var e, t := Entry(m), a[pos..];
    assert t[..BLOCK] == e[..BLOCK] && t[BLOCK..BLOCK + |m.data|] == e[BLOCK..BLOCK + |m.data|] && t[|e|..] == rest;
    assert a[pos..pos + BLOCK] == t[..BLOCK];
    assert a[pos + BLOCK..pos + BLOCK + |m.data|] == t[BLOCK..BLOCK + |m.data|];
    assert a[pos + |e|..] == t[|e|..];
  }

  /** Reading a written archive gives the members back exactly when the format can carry them all. */
  lemma {:induction false} ReadBody(a: seq<byte>, pos: nat, ms: Members)
    requires AllFit(ms) && pos <= |a| && a[pos..] == Body(ms) + Repeat(0, 2 * BLOCK)
    ensures Read(a, pos) == Some(ms) <==> AllFaithful(ms)
    decreases |ms|
  {
    if ms == [] {
      assert a[pos..pos + BLOCK] == a[pos..][..BLOCK];
    } else {
      var m, rest := ms[0], Body(ms[1..]) + Repeat(0, 2 * BLOCK);
      assert a[pos..] == Entry(m) + rest;
      RestOf(a, pos, m, rest);
      var next := pos + BLOCK + RoundUp(|m.data|);
      ReadBody(a, next, ms[1..]);
      ReadStep(a, pos, m, next);
      Cons(Read(a, pos), Read(a, next), ms);
    }
  }

  lemma Cons(all: Option<Members>, rest: Option<Members>, ms: Members)
    requires ms != [] && (rest == Some(ms[1..]) <==> AllFaithful(ms[1..]))
    requires Faithful(ms[0]) ==> all == if rest.None? then None else Some([ms[0]] + rest.value)
    requires !Faithful(ms[0]) ==> all.None? || (all.value != [] && all.value[0] != ms[0])
    ensures all == Some(ms) <==> AllFaithful(ms)
  {
    hide Faithful;
    if Faithful(ms[0]) && all == Some(ms) {
      assert rest.value == all.value[1..];
    }
    assert ms == [ms[0]] + ms[1..];
  }

  /** The round trip of the format, with its exact condition. */
  lemma WriteRead(ms: Members)
    requires AllFit(ms)
    ensures Read(Archive(ms).value, 0) == Some(ms) <==> AllFaithful(ms)
  {
    var a := Archive(ms).value;
    assert a[0..] == a;
    ReadBody(a, 0, ms);
  }

  // ------------------------------------------------------------ writing a header in place

  ghost function Splice(s: seq<byte>, off: nat, data: seq<byte>): (r: seq<byte>)
    requires off + |data| <= |s|
    ensures |r| == |s|
  {
    s[..off] + data + s[off + |data|..]
  }

  /** Storing one byte of a block. */
  method StoreByte(block: array<byte>, at: nat, b: byte)
    requires at < block.Length
    modifies block
    ensures block[..] == old(block[..])[at := b]
  {
    block[at] := b;
  }

  /** A field written from its right end: `i` digits of `v` are still to come. */
  ghost predicate PutFrom(a: seq<byte>, was: seq<byte>, off: nat, width: nat, value: nat, v: nat, i: nat) {
    |a| == |was| && i < width && off + width <= |a| &&
    a[..off + i] == was[..off + i] && OctDigits(value, width - 1) == OctDigits(v, i) + a[off + i..off + width - 1] &&
    a[off + width - 1] == 0 && a[off + width..] == was[off + width..]
  }

  lemma PutStarts(was: seq<byte>, off: nat, width: nat, value: nat)
    requires width > 0 && off + width <= |was|
    ensures PutFrom(was[off + width - 1 := 0], was, off, width, value, value, width - 1)
  {
    hide OctDigits;
    var a := was[off + width - 1 := 0];
    assert a[off + width - 1..off + width - 1] == [];
  }

  lemma PutStep(a: seq<byte>, was: seq<byte>, off: nat, width: nat, value: nat, v: nat, i: nat)
    requires PutFrom(a, was, off, width, value, v, i + 1)
    ensures PutFrom(a[off + i := 0x30 + v % 8], was, off, width, value, v / 8, i)
  {
    var b := a[off + i := 0x30 + v % 8];
    var tail := a[off + i + 1..off + width - 1];
    assert OctDigits(v, i + 1) == OctDigits(v / 8, i) + [0x30 + v % 8];
    hide OctDigits;
    assert b[off + i..off + width - 1] == [0x30 + v % 8] + tail;
    assert b[..off + i] == a[..off + i + 1][..off + i] && was[..off + i] == was[..off + i + 1][..off + i];
    assert b[off + width..] == a[off + width..];
  }

  lemma PutEnds(a: seq<byte>, was: seq<byte>, off: nat, width: nat, value: nat, v: nat)
    requires PutFrom(a, was, off, width, value, v, 0)
    ensures a == Splice(was, off, Octal(value, width))
  {
    assert OctDigits(v, 0) == [];
    hide OctDigits;
    assert a == a[..off] + a[off..off + width - 1] + [a[off + width - 1]] + a[off + width..];
  }

  /** `put_octal`: digits from the right, then the NUL. */
  method PutOctal(block: array<byte>, off: nat, width: nat, value: nat)
    requires width > 0 && off + width <= block.Length
    modifies block
    ensures block[..] == Splice(old(block[..]), off, Octal(value, width))
  {
    hide PutFrom, Octal, OctDigits;
    ghost var was := block[..];
    StoreByte(block, off + width - 1, 0);
    PutStarts(was, off, width, value);
    var v := value;
    for i := width - 1 downto 0
      invariant PutFrom(block[..], was, off, width, value, v, i)
    {
      PutStep(block[..], was, off, width, value, v, i);
      StoreByte(block, off + i, 0x30 + v % 8);
      v := v / 8;
    }
    PutEnds(block[..], was, off, width, value, v);
  }

  lemma CopyStep(was: seq<byte>, a: seq<byte>, off: nat, data: seq<byte>, i: nat)
    requires i < |data| && off + |data| <= |was| && a == Splice(was, off, data[..i])
    ensures a[off + i := data[i]] == Splice(was, off, data[..i + 1])
  {
    var b := a[off + i := data[i]];
    assert data[..i + 1] == data[..i] + [data[i]];
    assert was[off + i..] == [was[off + i]] + was[off + i + 1..];
    assert b == was[..off] + data[..i] + [data[i]] + was[off + i + 1..];
  }

  /** `memcpy` into the block. */
  method CopyIn(block: array<byte>, off: nat, data: seq<byte>)
    requires off + |data| <= block.Length
    modifies block
    ensures block[..] == Splice(old(block[..]), off, data)
  {
    hide Splice;
    ghost var was := block[..];
    assert was == Splice(was, off, data[..0]) by { SpliceNothing(was, off, data[..0]); }
    for i := 0 to |data|
      invariant block[..] == Splice(was, off, data[..i])
    {
      CopyStep(was, block[..], off, data, i);
      StoreByte(block, off + i, data[i]);
    }
    assert data[..|data|] == data;
  }

  lemma SpliceNothing(s: seq<byte>, off: nat, none: seq<byte>)
    requires none == [] && off <= |s|
    ensures Splice(s, off, none) == s
  {
  }

  /** Replacing the middle of three parts. */
  lemma SpliceMiddle(front: seq<byte>, mid: seq<byte>, back: seq<byte>, data: seq<byte>)
    requires |mid| == |data|
    ensures Splice(front + mid + back, |front|, data) == front + data + back
  {
    var s := front + mid + back;
    assert s[..|front|] == front && s[|front| + |data|..] == back;
  }

  /** `split_path`: the first slash both halves fit around. */
  method SplitLongPath(path: Path) returns (r: Option<Split>)
    ensures r == SplitPath(path)
  {
    if |path| <= 100 {
      return Some(Split([], path));
    }
    if |path| > 255 {
      return None;
    }
    for i := 0 to |path|
      invariant FirstSplit(path, 0) == FirstSplit(path, i)
    {
      if SplitsAt(path, i) {
        return Some(Split(path[..i], path[i + 1..]));
      }
    }
    r := None;
  }

  /** Blocks written front to back: everything after what is written is still zero. */
  ghost predicate Written(block: seq<byte>, done: seq<byte>) {
    |done| <= |block| && block == done + Repeat(0, |block| - |done|)
  }

  /** `put_octal` past everything written so far. */
  method NextOctal(block: array<byte>, ghost done: seq<byte>, off: nat, width: nat, value: nat)
    requires width > 0 && off + width <= block.Length && Written(block[..], done) && |done| <= off
    modifies block
    ensures Written(block[..], done + Repeat(0, off - |done|) + Octal(value, width))
  {
    hide Octal;
    PutOctal(block, off, width, value);
  }

  /** `memcpy` past everything written so far. */
  method NextBytes(block: array<byte>, ghost done: seq<byte>, off: nat, data: seq<byte>)
    requires off + |data| <= block.Length && Written(block[..], done) && |done| <= off
    modifies block
    ensures Written(block[..], done + Repeat(0, off - |done|) + data)
  {
    CopyIn(block, off, data);
  }

  /** The sum of all bytes of a block. */
  method SumBytes(block: array<byte>) returns (sum: nat)
    ensures sum == ByteSum(block[..])
  {
    sum := 0;
    for i := 0 to block.Length
      invariant sum == ByteSum(block[..i])
    {
      assert block[..i + 1][..i] == block[..i];
      sum := sum + block[i];
    }
    assert block[..block.Length] == block[..];
  }

  /** The fields before the checksum, front to back. */
  method WriteFront(block: array<byte>, name: Path, size: nat)
    requires block.Length == BLOCK && |name| <= 100 && Written(block[..], [])
    modifies block
    ensures Written(block[..], HeaderFront(name, size))
  {
    hide Octal, Written;
    NextBytes(block, [], 0, name);
    ghost var done := [] + Repeat(0, 0) + name;
    NextOctal(block, done, 100, 8, 0x1A4);
    done := done + Repeat(0, 100 - |done|) + Octal(0x1A4, 8);
    NextOctal(block, done, 108, 8, 0);
    done := done + Repeat(0, 108 - |done|) + Octal(0, 8);
    NextOctal(block, done, 116, 8, 0);
    done := done + Repeat(0, 116 - |done|) + Octal(0, 8);
    NextOctal(block, done, 124, 12, size);
    done := done + Repeat(0, 124 - |done|) + Octal(size, 12);
    NextOctal(block, done, 136, 12, 0);
    done := done + Repeat(0, 136 - |done|) + Octal(0, 12);
    assert done == HeaderFront(name, size);
  }

  /** The fields after it. */
  method WriteBack(block: array<byte>, ghost front: seq<byte>, prefix: Path)
    requires block.Length == BLOCK && |prefix| <= 155 && |front| == 148 && Written(block[..], front)
    modifies block
    ensures block[..] == front + Repeat(0, 8) + HeaderBack(prefix)
  {
    hide Written;
    NextBytes(block, front, 156, [ZERO]);
    ghost var done := front + Repeat(0, 8) + [ZERO];
    NextBytes(block, done, 257, MAGIC);
    done := done + Repeat(0, 100) + MAGIC;
    NextBytes(block, done, 263, [ZERO, ZERO]);
    done := done + Repeat(0, 1) + [ZERO, ZERO];
    NextBytes(block, done, 345, prefix);
    done := done + Repeat(0, 80) + prefix;
    AllWritten(block[..], done, front, prefix);
  }

  lemma AllWritten(block: seq<byte>, done: seq<byte>, front: seq<byte>, prefix: Path)
    requires |block| == BLOCK && Written(block, done) && |front| == 148 && |prefix| <= 155
    requires done == front + Repeat(0, 8) + [ZERO] + Repeat(0, 100) + MAGIC + Repeat(0, 1) + [ZERO, ZERO] + Repeat(0, 80) + prefix
    ensures block == front + Repeat(0, 8) + HeaderBack(prefix)
  {
  }

  /** `write_header`. */
  method WriteHeader(block: array<byte>, path: Path, size: nat) returns (ok: bool)
    requires block.Length == BLOCK
    modifies block
    ensures ok <==> SplitPath(path).Some?
    ensures ok ==> block[..] == Header(SplitPath(path).value, size)
  {
    hide HeaderFront, HeaderBack, SplitPath;
    forall i | 0 <= i < BLOCK { block[i] := 0; }
    var split := SplitLongPath(path);
    if split.None? {
      return false;
    }
    var s := split.value;
    assert block[..] == Repeat(0, BLOCK);
    WriteFront(block, s.name, size);
    ghost var front, back := HeaderFront(s.name, size), HeaderBack(s.prefix);
    WriteBack(block, front, s.prefix);
    StoreChecksum(block, front, back);
    ok := true;
  }

  /** The checksum, summed with its own field read as spaces; it fits the six digits it is given. */
  method StoreChecksum(block: array<byte>, ghost front: seq<byte>, ghost back: seq<byte>)
    requires block.Length == BLOCK && |front| == 148 && |back| == 356 && block[..] == front + Repeat(0, 8) + back
    modifies block
    ensures block[..] ==
      front + (OctDigits(ByteSum(front + Repeat(SPACE, 8) + back), 6) + [0, SPACE]) + back
  {
    hide ByteSum, Splice, Octal, OctDigits, Repeat;
    CopyIn(block, 148, Repeat(SPACE, 8));
    SpliceMiddle(front, Repeat(0, 8), back, Repeat(SPACE, 8));
    var sum := SumBytes(block);
    ByteSumBound(block[..]);
    assert sum < 0x40000;
    PutOctal(block, 148, 7, sum);
    ghost var after := [SPACE] + back;
    assert front + Repeat(SPACE, 8) + back == front + Repeat(SPACE, 7) + after by { EightSpaces(front, back); }
    SpliceMiddle(front, Repeat(SPACE, 7), after, Octal(sum, 7));
    SixDigits(sum, front, back);
    StoreByte(block, 155, SPACE);
  }

  lemma EightSpaces(front: seq<byte>, back: seq<byte>)
    ensures front + Repeat(SPACE, 8) + back == front + Repeat(SPACE, 7) + ([SPACE] + back)
  {
    assert Repeat(SPACE, 8) == Repeat(SPACE, 7) + [SPACE];
  }

  /** The seven written bytes with the space that is already there. */
  lemma SixDigits(sum: nat, front: seq<byte>, back: seq<byte>)
    requires |front| == 148
    ensures var s := front + Octal(sum, 7) + ([SPACE] + back);
      s == front + (OctDigits(sum, 6) + [0, SPACE]) + back && s[155] == SPACE
  {
    hide OctDigits;
  }

  /** `tar_write`: one header and padded body per member, then the end marker. */
  method Write(ms: Members) returns (r: Option<seq<byte>>)
    ensures r == Archive(ms)
  {
    hide Header, RoundUp;
    var out: seq<byte> := [];
    var block := new byte[BLOCK](_ => 0);
    assert ms[..0] == [];
    for i := 0 to |ms|
      invariant AllFit(ms[..i]) && out == Body(ms[..i])
    {
      var m := ms[i];
      var ok := WriteHeader(block, m.path, |m.data|);
      assert ms[..i + 1] == ms[..i] + [m];
      if !ok {
        return None;
      }
      ghost var before := out;
      out := out + block[..] + m.data;
      var rem := |m.data| % BLOCK;
      if rem != 0 {
        out := out + Repeat(0, BLOCK - rem);
      }
      PaddingIs(|m.data|);
      assert out == before + Entry(m);
      BodySnoc(ms[..i], m);
    }
    assert ms[..|ms|] == ms;
    r := Some(out + Repeat(0, 2 * BLOCK));
  }

  lemma PaddingIs(size: nat)
    ensures RoundUp(size) - size == if size % BLOCK == 0 then 0 else BLOCK - size % BLOCK
  {
  }

  lemma {:induction false} BodySnoc(ms: Members, m: Member)
    requires AllFit(ms) && SplitPath(m.path).Some?
    ensures AllFit(ms + [m]) && Body(ms + [m]) == Body(ms) + Entry(m)
  {
    hide Entry;
    if ms != [] {
      assert (ms + [m])[1..] == ms[1..] + [m];
      BodySnoc(ms[1..], m);
    } else {
      assert [m][1..] == [];
    }
  }

  // ------------------------------------------------------------ reading

  /** `read_octal`. */
  method ReadOctal(p: seq<byte>) returns (value: nat)
    ensures value == FieldNumber(p)
  {
    value := 0;
    var i := 0;
    while i < |p| && IsBlank(p[i])
      invariant i <= |p| && SkipBlank(p, 0) == SkipBlank(p, i)
    {
      i := i + 1;
    }
    ghost var s := i;
    while i < |p| && IsOctal(p[i])
      invariant s <= i <= |p| && RunEnd(p, s) == RunEnd(p, i)
      invariant value == OctValue(p[s..i])
    {
      assert p[s..i + 1][..i - s] == p[s..i];
      value := value * 8 + (p[i] as int - 0x30);
      i := i + 1;
    }
  }

  /** `read_field`. */
  method ReadField(p: seq<byte>) returns (s: seq<byte>)
    ensures s == Field(p)
  {
    var len := 0;
    while len < |p| && p[len] != 0
      invariant len <= |p| && forall k :: 0 <= k < len ==> p[k] != 0
    {
      len := len + 1;
    }
    FieldLenIs(p, len);
    s := p[..len];
  }

  /** The checksum of a block copy whose own field is overwritten with spaces. */
  method BlankedSum(block: seq<byte>) returns (sum: nat)
    requires |block| == BLOCK
    ensures sum == ByteSum(Blanked(block))
  {
    var tmp := new byte[BLOCK](i requires 0 <= i < BLOCK => block[i]);
    assert tmp[..] == block;
    CopyIn(tmp, 148, Repeat(SPACE, 8));
    assert tmp[..] == Blanked(block);
    sum := SumBytes(tmp);
  }

  /** `is_zero_block`. */
  method AllZero(block: seq<byte>) returns (zero: bool)
    ensures zero <==> IsZeroBlock(block)
  {
    for i := 0 to |block|
      invariant IsZeroBlock(block[..i])
    {
      if block[i] != 0 {
        return false;
      }
    }
    assert block[..|block|] == block;
    zero := true;
  }

  /** The part of `tar_read` that looks at one header block. */
  method DecodeHeader(block: seq<byte>) returns (h: Decoded)
    requires |block| == BLOCK
    ensures h == LaxHeader(block)
  {
    hide ByteSum, SkipBlank, RunEnd, FieldLen;
    var zero := AllZero(block);
    if zero {
      return End;
    }
    var stored := ReadOctal(block[148..156]);
    var sum := BlankedSum(block);
    if sum != stored {
      return Bad;
    }
    var name := ReadField(block[..100]);
    var prefix := ReadField(block[345..500]);
    var full := if prefix == [] then name else prefix + [SLASH] + name;
    var size := ReadOctal(block[124..136]);
    h := UstarFormat.Decoded.Entry(full, size, block[156] == ZERO || block[156] == 0);
  }

  /** `tar_read`: every regular entry, or nothing when a checksum or a size is wrong. */
  method ReadArchive(a: seq<byte>) returns (r: Option<Members>)
    ensures r == Read(a, 0)
  {
    hide LaxHeader, RoundUp;
    var out: Members := [];
    var pos := 0;
    assert forall s: Members :: out + s == s;
    while pos + BLOCK <= |a|
      invariant Read(a, 0) == if Read(a, pos).None? then None else Some(out + Read(a, pos).value)
      decreases |a| - pos
    {
      var h := DecodeHeader(a[pos..pos + BLOCK]);
      if h.End? {
        break;
      }
      if h.Bad? {
        return None;
      }
      ghost var rest := Read(a, pos + BLOCK + RoundUp(h.size));
      ReadUnfold(a, pos, h, rest);
      pos := pos + BLOCK;
      if h.regular {
        if pos + h.size > |a| {
          return None;
        }
        ghost var x := Member(h.path, a[pos..pos + h.size]);
        assert rest.Some? ==> out + ([x] + rest.value) == (out + [x]) + rest.value;
        out := out + [Member(h.path, a[pos..pos + h.size])];
      }
      pos := pos + RoundUp(h.size);
    }
    assert out + [] == out;
    r := Some(out);
  }
}
