/**
 * What the C reader accepts (micro/src/ustar.c, the walk of micro/src/index.c), and how it relates
 * to the C++ reader: two implementations that must not disagree about which bytes are a document.
 */
module Ustar {
  import opened Bytes
  import opened UstarFormat
  import Tar

  datatype Status = OK | E_INVAL | E_ARENA | E_PARSE | E_NOT_FOUND | E_RANGE | E_CONTENT_SEALED | E_ABORTED

  const CAP: nat := 0x1000_0000_0000_0000

  /** Some digit before `e` came when the value was already past the cap. */
  ghost predicate Over(p: seq<byte>, s: nat, e: nat)
    requires s <= e <= |p|
  {
    s < e && (OctValue(p[s..e - 1]) > CAP || Over(p, s, e - 1))
  }

  /** `mm_octal`: a digit run, padding around it, nothing else, and a cap on the value. */
  ghost function StrictNumber(p: seq<byte>): Option<nat> {
    var s := SkipBlank(p, 0);
    var e := RunEnd(p, s);
    if e == s then None
    else if exists k :: e <= k < |p| && !IsBlank(p[k]) then None
    else if Over(p, s, e) then None
    else Some(FieldNumber(p))
  }

  /** `mm_header_parse`. */
  ghost function StrictHeader(block: seq<byte>): Decoded
    requires |block| == BLOCK
  {
    if IsZeroBlock(block) then End
    else if StrictNumber(block[148..156]) != Some(ByteSum(Blanked(block))) then Bad
    else if StrictNumber(block[124..136]).None? then Bad
    else if block[257] != 0 && block[257..262] != MAGIC then Bad
    else if Field(block[..100]) == [] then Bad
    else Entry(
      JoinPath(if block[257] == 0 then [] else Field(block[345..500]), Field(block[..100])),
      StrictNumber(block[124..136]).value, IsRegular(block))
  }

  /** One indexed member: where its bytes are. */
  datatype Indexed = Indexed(path: Path, off: nat, size: nat)

  datatype Walked = Walked(status: Status, index: seq<Indexed>)

  /** The walk of `mcdf_micro_open`, with the members it had indexed when it stopped. */
  ghost function Walk(a: seq<byte>, pos: nat): Walked
    decreases if pos <= |a| then |a| - pos else 0
  {
    if pos + BLOCK > |a| then Walked(E_PARSE, [])
    else match StrictHeader(a[pos..pos + BLOCK])
      case End => Walked(OK, [])
      case Bad => Walked(E_PARSE, [])
      case Entry(path, size, regular) =>
        var at := pos + BLOCK;
        if size > |a| - at then Walked(E_PARSE, [])
        else
          var rest := Walk(a, at + RoundUp(size));
          if regular then Walked(rest.status, [Indexed(path, at, size)] + rest.index) else rest
  }

  /** The whole of `mcdf_micro_open` but for the arena. */
  ghost function Opened(a: seq<byte>): Walked {
    if |a| < 2 * BLOCK || |a| % BLOCK != 0 then Walked(E_PARSE, []) else Walk(a, 0)
  }

  ghost predicate InSource(a: seq<byte>, index: seq<Indexed>) {
    forall i :: 0 <= i < |index| ==> index[i].off + index[i].size <= |a| && index[i].path != [] && 0 !in index[i].path
  }

  /** The members an index stands for. */
  ghost function Contents(a: seq<byte>, index: seq<Indexed>): (ms: Tar.Members)
    requires InSource(a, index)
    ensures |ms| == |index|
  {
    seq(|index|, i requires 0 <= i < |index| =>
      Member(index[i].path, a[index[i].off..index[i].off + index[i].size]))
  }

  lemma HeaderPath(block: seq<byte>)
    requires |block| == BLOCK && StrictHeader(block).Entry?
    ensures StrictHeader(block).path != [] && 0 !in StrictHeader(block).path
  {
    hide StrictNumber;
  }

  /** Every indexed range is inside the source and every indexed name is a C string. */
  lemma {:induction false} WalkInSource(a: seq<byte>, pos: nat)
    ensures InSource(a, Walk(a, pos).index)
    decreases if pos <= |a| then |a| - pos else 0
  {
    hide StrictHeader, RoundUp;
    if pos + BLOCK <= |a| {
      var block := a[pos..pos + BLOCK];
      var h := StrictHeader(block);
      if h.Entry? && h.size <= |a| - (pos + BLOCK) {
        HeaderPath(block);
        WalkInSource(a, pos + BLOCK + RoundUp(h.size));
      }
    }
  }

  // ------------------------------------------------------------ agreement with the C++ reader

  /** A regular entry whose prefix field only the C++ reader looks at. */
  ghost predicate HiddenPrefix(block: seq<byte>)
    requires |block| == BLOCK
  {
    IsRegular(block) && block[257] == 0 && Field(block[345..500]) != []
  }

  /** No header of the walk has a prefix field without a magic. */
  ghost predicate NoHiddenPrefix(a: seq<byte>, pos: nat)
    decreases if pos <= |a| then |a| - pos else 0
  {
    pos + BLOCK > |a| ||
    match LaxHeader(a[pos..pos + BLOCK])
    case Entry(path, size, regular) =>
      !HiddenPrefix(a[pos..pos + BLOCK]) && NoHiddenPrefix(a, pos + BLOCK + RoundUp(size))
    case _ => true
  }

  /** What a C-accepted header means to the C++ reader. */
  lemma SameHeader(block: seq<byte>)
    requires |block| == BLOCK && !StrictHeader(block).Bad?
    ensures var c, d := StrictHeader(block), LaxHeader(block);
      (c.End? ==> d.End?) &&
      (c.Entry? ==> (d.Entry? && d.size == c.size && d.regular == c.regular &&
        if c.regular then d.path == c.path <==> !HiddenPrefix(block) else !HiddenPrefix(block)))
  {
    hide SkipBlank, RunEnd, OctValue, ByteSum;
    if StrictHeader(block).Entry? {
      var name, prefix := Field(block[..100]), Field(block[345..500]);
      if prefix != [] {
        assert |JoinPath(prefix, name)| > |name|;
      }
    }
  }

  /** The two readings of an archive: the same bytes member by member, and the same paths iff `same`. */
  ghost predicate Agree(cpp: Option<Tar.Members>, c: Tar.Members, same: bool) {
    cpp.Some? && |cpp.value| == |c| && (forall i :: 0 <= i < |c| ==> cpp.value[i].data == c[i].data) &&
    (cpp.value == c <==> same)
  }

  /**
   * Whatever the C reader opens, the C++ reader opens, with the same bytes member by member; the
   * paths are the same exactly when no prefix field hides behind an empty magic.
   */
  lemma {:induction false} Agreement(a: seq<byte>, pos: nat)
    requires Walk(a, pos).status == OK
    ensures InSource(a, Walk(a, pos).index)
    ensures Agree(Tar.Read(a, pos), Contents(a, Walk(a, pos).index), NoHiddenPrefix(a, pos))
    decreases if pos <= |a| then |a| - pos else 0
  {
    hide StrictHeader, LaxHeader, HiddenPrefix, RoundUp, Agree, Tar.Read, NoHiddenPrefix;
    WalkInSource(a, pos);
    var h := StrictHeader(a[pos..pos + BLOCK]);
    if h.End? {
      AgreementEnd(a, pos);
    } else {
      var next := pos + BLOCK + RoundUp(h.size);
      WalkUnfold(a, pos, h, Walk(a, next));
      Agreement(a, next);
      AgreementStep(a, pos, h, next);
    }
  }

  lemma AgreementEnd(a: seq<byte>, pos: nat)
    requires pos + BLOCK <= |a| && StrictHeader(a[pos..pos + BLOCK]).End?
    ensures Walk(a, pos).index == [] && Agree(Tar.Read(a, pos), [], NoHiddenPrefix(a, pos))
  {
    hide StrictHeader, LaxHeader, HiddenPrefix;
    SameHeader(a[pos..pos + BLOCK]);
  }

  lemma AgreementStep(a: seq<byte>, pos: nat, h: Decoded, next: nat)
    requires pos + BLOCK <= |a| && h == StrictHeader(a[pos..pos + BLOCK]) && h.Entry?
    requires next == pos + BLOCK + RoundUp(h.size) && pos + BLOCK + h.size <= |a|
    requires InSource(a, Walk(a, next).index) && InSource(a, Walk(a, pos).index)
    requires Agree(Tar.Read(a, next), Contents(a, Walk(a, next).index), NoHiddenPrefix(a, next))
    ensures Agree(Tar.Read(a, pos), Contents(a, Walk(a, pos).index), NoHiddenPrefix(a, pos))
  {
    hide StrictHeader, LaxHeader, HiddenPrefix, RoundUp, Tar.Read, NoHiddenPrefix, Walk, Agree;
    var at := pos + BLOCK;
    SameHeader(a[pos..at]);
    var g := LaxHeader(a[pos..at]);
    WalkUnfold(a, pos, h, Walk(a, next));
    Tar.ReadUnfold(a, pos, g, Tar.Read(a, next));
    HiddenUnfold(a, pos, g);
    AgreeSome(Tar.Read(a, next), Contents(a, Walk(a, next).index), NoHiddenPrefix(a, next));
    if h.regular {
      var x, bytes := Indexed(h.path, at, h.size), a[at..at + h.size];
      var rest := Contents(a, Walk(a, next).index);
      assert Contents(a, Walk(a, pos).index) == [Member(h.path, bytes)] + rest;
      OneMore(Member(g.path, bytes), Tar.Read(a, next), Member(h.path, bytes), rest, NoHiddenPrefix(a, next));
    }
  }

  lemma AgreeSome(cpp: Option<Tar.Members>, c: Tar.Members, same: bool)
    requires Agree(cpp, c, same)
    ensures cpp.Some?
  {
  }

  lemma WalkUnfold(a: seq<byte>, pos: nat, h: Decoded, rest: Walked)
    requires pos + BLOCK <= |a| && h == StrictHeader(a[pos..pos + BLOCK]) && h.Entry?
    requires rest == Walk(a, pos + BLOCK + RoundUp(h.size))
    ensures Walk(a, pos) ==
      if h.size > |a| - (pos + BLOCK) then Walked(E_PARSE, [])
      else if h.regular then Walked(rest.status, [Indexed(h.path, pos + BLOCK, h.size)] + rest.index)
      else rest
  {
    hide StrictHeader, RoundUp;
  }

  lemma HiddenUnfold(a: seq<byte>, pos: nat, h: Decoded)
    requires pos + BLOCK <= |a| && h == LaxHeader(a[pos..pos + BLOCK]) && h.Entry?
    ensures NoHiddenPrefix(a, pos) <==>
      !HiddenPrefix(a[pos..pos + BLOCK]) && NoHiddenPrefix(a, pos + BLOCK + RoundUp(h.size))
  {
    hide LaxHeader, HiddenPrefix, RoundUp;
  }

  lemma OneMore(m: Member, ms: Option<Tar.Members>, n: Member, ns: Tar.Members, same: bool)
    requires Agree(ms, ns, same) && m.data == n.data
    ensures ms.Some? && Agree(Some([m] + ms.value), [n] + ns, m.path == n.path && same)
  {
    if [m] + ms.value == [n] + ns {
      assert m == ([m] + ms.value)[0] == n;
      assert ms.value == ([m] + ms.value)[1..] == ns;
    }
  }

  // ------------------------------------------------------------ opening what the C++ side wrote

  lemma StrictFieldRead(v: nat, n: nat, rest: seq<byte>)
    requires 0 < n <= 11 && rest != [] && forall k :: 0 <= k < |rest| ==> IsBlank(rest[k])
    ensures StrictNumber(OctDigits(v, n) + rest) == Some(FieldNumber(OctDigits(v, n) + rest))
  {
    var p := OctDigits(v, n) + rest;
    OctFieldRead(v, n, rest);
    NeverOver(p, 0, n);
  }

  lemma {:induction false} NeverOver(p: seq<byte>, s: nat, e: nat)
    requires s <= e <= |p| && e - s <= 12 && forall k :: s <= k < e ==> IsOctal(p[k])
    ensures !Over(p, s, e)
  {
    if s < e {
      SmallRun(p[s..e - 1]);
      NeverOver(p, s, e - 1);
    }
  }

  lemma {:induction false} OverStays(p: seq<byte>, s: nat, e: nat, end: nat)
    requires s <= e <= end <= |p| && Over(p, s, e)
    ensures Over(p, s, end)
    decreases end - e
  {
    if e < end {
      OverStays(p, s, e, end - 1);
    }
  }

  lemma SmallRun(ds: seq<byte>)
    requires |ds| <= 12 && forall i :: 0 <= i < |ds| ==> IsOctal(ds[i])
    ensures OctValue(ds) <= CAP
  {
    hide OctValue;
    OctBound(ds);
    Pow8Grows(|ds|, 12);
    Pow8Values();
  }

  lemma {:induction false} Pow8Grows(n: nat, m: nat)
    requires n <= m
    ensures Pow8(n) <= Pow8(m)
  {
    if n < m { Pow8Grows(n, m - 1); }
  }

  /** The C reader takes a written header as the C++ reader does, unless the name field is empty. */
  lemma StrictHeaderOfWritten(s: Split, size: nat)
    requires |s.name| <= 100 && |s.prefix| <= 155
    ensures var h := Header(s, size);
      StrictHeader(h) == if Field(Padded(s.name, 100)) == [] then Bad else LaxHeader(h)
  {
    hide OctDigits, OctValue, SkipBlank, RunEnd, StrictNumber, ByteSum, FieldLen, Padded;
    var h := Header(s, size);
    HeaderFields(s, size);
    HeaderRead(s, size);
    StrictFieldRead(ByteSum(Blanked(h)), 6, [0, SPACE]);
    StrictFieldRead(size, 11, [0]);
    assert h[257] == h[257..262][0] != 0;
  }

  /** Everything after the checksum, as a written header has it, but for the first byte of the magic. */
  ghost function NamelessBack(prefix: Path): (r: seq<byte>)
    requires |prefix| <= 155
    ensures |r| == 356
  {
    [ZERO] + Repeat(0, 100) + Repeat(0, 8) + Repeat(0, 80) + Padded(prefix, 155) + Repeat(0, 12)
  }

  /** The header of an empty member `p/a` whose magic is missing. */
  ghost function Nameless(): (r: seq<byte>)
    ensures |r| == BLOCK
  {
    var front, back := HeaderFront([0x61], 0), NamelessBack([0x70]);
    front + (OctDigits(ByteSum(front + Repeat(SPACE, 8) + back), 6) + [0, SPACE]) + back
  }

  lemma NamelessFields()
    ensures var h := Nameless();
      h[..100] == Padded([0x61], 100) && h[124..136] == Octal(0, 12) &&
      h[148..156] == OctDigits(ByteSum(Blanked(h)), 6) + [0, SPACE] && h[156] == ZERO &&
      h[257] == 0 && h[345..500] == Padded([0x70], 155)
  {
    hide OctDigits, ByteSum;
    var front, back := HeaderFront([0x61], 0), NamelessBack([0x70]);
    var h := Nameless();
    assert h[..148] == front && h[156..] == back;
    assert Blanked(h) == front + Repeat(SPACE, 8) + back;
    assert h[..100] == front[..100] && h[124..136] == front[124..136];
    assert h[257] == back[101] && h[345..500] == back[189..344];
  }

  /** The C reader takes it for `a`, the C++ reader for `p/a`. */
  lemma NamelessIsReadTwice()
    ensures StrictHeader(Nameless()) == Entry([0x61], 0, true) && LaxHeader(Nameless()) == Entry([0x70, SLASH, 0x61], 0, true)
  {
    hide OctDigits, OctValue, SkipBlank, RunEnd, StrictNumber, ByteSum, FieldLen, Padded, LowDigits;
    var h := Nameless();
    NamelessFields();
    PaddedField([0x61], 100);
    PaddedField([0x70], 155);
    var sum := ByteSum(Blanked(h));
    ByteSumBound(Blanked(h));
    Pow8Values();
    OctRoundTrip(sum, 6);
    OctFieldRead(sum, 6, [0, SPACE]);
    OctFieldRead(0, 11, [0]);
    StrictFieldRead(sum, 6, [0, SPACE]);
    StrictFieldRead(0, 11, [0]);
    NoDigits();
    assert [0x70] + [SLASH] + [0x61] == [0x70, SLASH, 0x61];
  }

  lemma NoDigits()
    ensures LowDigits(0, 11) == 0
  {
  }

  ghost predicate Openable(ms: Tar.Members) {
    ms == [] || (Tar.Faithful(ms[0]) && ms[0].path != [] && Openable(ms[1..]))
  }

  ghost predicate OpensAs(a: seq<byte>, w: Walked, ms: Tar.Members) {
    w.status == OK && InSource(a, w.index) && Contents(a, w.index) == ms
  }

  lemma StrictEntry(m: Member, h: Decoded)
    requires SplitPath(m.path).Some? && h == StrictHeader(Header(SplitPath(m.path).value, |m.data|))
    ensures h.Bad? || (h.Entry? && h.regular)
    ensures Tar.Faithful(m) && m.path != [] ==> h == Entry(m.path, |m.data|, true)
    ensures !(Tar.Faithful(m) && m.path != []) ==> h.Bad? || h.path != m.path || h.size != |m.data|
  {
    var s := SplitPath(m.path).value;
    hide LaxHeader, StrictHeader, Header, Field, Padded;
    StrictHeaderOfWritten(s, |m.data|);
    Tar.EntryHeader(m);
    PaddedField(s.name, 100);
    PaddedField(s.prefix, 155);
    SplitJoin(m.path);
    NamePart(m.path, s);
  }

  lemma NamePart(path: Path, s: Split)
    requires SplitPath(path) == Some(s)
    ensures forall b :: b in s.name ==> b in path
    ensures path == [] ==> s.name == []
  {
  }

  lemma OpenStep(a: seq<byte>, pos: nat, m: Member, next: nat, ms: Tar.Members)
    requires SplitPath(m.path).Some? && Tar.EntryAt(a, pos, m) && next == pos + BLOCK + RoundUp(|m.data|)
    requires OpensAs(a, Walk(a, next), ms) <==> Openable(ms)
    ensures OpensAs(a, Walk(a, pos), [m] + ms) <==> Openable([m] + ms)
  {
    hide StrictHeader, Header, RoundUp, Tar.Faithful, SplitPath, Walk;
    var at := pos + BLOCK;
    var h := StrictHeader(a[pos..at]);
    StrictEntry(m, h);
    assert ([m] + ms)[1..] == ms;
    if h.Bad? {
      WalkBad(a, pos);
    } else {
      var rest := Walk(a, at + RoundUp(h.size));
      WalkUnfold(a, pos, h, rest);
      WalkInSource(a, pos);
      WalkInSource(a, at + RoundUp(h.size));
      var w := Walk(a, pos);
      if w.status == OK {
        assert Contents(a, w.index)[0] == Member(h.path, a[at..at + h.size]);
        assert |a[at..at + h.size]| == h.size;
        if h.path == m.path && h.size == |m.data| {
          assert Contents(a, w.index) == [m] + Contents(a, rest.index);
          SameHead(m, Contents(a, rest.index), ms);
        }
      }
    }
  }

  lemma SameHead(m: Member, xs: Tar.Members, ys: Tar.Members)
    ensures [m] + xs == [m] + ys <==> xs == ys
  {
    if [m] + xs == [m] + ys {
      assert xs == ([m] + xs)[1..] == ys;
    }
  }

  lemma WalkBad(a: seq<byte>, pos: nat)
    requires pos + BLOCK <= |a| && StrictHeader(a[pos..pos + BLOCK]).Bad?
    ensures Walk(a, pos).status == E_PARSE
  {
    hide StrictHeader;
  }

  lemma OpenNothing(a: seq<byte>, pos: nat)
    requires pos <= |a| && a[pos..] == [] + Repeat(0, 2 * BLOCK)
    ensures OpensAs(a, Walk(a, pos), []) <==> Openable([])
  {
    assert a[pos..pos + BLOCK] == a[pos..][..BLOCK];
  }

  lemma {:induction false} OpenBody(a: seq<byte>, pos: nat, ms: Tar.Members)
    requires Tar.AllFit(ms) && pos <= |a| && a[pos..] == Tar.Body(ms) + Repeat(0, 2 * BLOCK)
    ensures OpensAs(a, Walk(a, pos), ms) <==> Openable(ms)
    decreases |ms|
  {
    hide Walk, OpensAs, Openable, Tar.Entry, RoundUp;
    if ms == [] {
      OpenNothing(a, pos);
    } else {
      var m, rest := ms[0], Tar.Body(ms[1..]) + Repeat(0, 2 * BLOCK);
      assert a[pos..] == Tar.Entry(m) + rest;
      Tar.RestOf(a, pos, m, rest);
      var next := pos + BLOCK + RoundUp(|m.data|);
      OpenBody(a, next, ms[1..]);
      OpenStep(a, pos, m, next, ms[1..]);
      assert ms == [m] + ms[1..];
    }
  }

  lemma EntryAligned(m: Member, rest: seq<byte>)
    requires SplitPath(m.path).Some? && |rest| % BLOCK == 0
    ensures |Tar.Entry(m) + rest| % BLOCK == 0
  {
    hide Header;
    assert |Tar.Entry(m)| == BLOCK + RoundUp(|m.data|);
  }

  lemma {:induction false} BodyAligned(ms: Tar.Members)
    requires Tar.AllFit(ms)
    ensures |Tar.Body(ms)| % BLOCK == 0
  {
    hide Tar.Entry;
    if ms != [] {
      BodyAligned(ms[1..]);
      EntryAligned(ms[0], Tar.Body(ms[1..]));
    }
  }

  /** The C reader gets back what the C++ writer packed, with the exact condition on the members. */
  lemma OpenWritten(ms: Tar.Members)
    requires Tar.AllFit(ms)
    ensures var a := Tar.Archive(ms).value; OpensAs(a, Opened(a), ms) <==> Openable(ms)
  {
    hide Tar.Body, Walk, OpensAs, Openable;
    var a := Tar.Archive(ms).value;
    BodyAligned(ms);
    assert a[0..] == a;
    OpenBody(a, 0, ms);
  }

  // ------------------------------------------------------------ the header decoder

  /** `mm_octal`. The cap is checked before each shift, so the 64-bit value cannot overflow. */
  method ParseOctal(p: seq<byte>) returns (r: Option<nat>)
    ensures r == StrictNumber(p)
  {
    hide OctValue, StrictNumber, Over;
    var value, i, digits := 0, 0, 0;
    while i < |p| && IsBlank(p[i])
      invariant i <= |p| && SkipBlank(p, 0) == SkipBlank(p, i)
    {
      i := i + 1;
    }
    ghost var s := i;
    ghost var end := RunEnd(p, s);
    NoDigitYet(p, s);
    StrictAgain(p, s, end);
    while i < |p| && !IsBlank(p[i])
      invariant s <= i <= end && digits == i - s && RunEnd(p, i) == end
      invariant 0 <= value == OctValue(p[s..i]) && !Over(p, s, i)
    {
      if !IsOctal(p[i]) {
        return None;
      }
      DigitTaken(p, s, i);
      if value > CAP {
        OverStays(p, s, i + 1, end);
        return None;
      }
      value := value * 8 + (p[i] as int - 0x30);
      digits := digits + 1;
      i := i + 1;
    }
    while i < |p|
      invariant end <= i <= |p| && forall k :: end <= k < i ==> IsBlank(p[k])
    {
      if !IsBlank(p[i]) {
        return None;
      }
      i := i + 1;
    }
    r := if digits == 0 then None else Some(value);
  }

  lemma NoDigitYet(p: seq<byte>, s: nat)
    requires s <= |p|
    ensures OctValue(p[s..s]) == 0 && !Over(p, s, s)
  {
  }

  lemma DigitTaken(p: seq<byte>, s: nat, i: nat)
    requires s <= i < |p|
    ensures OctValue(p[s..i + 1]) == OctValue(p[s..i]) * 8 + (p[i] as int - 0x30)
    ensures Over(p, s, i + 1) <==> OctValue(p[s..i]) > CAP || Over(p, s, i)
  {
    var all := p[s..i + 1];
    assert all[..|all| - 1] == p[s..i] && all[|all| - 1] == p[i];
  }

  lemma StrictAgain(p: seq<byte>, s: nat, end: nat)
    requires s == SkipBlank(p, 0) && end == RunEnd(p, s)
    ensures StrictNumber(p) == if end == s || (exists k :: end <= k < |p| && !IsBlank(p[k])) || Over(p, s, end) then None
      else Some(OctValue(p[s..end]))
  {
    hide Over;
  }

  /** `mm_checksum`: the checksum field is replaced while summing, not in a copy. */
  method Checksum(block: seq<byte>) returns (sum: nat)
    requires |block| == BLOCK
    ensures sum == ByteSum(Blanked(block))
  {
    ghost var blanked := Blanked(block);
    sum := 0;
    for i := 0 to BLOCK
      invariant sum == ByteSum(blanked[..i])
    {
      assert blanked[..i + 1][..i] == blanked[..i];
      sum := sum + if 148 <= i < 156 then SPACE else block[i];
    }
    assert blanked[..BLOCK] == blanked;
  }

  /** `mm_header_parse`. */
  method ParseHeader(block: seq<byte>) returns (h: Decoded)
    requires |block| == BLOCK
    ensures h == StrictHeader(block)
  {
    hide ByteSum, StrictNumber, FieldLen;
    var zero := Tar.AllZero(block);
    if zero {
      return End;
    }
    var stored := ParseOctal(block[148..156]);
    var sum := Checksum(block);
    if stored != Some(sum) {
      return Bad;
    }
    var size := ParseOctal(block[124..136]);
    if size.None? {
      return Bad;
    }
    if block[257] != 0 && block[257..262] != MAGIC {
      return Bad;
    }
    var name := Tar.ReadField(block[..100]);
    if name == [] {
      return Bad;
    }
    var full := name;
    if block[257] != 0 {
      var prefix := Tar.ReadField(block[345..500]);
      full := if prefix == [] then name else prefix + [SLASH] + name;
    }
    h := UstarFormat.Decoded.Entry(full, size.value, block[156] == ZERO || block[156] == 0);
  }
}
