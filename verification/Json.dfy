/**
 * JSON strings as both implementations write them (section 3.2.2.2 of RFC 8785) and the streaming
 * reader of micro/src/manifest.c with its one byte of pushback.
 */
module Json {
  import opened Bytes
  import opened Utf16

  type Text = seq<byte>

  const QUOTE: byte := 0x22
  const BACKSLASH: byte := 0x5C
  const COMMA: byte := 0x2C
  const COLON: byte := 0x3A
  const OPEN: byte := 0x7B
  const CLOSE: byte := 0x7D
  const LBRACKET: byte := 0x5B
  const RBRACKET: byte := 0x5D
  const LOWER_U: byte := 0x75

  // ------------------------------------------------------------ writing

  function HexDigit(n: nat): byte
    requires n < 16
  {
    if n < 10 then 0x30 + n else 0x61 + (n - 10)
  }

  /** The two-character escapes. */
  function ShortEscape(c: byte): Option<byte> {
    if c == QUOTE || c == BACKSLASH then Some(c)
    else if c == 8 then Some(0x62)
    else if c == 9 then Some(0x74)
    else if c == 10 then Some(0x6E)
    else if c == 12 then Some(0x66)
    else if c == 13 then Some(0x72)
    else None
  }

  function EscapeByte(c: byte): (r: Text)
    ensures |r| >= 1
  {
    if ShortEscape(c).Some? then [BACKSLASH, ShortEscape(c).value]
    else if c < 0x20 then [BACKSLASH, LOWER_U, 0x30, 0x30, HexDigit(c / 16), HexDigit(c % 16)]
    else [c]
  }

  ghost function Escape(s: Text): Text {
    if s == [] then [] else EscapeByte(s[0]) + Escape(s[1..])
  }

  ghost function Quoted(s: Text): Text {
    [QUOTE] + Escape(s) + [QUOTE]
  }

  lemma {:induction false} EscapeSnoc(s: Text, c: byte)
    ensures Escape(s + [c]) == Escape(s) + EscapeByte(c)
  {
    hide EscapeByte;
    if s == [] {
      assert [c][1..] == [];
    } else {
      assert (s + [c])[1..] == s[1..] + [c];
      EscapeSnoc(s[1..], c);
    }
  }

  /** Text without quotes, backslashes and control bytes is written as it is. */
  lemma {:induction false} PlainEscape(s: Text)
    requires forall i :: 0 <= i < |s| ==> s[i] >= 0x20 && s[i] != QUOTE && s[i] != BACKSLASH
    ensures Escape(s) == s
  {
    if s != [] { PlainEscape(s[1..]); }
  }

  /** The switch of both writers. */
  method EscapeOne(c: byte) returns (e: Text)
    ensures e == EscapeByte(c)
  {
    if c == QUOTE { e := [BACKSLASH, QUOTE]; }
    else if c == BACKSLASH { e := [BACKSLASH, BACKSLASH]; }
    else if c == 8 { e := [BACKSLASH, 0x62]; }
    else if c == 9 { e := [BACKSLASH, 0x74]; }
    else if c == 10 { e := [BACKSLASH, 0x6E]; }
    else if c == 12 { e := [BACKSLASH, 0x66]; }
    else if c == 13 { e := [BACKSLASH, 0x72]; }
    else if c < 0x20 { e := [BACKSLASH, LOWER_U, 0x30, 0x30, HexDigit(c / 16), HexDigit(c % 16)]; }
    else { e := [c]; }
  }

  /** `write_escaped` and `jcs_string`. */
  method WriteEscaped(s: Text) returns (out: Text)
    ensures out == Quoted(s)
  {
    hide EscapeByte;
    out := [QUOTE];
    for i := 0 to |s|
      invariant out == [QUOTE] + Escape(s[..i])
    {
      assert s[..i + 1] == s[..i] + [s[i]];
      EscapeSnoc(s[..i], s[i]);
      var e := EscapeOne(s[i]);
      out := out + e;
    }
    assert s[..|s|] == s;
    out := out + [QUOTE];
  }

  // ------------------------------------------------------------ what the reader accepts

  function HexValue(c: byte): Option<nat> {
    if 0x30 <= c <= 0x39 then Some(c - 0x30)
    else if 0x61 <= c <= 0x66 then Some(c - 0x61 + 10)
    else if 0x41 <= c <= 0x46 then Some(c - 0x41 + 10)
    else None
  }

  ghost function Hex4(t: Text): (r: Option<nat>)
    ensures r.Some? ==> |t| >= 4 && r.value < 0x10000
  {
    if |t| < 4 || HexValue(t[0]).None? || HexValue(t[1]).None? || HexValue(t[2]).None? || HexValue(t[3]).None? then None
    else Some(((HexValue(t[0]).value * 16 + HexValue(t[1]).value) * 16 + HexValue(t[2]).value) * 16 + HexValue(t[3]).value)
  }

  /** The character of a two-character escape. */
  function Unescape(c: byte): Option<byte> {
    if c == QUOTE || c == BACKSLASH || c == 0x2F then Some(c)
    else if c == 0x62 then Some(8)
    else if c == 0x66 then Some(12)
    else if c == 0x6E then Some(10)
    else if c == 0x72 then Some(13)
    else if c == 0x74 then Some(9)
    else None
  }

  /** `n` hex digits after the ones that made `acc`. */
  ghost function HexRun(t: Text, n: nat, acc: nat): Option<nat>
    decreases n
  {
    if n == 0 then Some(acc)
    else if t == [] || HexValue(t[0]).None? then None
    else HexRun(t[1..], n - 1, acc * 16 + HexValue(t[0]).value)
  }

  lemma Hex4IsRun(t: Text)
    ensures HexRun(t, 4, 0) == Hex4(t)
  {
    hide HexValue;
    if |t| >= 1 && HexValue(t[0]).Some? {
      var a := HexValue(t[0]).value;
      if |t| >= 2 && HexValue(t[1]).Some? {
        var b := a * 16 + HexValue(t[1]).value;
        assert HexRun(t[1..], 3, a) == HexRun(t[1..][1..], 2, b);
      }
    }
  }

  /** One digit of a run. */
  lemma HexStep(t: Text, n: nat, acc: nat)
    requires n > 0
    ensures HexRun(t, n, acc) ==
      if t == [] || HexValue(t[0]).None? then None else HexRun(t[1..], n - 1, acc * 16 + HexValue(t[0]).value)
    ensures HexRun(t, 0, acc) == Some(acc)
  {
    hide HexValue;
  }

  /** One character of a string body: what it decodes to and how long it is written. */
  datatype Piece = Piece(bytes: Text, len: nat)

  /** A `\\u` escape, with its low surrogate when it starts a pair. */
  ghost function UnicodePiece(t: Text): (r: Option<Piece>)
    ensures r.Some? ==> 0 < r.value.len <= |t|
  {
    var cp := if |t| < 2 then None else Hex4(t[2..]);
    if cp.None? || 0xDC00 <= cp.value <= 0xDFFF then None
    else if 0xD800 <= cp.value <= 0xDBFF then
      if |t| < 12 || t[6] != BACKSLASH || t[7] != LOWER_U then None
      else
        var lo := Hex4(t[8..]);
        if lo.None? || lo.value < 0xDC00 || lo.value > 0xDFFF then None
        else Some(Piece(Utf8Bytes(0x10000 + (cp.value - 0xD800) * 0x400 + (lo.value - 0xDC00)), 12))
    else Some(Piece(Utf8Bytes(cp.value), 6))
  }

  ghost function FirstPiece(t: Text): (r: Option<Piece>)
    requires t != []
    ensures r.Some? ==> 0 < r.value.len <= |t|
  {
    if t[0] != BACKSLASH then Some(Piece([t[0]], 1))
    else if |t| < 2 then None
    else if t[1] == LOWER_U then UnicodePiece(t)
    else if Unescape(t[1]).Some? then Some(Piece([Unescape(t[1]).value], 2))
    else None
  }

  datatype Str = Str(value: Text, rest: Text)

  /** `jstring`: a string body up to its closing quote. */
  ghost function ReadStr(t: Text): Option<Str>
    decreases |t|
  {
    if t == [] then None
    else if t[0] == QUOTE then Some(Str([], t[1..]))
    else
      var p := FirstPiece(t);
      if p.None? then None
      else
        var r := ReadStr(t[p.value.len..]);
        if r.None? then None else Some(Str(p.value.bytes + r.value.value, r.value.rest))
  }

  /** Every escape the writer emits is one piece that decodes to its byte. */
  lemma EscapedPiece(c: byte, t: Text)
    ensures var e := EscapeByte(c);
      (e + t)[0] != QUOTE && FirstPiece(e + t) == Some(Piece([c], |e|))
  {
    var e := EscapeByte(c);
    if ShortEscape(c).None? && c < 0x20 {
      var u := e + t;
      assert u[2..][..4] == [0x30, 0x30, HexDigit(c / 16), HexDigit(c % 16)];
      assert u[2..][2] == HexDigit(c / 16) && u[2..][3] == HexDigit(c % 16);
    }
  }

  /** What was written is read back, and the reader stops right after the closing quote. */
  lemma {:induction false} StrRoundTrip(s: Text, t: Text)
    ensures ReadStr(Escape(s) + [QUOTE] + t) == Some(Str(s, t))
  {
    hide EscapeByte, FirstPiece;
    var u := Escape(s) + [QUOTE] + t;
    if s != [] {
      var e, rest := EscapeByte(s[0]), Escape(s[1..]) + [QUOTE] + t;
      assert u == e + rest;
      EscapedPiece(s[0], rest);
      StrRoundTrip(s[1..], t);
      assert u[|e|..] == rest;
      assert [s[0]] + s[1..] == s;
    }
  }

  // ------------------------------------------------------------ the stream

  predicate IsSpace(c: byte) {
    c == 0x20 || c == 9 || c == 10 || c == 13
  }

  /** What follows leading whitespace. */
  ghost function AfterSpace(t: Text): (r: Text)
    ensures |r| <= |t| && (r != [] ==> !IsSpace(r[0]))
  {
    if t != [] && IsSpace(t[0]) then AfterSpace(t[1..]) else t
  }

  /** What follows a bare literal: a delimiter, or the end. */
  ghost function AfterLiteral(t: Text): (r: Text)
    ensures |r| <= |t|
  {
    if t == [] || t[0] == COMMA || t[0] == CLOSE || t[0] == RBRACKET || IsSpace(t[0]) then t
    else AfterLiteral(t[1..])
  }

  lemma ReadStrShrinks(t: Text)
    ensures ReadStr(t).Some? ==> |ReadStr(t).value.rest| < |t|
    decreases |t|
  {
    if t != [] && t[0] != QUOTE && FirstPiece(t).Some? {
      ReadStrShrinks(t[FirstPiece(t).value.len..]);
    }
  }

  /** `jskip`: what follows one value, or the rest of one that is `depth` brackets deep. */
  ghost function Skip(t: Text, depth: nat): (r: Option<Text>)
    decreases |t|
  {
    var u := AfterSpace(t);
    if u == [] then None
    else
      var c, v := u[0], u[1..];
      if c == QUOTE then
        ReadStrShrinks(v);
        if ReadStr(v).None? then None
        else if depth == 0 then Some(ReadStr(v).value.rest)
        else Skip(ReadStr(v).value.rest, depth)
      else if c == OPEN || c == LBRACKET then Skip(v, depth + 1)
      else if c == CLOSE || c == RBRACKET then
        if depth == 0 then Some(u) else if depth == 1 then Some(v) else Skip(v, depth - 1)
      else if c == COMMA && depth == 0 then Some(u)
      else if c == COMMA || c == COLON then Skip(v, depth)
      else if depth == 0 then Some(AfterLiteral(v))
      else Skip(AfterLiteral(v), depth)
  }

  /** The cursor with one byte of pushback, over a member's bytes. */
  class Stream {
    const src: Text
    var pos: nat
    var peek: byte
    var hasPeek: bool

    ghost predicate Valid()
      reads this
    {
      pos <= |src|
    }

    /** What is still to be read. */
    ghost function Rest(): Text
      reads this
      requires Valid()
    {
      (if hasPeek then [peek] else []) + src[pos..]
    }

    constructor (src: Text)
      ensures Valid() && Rest() == src
    {
      this.src, pos, peek, hasPeek := src, 0, 0, false;
    }

    /** `jget`. */
    method Get() returns (c: Option<byte>)
      requires Valid()
      modifies this
      ensures Valid()
      ensures old(Rest()) == [] ==> c == None && Rest() == []
      ensures old(Rest()) != [] ==> c == Some(old(Rest())[0]) && Rest() == old(Rest())[1..]
      ensures c.Some? ==> !hasPeek
    {
      if hasPeek {
        hasPeek := false;
        return Some(peek);
      }
      if pos == |src| {
        return None;
      }
      c := Some(src[pos]);
      pos := pos + 1;
    }

    /** `jput`. */
    method Put(c: byte)
      requires Valid() && !hasPeek
      modifies this
      ensures Valid() && Rest() == [c] + old(Rest())
    {
      peek, hasPeek := c, true;
    }

    /** `jws`: the next byte that is not whitespace. */
    method NextToken() returns (c: Option<byte>)
      requires Valid()
      modifies this
      ensures Valid()
      ensures var u := AfterSpace(old(Rest()));
        if u == [] then c == None else c == Some(u[0]) && Rest() == u[1..] && !hasPeek
    {
      ghost var all := Rest();
      while true
        invariant Valid() && AfterSpace(Rest()) == AfterSpace(all)
        decreases |Rest()|
      {
        c := Get();
        if c.None? || !IsSpace(c.value) {
          return;
        }
      }
    }

    /** `jhex4`. */
    method NextHex4() returns (r: Option<nat>)
      requires Valid()
      modifies this
      ensures Valid()
      ensures r == Hex4(old(Rest()))
      ensures r.Some? ==> Rest() == old(Rest())[4..] && r.value < 0x10000
    {
      hide Hex4;
      ghost var all := Rest();
      var value: nat := 0;
      Hex4IsRun(all);
      for i := 0 to 4
        invariant Valid() && i <= |all| && Rest() == all[i..]
        invariant HexRun(Rest(), 4 - i, value) == HexRun(all, 4, 0)
      {
        ghost var t := Rest();
        HexStep(t, 4 - i, value);
        hide HexValue, HexRun;
        var c := Get();
        if c.None? || HexValue(c.value).None? {
          return None;
        }
        value := value * 16 + HexValue(c.value).value;
      }
      r := Some(value);
    }

    /** The rest of a `\\u` escape, after the `u`. */
    method NextUnicode(ghost t: Text) returns (r: Option<Text>)
      requires Valid() && |t| >= 2 && Rest() == t[2..] && t[0] == BACKSLASH && t[1] == LOWER_U
      modifies this
      ensures Valid()
      ensures r.Some? <==> UnicodePiece(t).Some?
      ensures r.Some? ==> r.value == UnicodePiece(t).value.bytes && Rest() == t[UnicodePiece(t).value.len..]
    {
      hide Hex4, Utf8Bytes;
      var cp := NextHex4();
      if cp.None? || 0xDC00 <= cp.value <= 0xDFFF {
        return None;
      }
      assert Rest() == t[6..];
      if 0xD800 <= cp.value <= 0xDBFF {
        var a := Get();
        if a != Some(BACKSLASH) {
          return None;
        }
        var b := Get();
        if b != Some(LOWER_U) {
          return None;
        }
        assert Rest() == t[8..];
        var lo := NextHex4();
        if lo.None? || lo.value < 0xDC00 || lo.value > 0xDFFF {
          return None;
        }
        assert Rest() == t[12..];
        return Some(Utf8Bytes(0x10000 + (cp.value - 0xD800) * 0x400 + (lo.value - 0xDC00)));
      }
      r := Some(Utf8Bytes(cp.value));
    }

    /** One character of a string body that is not its closing quote. */
    method NextPiece(ghost t: Text, c: byte) returns (r: Option<Text>)
      requires Valid() && t == [c] + Rest() && c != QUOTE
      modifies this
      ensures Valid()
      ensures r.Some? <==> FirstPiece(t).Some?
      ensures r.Some? ==> r.value == FirstPiece(t).value.bytes && Rest() == t[FirstPiece(t).value.len..]
    {
      hide UnicodePiece;
      if c != BACKSLASH {
        return Some([c]);
      }
      var e := Get();
      if e.None? {
        return None;
      }
      assert Rest() == t[2..];
      if e == Some(LOWER_U) {
        r := NextUnicode(t);
        return;
      }
      r := if Unescape(e.value).Some? then Some([Unescape(e.value).value]) else None;
    }

    /** `jstring`: the decoded length always, the bytes as far as the caller's buffer holds them. */
    method ReadString(cap: nat) returns (ok: bool, buf: Text, len: nat)
      requires Valid()
      modifies this
      ensures Valid()
      ensures ok <==> ReadStr(old(Rest())).Some?
      ensures ok ==> var s := ReadStr(old(Rest())).value;
        Rest() == s.rest && len == |s.value| && buf == Stored(s.value, cap)
    {
      hide FirstPiece;
      ghost var all, done := Rest(), [];
      assert forall s: Text :: done + s == s;
      buf, len := [], 0;
      while true
        invariant Valid() && len == |done| && buf == Stored(done, cap)
        invariant ReadStr(all) == Prepended(done, ReadStr(Rest()))
        decreases |Rest()|
      {
        ghost var t := Rest();
        var c := Get();
        if c.None? {
          return false, buf, len;
        }
        if c.value == QUOTE {
          assert done + [] == done;
          return true, buf, len;
        }
        var piece := NextPiece(t, c.value);
        if piece.None? {
          return false, buf, len;
        }
        ghost var r := ReadStr(Rest());
        PrependTwice(done, piece.value, r);
        done := done + piece.value;
        buf := Stored(buf + piece.value, cap);
        len := len + |piece.value|;
      }
    }

    /** The bytes of a bare literal; its delimiter is pushed back. */
    method SkipLiteral()
      requires Valid()
      modifies this
      ensures Valid() && Rest() == AfterLiteral(old(Rest()))
    {
      ghost var all := Rest();
      while true
        invariant Valid() && AfterLiteral(Rest()) == AfterLiteral(all)
        decreases |Rest()|
      {
        ghost var t := Rest();
        var c := Get();
        if c.None? {
          return;
        }
        if c.value == COMMA || c.value == CLOSE || c.value == RBRACKET || IsSpace(c.value) {
          Put(c.value);
          assert Rest() == t;
          return;
        }
      }
    }

    /** `jskip`: one whole value, nested containers included. */
    method SkipValue() returns (ok: bool)
      requires Valid()
      modifies this
      ensures Valid()
      ensures ok <==> Skip(old(Rest()), 0).Some?
      ensures ok ==> Rest() == Skip(old(Rest()), 0).value
    {
      hide ReadStr;
      ghost var all := Rest();
      var depth: nat := 0;
      while true
        invariant Valid() && Skip(Rest(), depth) == Skip(all, 0)
        decreases |Rest()|
      {
        ghost var t := Rest();
        var c := NextToken();
        if c.None? {
          return false;
        }
        ghost var u := AfterSpace(t);
        assert u == [c.value] + Rest();
        if c.value == QUOTE {
          ReadStrShrinks(Rest());
          var str, buf, len := ReadString(0);
          if !str {
            return false;
          }
        } else if c.value == OPEN || c.value == LBRACKET {
          depth := depth + 1;
          continue;
        } else if c.value == CLOSE || c.value == RBRACKET {
          if depth == 0 {
            Put(c.value);
            return true;
          }
          depth := depth - 1;
        } else if c.value == COMMA || c.value == COLON {
          if c.value == COMMA && depth == 0 {
            Put(c.value);
            return true;
          }
          continue;
        } else {
          SkipLiteral();
        }
        if depth == 0 {
          return true;
        }
      }
    }
  }

  function Stored(s: Text, cap: nat): Text {
    if cap == 0 then [] else if |s| < cap then s else s[..cap - 1]
  }

  ghost function Prepended(s: Text, r: Option<Str>): Option<Str> {
    if r.None? then None else Some(Str(s + r.value.value, r.value.rest))
  }

  lemma PrependTwice(s: Text, p: Text, r: Option<Str>)
    ensures Prepended(s, Prepended(p, r)) == Prepended(s + p, r)
  {
    if r.Some? {
      assert s + (p + r.value.value) == (s + p) + r.value.value;
    }
  }
}
