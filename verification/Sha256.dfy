/**
 * The streaming SHA-256 of micro/src/sha256.c: buffering and padding against the one-shot digest
 * of FIPS 180-4. The compression function is a parameter; nothing here depends on its rounds.
 */
module Sha256 {
  import opened Bytes
  import Radix

  type word = w: int | 0 <= w < 0x1_0000_0000
  type State = s: seq<word> | |s| == 8 witness [0, 0, 0, 0, 0, 0, 0, 0]
  type Block = b: seq<byte> | |b| == 64 witness Repeat(0, 64)
  type Compress = (State, Block) -> State

  const IV: State := [
    0x6a09e667, 0xbb67ae85, 0x3c6ef372, 0xa54ff53a, 0x510e527f, 0x9b05688c, 0x1f83d9ab, 0x5be0cd19]

  /** An unsigned number in `n` bytes, most significant first. */
  function BigEndian(v: nat, n: nat): (r: seq<byte>)
    ensures |r| == n
  {
    if n == 0 then [] else BigEndian(v / 256, n - 1) + [v % 256]
  }

  // ------------------------------------------------------------ FIPS 180-4

  /** Zero bytes between the 0x80 marker and the length, section 5.1.1. */
  function ZeroPad(len: nat): (k: nat)
    ensures k < 64 && (len + 1 + k) % 64 == 56
  {
    (119 - len % 64) % 64
  }

  lemma WholeBlocks(n: nat)
    requires n % 64 == 56
    ensures (n + 8) % 64 == 0
  {
    Radix.DivModUnique(n / 64 + 1, 0, 64);
  }

  function Padded(msg: seq<byte>): (p: seq<byte>)
    ensures |p| % 64 == 0
  {
    WholeBlocks(|msg| + 1 + ZeroPad(|msg|));
    msg + [0x80] + Repeat(0, ZeroPad(|msg|)) + BigEndian(8 * |msg| % 0x1_0000_0000_0000_0000, 8)
  }

  /** The hash state after whole blocks, section 6.2.2. */
  ghost function Absorb(f: Compress, s: State, data: seq<byte>): State
    requires |data| % 64 == 0
    decreases |data|
  {
    if data == [] then s else Absorb(f, f(s, data[..64]), data[64..])
  }

  ghost function WordBytes(ws: seq<word>): seq<byte> {
    if ws == [] then [] else BigEndian(ws[0], 4) + WordBytes(ws[1..])
  }

  ghost function Digest(f: Compress, msg: seq<byte>): seq<byte> {
    WordBytes(Absorb(f, IV, Padded(msg)))
  }

  lemma {:induction false} AbsorbConcat(f: Compress, s: State, a: seq<byte>, b: seq<byte>)
    requires |a| % 64 == 0 && |b| % 64 == 0
    ensures Absorb(f, s, a + b) == Absorb(f, Absorb(f, s, a), b)
    decreases |a|
  {
    if a == [] {
      assert a + b == b;
    } else {
      assert (a + b)[..64] == a[..64] && (a + b)[64..] == a[64..] + b;
      AbsorbConcat(f, f(s, a[..64]), a[64..], b);
    }
  }

  lemma AbsorbBlock(f: Compress, s: State, a: seq<byte>, b: Block)
    requires |a| % 64 == 0
    ensures Absorb(f, s, a + b) == f(Absorb(f, s, a), b)
  {
    AbsorbConcat(f, s, a, b);
    assert b[..64] == b && b[64..] == [];
  }

  // ------------------------------------------------------------ the context

  class Context {
    const compress: Compress
    var state: State
    var total: nat
    const block: array<byte>
    var fill: nat
    /** Everything hashed so far. */
    ghost var message: seq<byte>

    /** The block holds the tail of the message and the state has absorbed the rest. */
    ghost predicate Buffered()
      reads this, block
    {
      block.Length == 64 && fill == |message| % 64 &&
      block[..fill] == message[|message| - fill..] &&
      state == Absorb(compress, IV, message[..|message| - fill])
    }

    ghost predicate Valid()
      reads this, block
    {
      Buffered() && total == |message| % 0x1_0000_0000_0000_0000
    }

    constructor (f: Compress)
      ensures Valid() && message == [] && compress == f && fresh(block)
    {
      compress, state, total, fill, message := f, IV, 0, 0, [];
      block := new byte[64](_ => 0);
      new;
      NothingAbsorbed(f);
      hide Absorb;
      assert message[..0] == [] && block[..0] == [];
    }

    /** One byte into the block, and the block into the state when it is full. */
    method Push(b: byte)
      requires Buffered()
      modifies `state, `fill, `message, block
      ensures Buffered() && message == old(message) + [b]
    {
      hide Absorb;
      ghost var was, m, n := message, block[..], |message| - fill;
      Pushed(m, fill, b, was, n);
      block[fill] := b;
      assert block[..] == m[fill := b];
      fill := fill + 1;
      message := message + [b];
      if fill == 64 {
        ghost var done := was[..n];
        AbsorbBlock(compress, IV, done, block[..]);
        assert block[..64] == block[..] && message == done + block[..];
        state := compress(state, block[..]);
        fill := 0;
        assert message[..|message|] == message && message[|message|..] == [] && block[..0] == [];
      }
    }

    /** `mcdf_micro_sha256_update`: hashing more bytes is hashing the longer message. */
    method Update(data: seq<byte>)
      requires Valid()
      modifies this, block
      ensures Valid() && message == old(message) + data
    {
      ghost var start := message;
      SumWraps(|start|, |data|);
      total := (total + |data|) % 0x1_0000_0000_0000_0000;
      assert Buffered() && start + data[..0] == start;
      hide Buffered;
      for i := 0 to |data|
        invariant Buffered() && message == start + data[..i]
        invariant total == (|start| + |data|) % 0x1_0000_0000_0000_0000
      {
        Push(data[i]);
      }
      assert data[..|data|] == data;
    }

    /** A padding loop: zero bytes up to position `end` of the block. */
    method FillZeros(end: nat)
      requires block.Length == 64 && fill <= end <= 64
      modifies `fill, block
      ensures fill == end && block[..end] == old(block[..fill]) + Repeat(0, end - old(fill))
    {
      ghost var head, from := block[..fill], fill;
      while fill < end
        invariant from <= fill <= end && block[..fill] == head + Repeat(0, fill - from)
      {
        block[fill] := 0;
        fill := fill + 1;
      }
    }

    /** The marker byte, and a block of its own for it when the length would not fit beside it. */
    method StartPadding() returns (ghost absorbed: seq<byte>, ghost zeros: nat)
      requires Buffered()
      modifies `state, `fill, block
      ensures block.Length == 64 && fill <= 56 && |absorbed| % 64 == 0 && zeros + (56 - fill) < 64
      ensures absorbed + block[..fill] == message + [0x80] + Repeat(0, zeros)
      ensures state == Absorb(compress, IV, absorbed)
    {
      absorbed, zeros := message[..|message| - fill], 0;
      ghost var tail := message[|message| - fill..];
      assert message == absorbed + tail;
      block[fill] := 0x80;
      fill := fill + 1;
      assert block[..fill] == tail + [0x80];
      if fill > 56 {
        zeros := 64 - fill;
        FillZeros(64);
        assert block[..64] == block[..];
        AbsorbBlock(compress, IV, absorbed, block[..]);
        state := compress(state, block[..]);
        absorbed := absorbed + block[..];
        fill := 0;
      }
    }

    /** The message length in bits at the end of the block, most significant byte first. */
    method StoreLength(bits: nat)
      requires block.Length == 64
      modifies block
      ensures block[..] == old(block[..56]) + BigEndian(bits, 8)
    {
      for i := 0 to 8
        invariant block[..56] == old(block[..56]) && block[56..56 + i] == BigEndian(bits, 8)[..i]
      {
        BigEndianAt(bits, 8, i);
        block[56 + i] := ShiftBytes(bits, 7 - i) % 256;
      }
    }

    /** Padding of section 5.1.1: marker, zeros and the 64-bit length, absorbed like message bytes. */
    method Pad()
      requires Valid()
      modifies `state, `fill, block
      ensures state == Absorb(compress, IV, Padded(message))
    {
      hide Absorb, Padded, BigEndian, Repeat;
      var bits := total * 8 % 0x1_0000_0000_0000_0000;
      ghost var absorbed, zeros := StartPadding();
      ghost var head, more := block[..fill], 56 - fill;
      FillZeros(56);
      ghost var body := block[..56];
      StoreLength(bits);
      PaddedIs(message, absorbed, head, zeros, more, body);
      Absorbs(compress, state, absorbed, body, BigEndian(bits, 8), block[..]);
      state := compress(state, block[..]);
    }

    /** `mcdf_micro_sha256_final`: the digest of everything hashed so far. */
    method Final() returns (out: seq<byte>)
      requires Valid()
      modifies this, block
      ensures out == Digest(compress, old(message))
    {
      Pad();
      out := EmitWords(state);
    }
  }

  /** One byte more in the block is one byte more of the message. */
  lemma Pushed(m: seq<byte>, fill: nat, b: byte, message: seq<byte>, n: nat)
    requires fill < |m| == 64 && |message| == n + fill && n % 64 == 0 && m[..fill] == message[n..]
    ensures m[fill := b][..fill + 1] == (message + [b])[n..] && (message + [b])[..n] == message[..n]
    ensures message + [b] == message[..n] + m[fill := b][..fill + 1]
    ensures |message + [b]| % 64 == if fill == 63 then 0 else fill + 1
  {
    assert m[fill := b][..fill + 1] == m[..fill] + [b];
    assert (message + [b])[n..] == message[n..] + [b];
    Radix.DivModUnique(n / 64 + (if fill == 63 then 1 else 0), if fill == 63 then 0 else fill + 1, 64);
  }

  lemma NothingAbsorbed(f: Compress)
    ensures Absorb(f, IV, []) == IV
  {
  }

  /** The last block absorbed behind the rest. */
  lemma Absorbs(f: Compress, s: State, absorbed: seq<byte>, body: seq<byte>, length: seq<byte>, b: Block)
    requires |absorbed| % 64 == 0 && s == Absorb(f, IV, absorbed) && b == body + length
    ensures |absorbed + body + length| % 64 == 0 && f(s, b) == Absorb(f, IV, absorbed + body + length)
  {
    hide Absorb;
    AbsorbBlock(f, IV, absorbed, b);
    assert absorbed + body + length == absorbed + b;
  }

  method EmitWords(ws: State) returns (out: seq<byte>)
    ensures out == WordBytes(ws)
  {
    hide WordBytes, Quarters;
    out := [];
    NoWords();
    for i := 0 to 8
      invariant out == WordBytes(ws[..i])
    {
      assert ws[..i + 1] == ws[..i] + [ws[i]];
      WordBytesSnoc(ws[..i], ws[i]);
      out := out + Quarters(ws[i]);
    }
    assert ws[..8] == ws;
  }

  lemma NoWords()
    ensures WordBytes([]) == []
  {
  }

  /** The four bytes of a word by shifts and masks. */
  function Quarters(w: word): seq<byte> {
    [w / 0x1000000 % 256, w / 0x10000 % 256, w / 0x100 % 256, w % 256]
  }

  lemma PaddedIs(msg: seq<byte>, absorbed: seq<byte>, head: seq<byte>, zeros: nat, more: nat, body: seq<byte>)
    requires absorbed + head == msg + [0x80] + Repeat(0, zeros) && body == head + Repeat(0, more)
    requires |absorbed| % 64 == 0 && |body| == 56 && zeros + more < 64
    ensures Padded(msg) == absorbed + body + BigEndian((|msg| % 0x1_0000_0000_0000_0000) * 8 % 0x1_0000_0000_0000_0000, 8)
  {
    hide BigEndian;
    var k := zeros + more;
    JoinedZeros(absorbed, head, msg + [0x80], zeros, more);
    Lengths(|msg|, |absorbed|, k);
    TimesEight(|msg|);
  }

  lemma JoinedZeros(absorbed: seq<byte>, head: seq<byte>, front: seq<byte>, zeros: nat, more: nat)
    requires absorbed + head == front + Repeat(0, zeros)
    ensures absorbed + (head + Repeat(0, more)) == front + Repeat(0, zeros + more)
  {
    assert absorbed + (head + Repeat(0, more)) == (absorbed + head) + Repeat(0, more);
    assert Repeat<byte>(0, zeros) + Repeat(0, more) == Repeat(0, zeros + more);
    assert (front + Repeat(0, zeros)) + Repeat(0, more) == front + (Repeat(0, zeros) + Repeat(0, more));
  }

  lemma SumWraps(n: nat, more: nat)
    ensures (n % 0x1_0000_0000_0000_0000 + more) % 0x1_0000_0000_0000_0000 == (n + more) % 0x1_0000_0000_0000_0000
  {
  }

  lemma Lengths(len: nat, absorbed: nat, k: nat)
    requires len + 1 + k == absorbed + 56 && absorbed % 64 == 0 && k < 64
    ensures k == ZeroPad(len)
  {
    assert (len + 1 + k) % 64 == 56;
    ZeroPadUnique(len, k);
  }

  lemma ZeroPadUnique(len: nat, k: nat)
    requires k < 64 && (len + 1 + k) % 64 == 56
    ensures k == ZeroPad(len)
  {
  }

  lemma TimesEight(n: nat)
    ensures (n % 0x1_0000_0000_0000_0000) * 8 % 0x1_0000_0000_0000_0000 == 8 * n % 0x1_0000_0000_0000_0000
  {
    var m := 0x1_0000_0000_0000_0000;
    var q, r := n / m, n % m;
    var s, t := r * 8 / m, r * 8 % m;
    assert n == q * m + r && r * 8 == s * m + t;
    assert 8 * n == (8 * q + s) * m + t;
    Radix.DivModUnique(8 * q + s, t, m);
  }

  /** `v` shifted right by `k` bytes. */
  function ShiftBytes(v: nat, k: nat): nat {
    if k == 0 then v else ShiftBytes(v / 256, k - 1)
  }

  /** Byte `i` of a big-endian number, by one shift and one mask. */
  lemma {:induction false} BigEndianAt(v: nat, n: nat, i: nat)
    requires i < n
    ensures BigEndian(v, n)[i] == ShiftBytes(v, n - 1 - i) % 256
  {
    if i < n - 1 {
      BigEndianAt(v / 256, n - 1, i);
    }
  }

  lemma {:induction false} WordBytesSnoc(ws: seq<word>, w: word)
    ensures WordBytes(ws + [w]) == WordBytes(ws) + Quarters(w)
  {
    if ws == [] {
      assert BigEndian(w, 4) == Quarters(w);
    } else {
      assert (ws + [w])[1..] == ws[1..] + [w];
      WordBytesSnoc(ws[1..], w);
    }
  }
}
