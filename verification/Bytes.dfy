/** Vocabulary shared by the binary formats: bytes, machine words and results. */
module Bytes {
  /** An unsigned 8-bit value, the `unsigned char` of both implementations. */
  type byte = b: int | 0 <= b < 256

  const SPACE: byte := 0x20
  const SLASH: byte := 0x2F
  const ZERO: byte := 0x30

  datatype Option<+T> = None | Some(value: T)

  datatype Result<+T, +E> = Ok(value: T) | Err(error: E)

  /** `n` copies of `b`. */
  function Repeat<T>(b: T, n: nat): (r: seq<T>)
    ensures |r| == n && forall i :: 0 <= i < n ==> r[i] == b
  {
    seq(n, _ => b)
  }

  /** A code point in UTF-8, section 3 of RFC 3629. */
  function Utf8Bytes(cp: nat): (r: seq<byte>)
    requires cp < 0x110000
    ensures 1 <= |r| <= 4
  {
    if cp < 0x80 then [cp]
    else if cp < 0x800 then [0xC0 + cp / 64, 0x80 + cp % 64]
    else if cp < 0x10000 then [0xE0 + cp / 0x1000, 0x80 + cp / 64 % 64, 0x80 + cp % 64]
    else [0xF0 + cp / 0x40000, 0x80 + cp / 0x1000 % 64, 0x80 + cp / 64 % 64, 0x80 + cp % 64]
  }

  /** A slice of what stands from `lo` on. */
  lemma SliceOfRest<T>(s: seq<T>, lo: nat, a: nat, b: nat)
    requires lo <= |s| && a <= b <= |s| - lo
    ensures s[lo..][a..b] == s[lo + a..lo + b]
  {
    forall i | 0 <= i < b - a ensures s[lo..][a..b][i] == s[lo + a..lo + b][i] {
      assert s[lo..][a + i] == s[lo + (a + i)];
    }
  }

  /** A slice of a slice. */
  lemma SliceOfSlice<T>(s: seq<T>, lo: nat, hi: nat, a: nat, b: nat)
    requires lo <= hi <= |s| && a <= b <= hi - lo
    ensures s[lo..hi][a..b] == s[lo + a..lo + b]
  {
    forall i | 0 <= i < b - a ensures s[lo..hi][a..b][i] == s[lo + a..lo + b][i] {
      assert s[lo..hi][a + i] == s[lo + (a + i)];
    }
  }
}
