/** The lines of a Markdown document that the renderer's scans tell apart, by their bytes. */
module Spelling {
  import opened Bytes
  import opened Json

  /** The run of a character ends here. */
  predicate BehindRun(rest: Text, ch: byte) {
    rest == [] || rest[0] != ch
  }

  /** A code fence of `k` characters, indented by three spaces at most. */
  ghost predicate FenceLine(l: Text, ch: byte, k: nat) {
    (ch == 0x60 || ch == 0x7E) && k >= 3 &&
    exists n: nat, rest: Text :: n <= 3 && BehindRun(rest, ch) && l == Repeat(0x20, n) + Repeat(ch, k) + rest
  }

  /** Spaces, tabs and carriage returns only. */
  ghost predicate BlankText(l: Text) {
    forall c :: c in l ==> c == 0x20 || c == 0x09 || c == 0x0D
  }

  predicate BehindMarker(rest: Text) {
    rest == [] || rest[0] == 0x20 || rest[0] == 0x09
  }

  ghost predicate QuoteLine(l: Text) {
    exists n: nat, rest: Text :: n <= 3 && l == Repeat(0x20, n) + [0x3E] + rest
  }

  ghost predicate BulletLine(l: Text) {
    exists n: nat, b: byte, rest: Text ::
      n <= 3 && (b == 0x2D || b == 0x2B || b == 0x2A) && BehindMarker(rest) && l == Repeat(0x20, n) + [b] + rest
  }

  ghost predicate Digits(ds: Text) {
    ds != [] && forall c :: c in ds ==> 0x30 <= c <= 0x39
  }

  ghost predicate OrderedLine(l: Text) {
    exists n: nat, ds: Text, d: byte, rest: Text ::
      n <= 3 && Digits(ds) && (d == 0x2E || d == 0x29) && BehindMarker(rest) && l == Repeat(0x20, n) + ds + [d] + rest
  }

  /** Nothing but spaces, or four of them in front. */
  ghost predicate IndentedLine(l: Text) {
    l == Repeat(0x20, |l|) || Repeat(0x20, 4) <= l
  }

  /** The label of a link reference: no `]` but behind a backslash. */
  ghost predicate Label(t: Text) {
    t == [] || (t[0] != 0x5C && t[0] != 0x5D && Label(t[1..])) || (|t| >= 2 && t[0] == 0x5C && Label(t[2..]))
  }

  ghost predicate ReferenceLine(l: Text) {
    exists n: nat, name: Text, rest: Text ::
      n <= 3 && Label(name) && l == Repeat(0x20, n) + [0x5B] + name + [0x5D, 0x3A] + rest
  }
}
