/**
 * Heading anchors (micro/src/anchors.c): a line scanner that keeps the head of a line and a rolling
 * tail of it, and one walk with three ways to ask.
 */
module Anchors {
  import opened Bytes
  import opened Json
  import opened Markup
  import opened Index
  import opened Ustar
  import opened Yaml
  import opened YamlCode
  import M = Manifest
  import Render

  const TAIL: nat := 160
  const HEAD: nat := 16

  // ------------------------------------------------------------ what is kept of a line

  /** `struct mm_lineinfo`. */
  datatype LineInfo = LineInfo(tail: Text, head: Text, len: nat, indent: nat, columns: nat, blank: bool)

  ghost function Indent(l: Text): (n: nat)
    ensures n <= |l| && (n < |l| ==> !Blank(l[n])) && forall i :: 0 <= i < n ==> Blank(l[i])
  {
    if l == [] || !Blank(l[0]) then 0 else 1 + Indent(l[1..])
  }

  /** Leading blanks in columns, a tab counting four. */
  ghost function Columns(l: Text): nat {
    if l == [] || !Blank(l[0]) then 0 else (if l[0] == TAB then 4 else 1) + Columns(l[1..])
  }

  ghost predicate IsBlank(l: Text) {
    l == [] || ((Blank(l[0]) || l[0] == CR) && IsBlank(l[1..]))
  }

  /**
   * The rolling tail of a line that was read with its carriage return: the line itself when the ring
   * never wrapped, its last 160 bytes otherwise. A dropped carriage return still occupies its slot
   * in the ring, in the place of the oldest byte.
   */
  ghost function Tail(l: Text): (r: Text)
    ensures |r| == if |DropCr(l)| <= TAIL then |DropCr(l)| else TAIL
  {
    var d := DropCr(l);
    if |l| <= TAIL then d
    else if |d| == |l| then l[|l| - TAIL..]
    else [CR] + d[|d| - (TAIL - 1)..]
  }

  ghost function Info(l: Text): LineInfo {
    var d := DropCr(l);
    LineInfo(Tail(l), if |d| < HEAD then d else d[..HEAD], |d|, Indent(l), if IsBlank(l) then 0 else Columns(l), IsBlank(l))
  }

  // ------------------------------------------------------------ the ring

  /** The ring holds the last bytes of what was read, each at its own slot. */
  ghost predicate RingHolds(ring: Text, l: Text) {
    |ring| == TAIL && forall j: nat :: |l| <= j + TAIL && j < |l| ==> ring[j % TAIL] == l[j]
  }

  lemma SlotsDiffer(j: nat, n: nat)
    requires j < n < j + TAIL
    ensures j % TAIL != n % TAIL
  {
  }

  lemma SlotWraps(n: nat)
    ensures n < TAIL ==> n % TAIL == n
    ensures (n % TAIL + 1) % TAIL == (n + 1) % TAIL
    ensures n > 0 ==> (if n % TAIL == 0 then TAIL - 1 else n % TAIL - 1) == (n - 1) % TAIL
    ensures n > 0 ==> (n % TAIL + TAIL - 1) % TAIL == (n - 1) % TAIL
  {
  }

  lemma RingStep(ring: Text, l: Text, ch: byte)
    requires RingHolds(ring, l)
    ensures RingHolds(ring[|l| % TAIL := ch], l + [ch])
  {
    var r, m := ring[|l| % TAIL := ch], l + [ch];
    forall j: nat | |m| <= j + TAIL && j < |m| ensures r[j % TAIL] == m[j] {
      if j < |l| { SlotsDiffer(j, |l|); }
    }
  }

  /** Slot `(|d| + i) % 160` is the place of byte `|d| - 160 + i`. */
  lemma SlotOf(n: nat, i: nat)
    requires n >= TAIL
    ensures (n % TAIL + i) % TAIL == (n - TAIL + i) % TAIL
  {
  }

  /** What linearising the ring yields. */
  lemma Linearised(ring: Text, l: Text, tail: Text)
    requires RingHolds(ring, l)
    requires |tail| == if |DropCr(l)| <= TAIL then |DropCr(l)| else TAIL
    requires forall i :: 0 <= i < |tail| ==>
      tail[i] == if |DropCr(l)| <= TAIL then ring[i] else ring[(|DropCr(l)| % TAIL + i) % TAIL]
    ensures tail == Tail(l)
  {
    var d := DropCr(l);
    var want := Tail(l);
    forall i | 0 <= i < |tail| ensures tail[i] == want[i] {
      if |d| <= TAIL {
        SmallSlot(ring, l, i);
      } else {
        LargeSlot(ring, l, i);
      }
    }
  }

  lemma SmallSlot(ring: Text, l: Text, i: nat)
    requires RingHolds(ring, l) && |DropCr(l)| <= TAIL && i < |DropCr(l)|
    ensures ring[i] == Tail(l)[i]
  {
    if |l| > TAIL && i == 0 {
      OldestGivesWay(ring, l);
    } else {
      hide RingHolds, Tail;
      TailKeeps(l, i);
      SlotAt(ring, l, i);
    }
  }

  lemma TailKeeps(l: Text, i: nat)
    requires |DropCr(l)| <= TAIL && i < |DropCr(l)| && (|l| > TAIL ==> i > 0)
    ensures i < |l| <= i + TAIL && Tail(l)[i] == l[i]
  {
  }

  lemma SlotAt(ring: Text, l: Text, i: nat)
    requires RingHolds(ring, l) && i < TAIL && i < |l| <= i + TAIL
    ensures ring[i] == l[i]
  {
    SlotWraps(i);
    assert ring[i % TAIL] == l[i];
  }

  /** A carriage return behind a full ring takes the place of the first byte. */
  lemma OldestGivesWay(ring: Text, l: Text)
    requires RingHolds(ring, l) && |l| > TAIL && |DropCr(l)| <= TAIL
    ensures ring[0] == Tail(l)[0]
  {
    hide RingHolds;
    FirstSlot(ring, l);
  }

  lemma FirstSlot(ring: Text, l: Text)
    requires RingHolds(ring, l) && |l| == TAIL + 1
    ensures |ring| == TAIL && ring[0] == l[TAIL]
  {
    var j: nat := TAIL;
    assert ring[j % TAIL] == l[j];
  }

  /** A tail that wrapped, byte by byte. */
  lemma TailAt(l: Text, i: nat)
    requires |DropCr(l)| > TAIL && i < TAIL
    ensures |DropCr(l)| <= |l| <= |DropCr(l)| + 1
    ensures Tail(l)[i] == l[if i == 0 && |DropCr(l)| < |l| then |DropCr(l)| else |DropCr(l)| - TAIL + i]
  {
    var d := DropCr(l);
    if |d| < |l| {
      assert d == l[..|l| - 1] && l[|d|] == CR;
      if i > 0 { assert d[|d| - (TAIL - 1)..][i - 1] == d[|d| - TAIL + i]; }
    } else {
      assert l[|l| - TAIL..][i] == l[|l| - TAIL + i];
    }
  }

  lemma LargeSlot(ring: Text, l: Text, i: nat)
    requires RingHolds(ring, l) && |DropCr(l)| > TAIL && i < TAIL
    ensures ring[(|DropCr(l)| % TAIL + i) % TAIL] == Tail(l)[i]
  {
    hide Tail, DropCr, RingHolds;
    var n := |DropCr(l)|;
    TailAt(l, i);
    if i == 0 && n < |l| {
      Oldest(ring, l, n);
    } else {
      SlotOf(n, i);
      InSlot(ring, l, n - TAIL + i);
    }
  }

  lemma InSlot(ring: Text, l: Text, j: nat)
    requires RingHolds(ring, l) && |l| <= j + TAIL && j < |l|
    ensures ring[j % TAIL] == l[j]
  {
  }

  lemma Oldest(ring: Text, l: Text, n: nat)
    requires RingHolds(ring, l) && n + 1 == |l|
    ensures ring[(n % TAIL + 0) % TAIL] == l[n]
  {
    SlotWraps(n % TAIL);
  }

  // ------------------------------------------------------------ scanning one line

  lemma {:induction false} SnocFacts(l: Text, ch: byte)
    ensures IsBlank(l + [ch]) <==> IsBlank(l) && (Blank(ch) || ch == CR)
    ensures Indent(l + [ch]) == if Indent(l) == |l| && Blank(ch) then Indent(l) + 1 else Indent(l)
    ensures Columns(l + [ch]) == Columns(l) + if Indent(l) == |l| && Blank(ch) then (if ch == TAB then 4 else 1) else 0
  {
    if l == [] {
      assert [ch][1..] == [] && l + [ch] == [ch];
    } else {
      assert (l + [ch])[1..] == l[1..] + [ch];
      SnocFacts(l[1..], ch);
    }
  }

  /** The running totals of `mm_scan_line` while it reads. */
  datatype Tally = Tally(head: Text, len: nat, indent: nat, columns: nat, blank: bool)

  ghost predicate Tallied(t: Tally, l: Text) {
    t.head == (if |l| < HEAD then l else l[..HEAD]) && t.len == |l| && t.indent == Indent(l) &&
    t.columns == Columns(l) && t.blank == IsBlank(l)
  }

  method Count(t: Tally, ch: byte, ghost l: Text) returns (next: Tally)
    requires Tallied(t, l)
    ensures Tallied(next, l + [ch])
  {
    SnocFacts(l, ch);
    next := t;
    if t.len == t.indent && (ch == SPACE || ch == TAB) {
      next := next.(indent := t.indent + 1, columns := t.columns + if ch == TAB then 4 else 1);
    }
    if ch != SPACE && ch != TAB && ch != CR {
      next := next.(blank := false);
    }
    if |t.head| < HEAD {
      next := next.(head := t.head + [ch]);
    }
    next := next.(len := t.len + 1);
  }

  /** The reading loop of `mm_scan_line`: up to and past the line end. */
  method Gather(c: Cursor, ring: array<byte>) returns (any: bool, t: Tally, ghost l: Text)
    requires c.Valid() && ring.Length == TAIL && ring != c.buf
    modifies c, c.buf, ring
    ensures c.Valid() && (any <==> old(c.Rest()) != [])
    ensures any ==> (var u := old(c.Rest());
      l == u[..LineEnd(u)] && c.Rest() == if |l| < |u| then u[|l| + 1..] else [])
    ensures !any ==> l == []
    ensures Tallied(t, l) && RingHolds(ring[..], l)
  {
    hide LineEnd, Tallied, RingHolds, Reading, Cursor.Valid, Cursor.Rest;
    ghost var u := c.Rest();
    l := [];
    any, t := false, Tally([], 0, 0, 0, true);
    Nothing(t, ring[..]);
    ReadsNothing(u);
    var open := true;
    while open
      invariant c.Valid() && Reading(u, l, c.Rest(), open, any) && Tallied(t, l) && RingHolds(ring[..], l)
      decreases |c.Rest()|, open
    {
      ghost var rest := c.Rest();
      var ch := c.Next();
      if ch.None? {
        ReadsEnd(u, l, any);
        open := false;
      } else {
        FirstAndRest(rest);
        if ch.value == LF {
          ReadsBreak(u, l, c.Rest(), any);
          any, open := true, false;
        } else {
          ReadsByte(u, l, ch.value, c.Rest(), any);
          any := true;
          RingStep(ring[..], l, ch.value);
          TalliedLen(t, l);
          Store(ring, t.len % TAIL, ch.value);
          t := Count(t, ch.value, l);
          l := l + [ch.value];
        }
      }
    }
    if any {
      ReadsLine(u, l, c.Rest());
    } else {
      ReadsNone(u, l, c.Rest());
    }
  }

  lemma TalliedLen(t: Tally, l: Text)
    requires Tallied(t, l)
    ensures t.len == |l|
  {
  }

  lemma Nothing(t: Tally, ring: Text)
    requires t == Tally([], 0, 0, 0, true) && |ring| == TAIL
    ensures Tallied(t, []) && RingHolds(ring, [])
  {
  }

  /** A trailing carriage return steps the ring back by one slot. */
  method DropReturn(t: Tally, ring: array<byte>, ghost l: Text) returns (len: nat, at: nat)
    requires ring.Length == TAIL && t.len == |l| && RingHolds(ring[..], l)
    ensures len == |DropCr(l)| && at == len % TAIL
  {
    hide RingHolds;
    len, at := t.len, t.len % TAIL;
    SlotWraps(|l|);
    if len > 0 {
      LastIs(ring[..], l);
      if ring[(at + TAIL - 1) % TAIL] == CR {
        len := len - 1;
        at := if at == 0 then TAIL - 1 else at - 1;
      }
    }
  }

  /** The end of `mm_scan_line`: the carriage return dropped, the ring linearised. */
  method Finish(t: Tally, ring: array<byte>, ghost l: Text) returns (info: LineInfo)
    requires ring.Length == TAIL && Tallied(t, l) && RingHolds(ring[..], l)
    ensures info == Info(l)
  {
    hide Tail, RingHolds, DropCr;
    var len, at := DropReturn(t, ring, l);
    var head := if |t.head| > len then t.head[..len] else t.head;
    var tail := Linearise(ring, len, at);
    Linearised(ring[..], l, tail);
    HeadOf(l, head, t.head, len);
    info := LineInfo(tail, head, len, t.indent, if t.blank then 0 else t.columns, t.blank);
  }

  lemma LastIs(ring: Text, l: Text)
    requires RingHolds(ring, l) && l != []
    ensures ring[(|l| - 1) % TAIL] == l[|l| - 1]
  {
  }

  lemma HeadOf(l: Text, head: Text, was: Text, len: nat)
    requires was == (if |l| < HEAD then l else l[..HEAD]) && len == |DropCr(l)|
    requires head == if |was| > len then was[..len] else was
    ensures var d := DropCr(l); head == if |d| < HEAD then d else d[..HEAD]
  {
  }

  method Linearise(ring: array<byte>, len: nat, at: nat) returns (tail: Text)
    requires ring.Length == TAIL && at < TAIL
    ensures |tail| == if len <= TAIL then len else TAIL
    ensures forall i :: 0 <= i < |tail| ==> tail[i] == if len <= TAIL then ring[i] else ring[(at + i) % TAIL]
  {
    tail := [];
    var n := if len <= TAIL then len else TAIL;
    for k := 0 to n
      invariant |tail| == k
      invariant forall i :: 0 <= i < k ==> tail[i] == if len <= TAIL then ring[i] else ring[(at + i) % TAIL]
    {
      tail := tail + [if len <= TAIL then ring[k] else ring[(at + k) % TAIL]];
    }
  }

  /** `mm_scan_line`. */
  method ScanLine(c: Cursor) returns (info: Option<LineInfo>)
    requires c.Valid()
    modifies c, c.buf
    ensures c.Valid()
    ensures var u := old(c.Rest());
      if u == [] then info == None
      else info == Some(Info(u[..LineEnd(u)])) && c.Rest() == if LineEnd(u) < |u| then u[LineEnd(u) + 1..] else []
  {
    hide LineEnd, Tallied, RingHolds, Info;
    var ring := new byte[TAIL];
    var any, t;
    ghost var l;
    any, t, l := Gather(c, ring);
    if !any {
      return None;
    }
    var i := Finish(t, ring, l);
    info := Some(i);
  }

  // ------------------------------------------------------------ the anchor of a text

  predicate IdByte(c: byte) {
    0x41 <= c <= 0x5A || 0x61 <= c <= 0x7A || IsDigit(c) || c == 0x2E || c == 0x5F || c == 0x2D
  }

  /** The end of `t[..n]` without trailing blanks. */
  ghost function TrimTo(t: Text, n: nat): (r: nat)
    requires n <= |t|
    ensures r <= n && (r > 0 ==> !Blank(t[r - 1]))
  {
    if n > 0 && Blank(t[n - 1]) then TrimTo(t, n - 1) else n
  }

  /** Where the hashes that end `t[..n]` start. */
  ghost function HashesTo(t: Text, n: nat): (r: nat)
    requires n <= |t|
    ensures r <= n && (r < n ==> t[n - 1] == HASH)
    ensures r > 0 ==> t[r - 1] != HASH
  {
    if n > 0 && t[n - 1] == HASH then HashesTo(t, n - 1) else n
  }

  /** The end of a heading's text: trailing blanks and an ATX closing sequence are not part of it. */
  ghost function TextEnd(t: Text): (n: nat)
    ensures n <= |t|
  {
    var e := TrimTo(t, |t|);
    var h := HashesTo(t, e);
    if h < e && (h == 0 || Blank(t[h - 1])) then TrimTo(t, h) else e
  }

  /** Back over an id to the hash in front of it. */
  ghost function IdStart(t: Text, open: nat): (r: Option<nat>)
    requires open <= |t|
    ensures r.Some? ==> 0 < r.value <= open && t[r.value - 1] == HASH
  {
    if open == 0 then None
    else if t[open - 1] == HASH then Some(open)
    else if IdByte(t[open - 1]) then IdStart(t, open - 1)
    else None
  }

  /** Where the id of a text's trailing `{#id}` starts and ends. */
  ghost function AnchorAt(t: Text): (r: Option<(nat, nat)>)
    ensures r.Some? ==> 2 <= r.value.0 < r.value.1 < |t|
  {
    var n := TextEnd(t);
    if n < 4 || t[n - 1] != CLOSE then None
    else
      var o := IdStart(t, n - 1);
      if o.None? || o.value < 2 || t[o.value - 2] != OPEN || o.value == n - 1 then None
      else Some((o.value, n - 1))
  }

  ghost function AnchorOf(t: Text): Option<Text> {
    var a := AnchorAt(t);
    if a.None? then None else Some(t[a.value.0..a.value.1])
  }

  // ------------------------------------------------------------ a tail is enough

  function Minus(n: nat, k: nat): nat {
    if n >= k then n - k else 0
  }

  lemma {:induction false} TrimSuffix(t: Text, k: nat, n: nat)
    requires k <= n <= |t|
    ensures TrimTo(t[k..], n - k) == Minus(TrimTo(t, n), k)
    decreases n
  {
    if n > k && Blank(t[n - 1]) { TrimSuffix(t, k, n - 1); }
  }

  lemma {:induction false} HashesSuffix(t: Text, k: nat, n: nat)
    requires k <= n <= |t|
    ensures HashesTo(t[k..], n - k) == Minus(HashesTo(t, n), k)
    decreases n
  {
    if n > k && t[n - 1] == HASH { HashesSuffix(t, k, n - 1); }
  }

  lemma {:induction false} IdSuffix(t: Text, k: nat, open: nat)
    requires k <= open <= |t|
    ensures IdStart(t[k..], open - k) ==
      if IdStart(t, open).Some? && IdStart(t, open).value > k then Some((IdStart(t, open).value - k) as nat) else None
    decreases open
  {
    if open > k && t[open - 1] != HASH && IdByte(t[open - 1]) { IdSuffix(t, k, open - 1); }
  }

  lemma EndOfSuffix(t: Text, k: nat)
    requires k <= |t|
    ensures TextEnd(t[k..]) == Minus(TextEnd(t), k) || (TextEnd(t[k..]) == 0 && TextEnd(t) > 0 && t[TextEnd(t) - 1] == HASH)
  {
    hide TrimTo, HashesTo;
    var u := t[k..];
    var e := TrimTo(t, |t|);
    TrimSuffix(t, k, |t|);
    var h := HashesTo(t, e);
    if e > k {
      HashesSuffix(t, k, e);
      if h > k {
        assert u[h - k - 1] == t[h - 1];
        TrimSuffix(t, k, h);
      }
    }
  }

  /** The anchor of a suffix is the anchor of the whole text, if that lies inside the suffix. */
  lemma SuffixAnchor(t: Text, k: nat)
    requires k <= |t|
    ensures AnchorAt(t[k..]) ==
      if AnchorAt(t).Some? && AnchorAt(t).value.0 >= k + 2
      then Some(((AnchorAt(t).value.0 - k) as nat, (AnchorAt(t).value.1 - k) as nat)) else None
  {
    hide TextEnd, IdStart;
    var u, n := t[k..], TextEnd(t);
    EndOfSuffix(t, k);
    if n > k {
      IdSuffix(t, k, n - 1);
      var o := IdStart(t, n - 1);
      if o.Some? && o.value >= k + 2 { assert u[o.value - k - 2] == t[o.value - 2]; }
      assert u[n - k - 1] == t[n - 1];
    }
  }

  /** How many of a line's last bytes its tail is sure to hold. */
  function Reach(l: Text): nat {
    if |l| <= TAIL then |DropCr(l)| else if |DropCr(l)| == |l| then TAIL else TAIL - 1
  }

  /** A carriage return in front of a text is no part of an anchor. */
  lemma ReturnInFront(u: Text)
    ensures AnchorOf([CR] + u) == AnchorOf(u)
  {
    hide TextEnd, IdStart;
    var t := [CR] + u;
    assert t[1..] == u;
    SuffixAnchor(t, 1);
    var a := AnchorAt(t);
    if a.Some? {
      assert a.value.0 >= 2;
      if a.value.0 == 2 { FirstIsOpening(t); }
      assert t[a.value.0..a.value.1] == u[a.value.0 - 1..a.value.1 - 1];
    }
  }

  lemma FirstIsOpening(t: Text)
    requires AnchorAt(t).Some?
    ensures AnchorAt(t).value.0 >= 2 && t[AnchorAt(t).value.0 - 2] == OPEN
  {
    hide TextEnd, IdStart;
  }

  /**
   * The anchor found in the tail is the anchor of the whole line, and it is found exactly when all
   * of it lies within the bytes the tail is sure to hold.
   */
  lemma TailAnchor(l: Text)
    ensures var d := DropCr(l);
      AnchorOf(Tail(l)) ==
        if AnchorAt(d).Some? && AnchorAt(d).value.0 >= |d| - Reach(l) + 2 then AnchorOf(d) else None
  {
    hide AnchorAt;
    var d := DropCr(l);
    var k := |d| - Reach(l);
    SuffixAnchor(d, k);
    assert |l| <= TAIL ==> d[k..] == d;
    if |l| > TAIL && |d| < |l| {
      ReturnInFront(d[k..]);
    }
    var a := AnchorAt(d);
    if a.Some? && a.value.0 >= k + 2 {
      assert d[k..][a.value.0 - k..a.value.1 - k] == d[a.value.0..a.value.1];
    }
  }

  lemma TailsDiffer(l: Text)
    requires (l == [] || l[|l| - 1] != CR)
    ensures |l| < TAIL ==> Tail(l + [CR]) == Tail(l)
    ensures |l| >= TAIL ==> (Tail(l + [CR]) == Tail(l) <==> l[|l| - TAIL] == CR)
  {
    var r := l + [CR];
    assert r[..|r| - 1] == l;
    assert DropCr(r) == l && DropCr(l) == l;
    hide DropCr;
    if |l| >= TAIL {
      var k := |l| - TAIL;
      assert |l| == TAIL ==> l[k..] == l;
      assert Tail(l) == l[k..] && Tail(r) == [CR] + l[k + 1..];
      hide Tail;
      HeadsDiffer(l, k);
    }
  }

  lemma HeadsDiffer(l: Text, k: nat)
    requires k < |l|
    ensures [CR] + l[k + 1..] == l[k..] <==> l[k] == CR
  {
    assert l[k..] == [l[k]] + l[k + 1..];
    assert ([CR] + l[k + 1..])[0] == CR && ([l[k]] + l[k + 1..])[0] == l[k];
  }

  /** A CRLF line scans like the LF line exactly when it is shorter than the ring (or begins there with a return). */
  lemma ReturnScansAlike(l: Text)
    requires l == [] || l[|l| - 1] != CR
    ensures Info(l + [CR]) == Info(l) <==> |l| < TAIL || l[|l| - TAIL] == CR
  {
    SnocFacts(l, CR);
    TailsDiffer(l);
    var r := l + [CR];
    assert r[..|r| - 1] == l;
    assert DropCr(r) == l && DropCr(l) == l;
    hide Tail, IsBlank, Indent, Columns, DropCr;
  }

  /** 160 letters do not. */
  lemma LongReturnDiffers()
    ensures Info(Repeat(0x61, TAIL) + [CR]) != Info(Repeat(0x61, TAIL))
  {
    hide Info;
    ReturnScansAlike(Repeat(0x61, TAIL));
  }
}
