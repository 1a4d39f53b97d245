/**
 * The reader object of micro/src/index.c: a one-pass index in a caller-owned arena, fixed-size
 * entries growing up from the front and NUL-terminated names growing down from the back.
 */
module Index {
  import opened Bytes
  import opened UstarFormat
  import opened Ustar

  const ENTRY_SIZE: nat := 24
  const ALIGN: nat := 8
  const WINDOW: nat := 64
  const ARENA_OVERHEAD: nat := 128

  // ------------------------------------------------------------ words in memory

  /** A 64-bit field in memory order. */
  function Word(v: nat, n: nat): (r: seq<byte>)
    ensures |r| == n
  {
    if n == 0 then [] else [v % 256] + Word(v / 256, n - 1)
  }

  function WordValue(s: seq<byte>): (v: nat) {
    if s == [] then 0 else s[0] as nat + 256 * WordValue(s[1..])
  }

  predicate FitsWord(v: nat, n: nat) {
    if n == 0 then v == 0 else FitsWord(v / 256, n - 1)
  }

  lemma {:induction false} WordRoundTrip(v: nat, n: nat)
    requires FitsWord(v, n)
    ensures WordValue(Word(v, n)) == v
  {
    if n > 0 {
      WordRoundTrip(v / 256, n - 1);
      assert Word(v, n)[1..] == Word(v / 256, n - 1);
    }
  }

  lemma Fits64(v: nat)
    requires v < 0x1_0000_0000_0000_0000
    ensures FitsWord(v, 8)
  {
    Fits32(v / 0x1_0000_0000);
    Low32(v, v / 256, v / 0x10000, v / 0x1000000);
  }

  lemma Low32(v: nat, v1: nat, v2: nat, v3: nat)
    requires v1 == v / 256 && v2 == v / 0x10000 && v3 == v / 0x1000000
    requires FitsWord(v / 0x1_0000_0000, 4)
    ensures FitsWord(v, 8)
  {
    assert v1 / 256 == v2 && v2 / 256 == v3 && v3 / 256 == v / 0x1_0000_0000;
    assert FitsWord(v3, 5);
    assert FitsWord(v2, 6);
    assert FitsWord(v1, 7);
  }

  lemma Fits32(v: nat)
    requires v < 0x1_0000_0000
    ensures FitsWord(v, 4)
  {
    assert FitsWord(v / 0x1000000, 1);
    assert v / 0x10000 / 256 == v / 0x1000000 && FitsWord(v / 0x10000, 2);
    assert v / 256 / 256 == v / 0x10000 && FitsWord(v / 256, 3);
  }

  /** The three fields of a `struct mm_entry`. */
  function EntryBytes(x: Indexed, name: nat): (r: seq<byte>)
    ensures |r| == ENTRY_SIZE
  {
    Word(x.off, 8) + Word(x.size, 8) + Word(name, 8)
  }

  // ------------------------------------------------------------ how much an index needs

  ghost function PathBytes(index: seq<Indexed>): nat {
    if index == [] then 0 else PathBytes(index[..|index| - 1]) + |index[|index| - 1].path| + 1
  }

  function AlignUp(n: nat): (r: nat)
    ensures n <= r < n + ALIGN && r % ALIGN == 0
  {
    var rem := n % ALIGN;
    if rem == 0 then n else n + (ALIGN - rem)
  }

  ghost function Needed(header: nat, index: seq<Indexed>): nat {
    header + ENTRY_SIZE * |index| + PathBytes(index)
  }

  lemma {:induction false} NeededGrows(header: nat, a: seq<Indexed>, b: seq<Indexed>)
    ensures Needed(header, a) <= Needed(header, a + b)
    decreases |b|
  {
    if b == [] {
      assert a + b == a;
    } else {
      var init, last := b[..|b| - 1], b[|b| - 1];
      NeededGrows(header, a, init);
      assert (a + b)[..|a + b| - 1] == a + init;
    }
  }

  /** The index fits behind the reader object in an arena of that length and alignment. */
  ghost predicate Fits(index: seq<Indexed>, length: nat, misaligned: nat, readerSize: nat) {
    var adjust := (ALIGN - misaligned) % ALIGN;
    length > adjust && Needed(AlignUp(readerSize), index) <= length - adjust
  }

  /** The published `MCDF_MICRO_ARENA_SIZE(members, paths)` is enough at any alignment. */
  lemma ArenaSizeSuffices(index: seq<Indexed>, members: nat, paths: nat, misaligned: nat, readerSize: nat)
    requires |index| <= members && PathBytes(index) <= paths && misaligned < ALIGN
    requires readerSize + 2 * ALIGN <= ARENA_OVERHEAD
    ensures Fits(index, ARENA_OVERHEAD + members * ENTRY_SIZE + paths, misaligned, readerSize)
  {
  }

  // ------------------------------------------------------------ the reader

  /** Slot `i` of the entry table holds `x`, and its name is intact at `name`. */
  ghost predicate Holds(mem: seq<byte>, slot: nat, x: Indexed, name: nat) {
    slot + ENTRY_SIZE <= |mem| && name + |x.path| + 1 <= |mem| &&
    mem[slot..slot + ENTRY_SIZE] == EntryBytes(x, name) &&
    mem[name..name + |x.path|] == x.path && mem[name + |x.path|] == 0
  }

  /** Memory that keeps the bytes of a slot and of its name keeps the entry. */
  lemma HoldsFrame(mem: seq<byte>, mem': seq<byte>, slot: nat, x: Indexed, name: nat, head: nat, tail: nat)
    requires Holds(mem, slot, x, name) && |mem'| == |mem| && head <= tail <= |mem|
    requires slot + ENTRY_SIZE <= head && tail <= name
    requires mem'[..head] == mem[..head] && mem'[tail..] == mem[tail..]
    ensures Holds(mem', slot, x, name)
  {
    assert mem'[slot..slot + ENTRY_SIZE] == mem'[..head][slot..slot + ENTRY_SIZE];
    assert mem[slot..slot + ENTRY_SIZE] == mem[..head][slot..slot + ENTRY_SIZE];
    var n, k := name - tail, |x.path|;
    SliceOfRest(mem', tail, n, n + k);
    SliceOfRest(mem, tail, n, n + k);
    assert mem'[name + k] == mem'[tail..][n + k] == mem[tail..][n + k];
  }

  /** Every entry of the index is in its slot, and its name is intact at or above `tail`. */
  ghost predicate AllHold(mem: seq<byte>, table: nat, index: seq<Indexed>, names: seq<nat>, tail: nat) {
    |names| == |index| &&
    forall i :: 0 <= i < |index| ==> tail <= names[i] && Holds(mem, table + ENTRY_SIZE * i, index[i], names[i])
  }

  /** A push writes the next slot and the next name, and disturbs nothing else. */
  lemma AllHoldPush(was: seq<byte>, named: seq<byte>, mem: seq<byte>, table: nat, index: seq<Indexed>, names: seq<nat>,
                    tail: nat, at: nat, x: Indexed)
    requires AllHold(was, table, index, names, tail) && |was| == |named| == |mem|
    requires var head := table + ENTRY_SIZE * |index|;
      head + ENTRY_SIZE <= at && at + |x.path| + 1 == tail <= |was| &&
      named[..at] == was[..at] && named[at..tail] == x.path + [0] && named[tail..] == was[tail..] &&
      mem[..head] == named[..head] && mem[head..head + ENTRY_SIZE] == EntryBytes(x, at) &&
      mem[head + ENTRY_SIZE..] == named[head + ENTRY_SIZE..]
    ensures AllHold(mem, table, index + [x], names + [at], at)
  {
    var head := table + ENTRY_SIZE * |index|;
    hide Holds;
    Kept(was, named, mem, head, tail, at, x.path + [0], EntryBytes(x, at));
    forall i | 0 <= i < |index| ensures Holds(mem, table + ENTRY_SIZE * i, index[i], names[i]) {
      HoldsFrame(was, mem, table + ENTRY_SIZE * i, index[i], names[i], head, tail);
    }
    NewHolds(mem, head, x, at);
  }

  lemma NewHolds(mem: seq<byte>, slot: nat, x: Indexed, at: nat)
    requires slot + ENTRY_SIZE <= |mem| && at + |x.path| + 1 <= |mem|
    requires mem[slot..slot + ENTRY_SIZE] == EntryBytes(x, at) && mem[at..at + |x.path| + 1] == x.path + [0]
    ensures Holds(mem, slot, x, at)
  {
    var name := mem[at..at + |x.path| + 1];
    assert mem[at..at + |x.path|] == name[..|x.path|];
    assert mem[at + |x.path|] == name[|x.path|];
  }

  /** The first member with a path, from entry `i` on. */
  ghost function FirstWith(index: seq<Indexed>, path: Path, i: nat): (r: Option<nat>)
    requires i <= |index|
    ensures r.Some? ==> i <= r.value < |index| && index[r.value].path == path
    ensures forall k :: i <= k < (if r.Some? then r.value else |index|) ==> index[k].path != path
    decreases |index| - i
  {
    if i == |index| then None
    else if index[i].path == path then Some(i)
    else FirstWith(index, path, i + 1)
  }

  /** One byte stored inside a range. */
  lemma OneStored(m: seq<byte>, n: seq<byte>, at: nat, i: nat, data: seq<byte>)
    requires i < |data| && at + |data| <= |m| && n == m[at + i := data[i]] && m[at..at + i] == data[..i]
    ensures n[..at] == m[..at] && n[at..at + i + 1] == data[..i + 1] && n[at + |data|..] == m[at + |data|..]
  {
    assert n[at..at + i + 1] == m[at..at + i] + [data[i]];
    assert data[..i + 1] == data[..i] + [data[i]];
  }

  class Reader {
    const src: seq<byte>
    const arena: array<byte>
    /** Where the aligned part of the arena starts, and where its entry table starts within it. */
    const base: nat
    const table: nat
    var head: nat
    var tail: nat
    var count: nat
    ghost var index: seq<Indexed>
    ghost var names: seq<nat>

    ghost function Mem(): seq<byte>
      requires base <= arena.Length
      reads arena
    {
      arena[base..]
    }

    /** Entries and names never overlap, every entry is readable and every stored name is intact. */
    ghost predicate Valid()
      reads this, arena
    {
      base <= arena.Length < 0x1_0000_0000_0000_0000 && |src| < 0x1_0000_0000_0000_0000 &&
      count == |index| == |names| && head == table + ENTRY_SIZE * count &&
      head <= tail <= arena.Length - base && tail + PathBytes(index) == arena.Length - base &&
      InSource(src, index) && AllHold(Mem(), table, index, names, tail)
    }

    constructor (src: seq<byte>, arena: array<byte>, base: nat, table: nat)
      requires base + table <= arena.Length < 0x1_0000_0000_0000_0000 && |src| < 0x1_0000_0000_0000_0000
      ensures Valid() && index == [] && this.src == src && this.arena == arena
      ensures this.base == base && this.table == table
    {
      this.src, this.arena, this.base, this.table := src, arena, base, table;
      head, tail, count, index, names := table, arena.Length - base, 0, [], [];
    }

    /** `memcpy` into the arena. */
    method Store(at: nat, data: seq<byte>)
      requires base <= arena.Length && at + |data| <= arena.Length - base
      modifies arena
      ensures Mem()[..at] == old(Mem())[..at]
      ensures Mem()[at..at + |data|] == data
      ensures Mem()[at + |data|..] == old(Mem())[at + |data|..]
    {
      ghost var was := Mem();
      for i := 0 to |data|
        invariant Mem()[..at] == was[..at] && Mem()[at..at + i] == data[..i]
        invariant Mem()[at + |data|..] == was[at + |data|..]
      {
        ghost var m := Mem();
        arena[base + at + i] := data[i];
        assert Mem() == m[at + i := data[i]];
        OneStored(m, Mem(), at, i, data);
      }
      assert data[..|data|] == data;
    }

    /** `mm_push`: one more member in the index, or E_ARENA with nothing changed. */
    method Push(path: Path, size: nat, off: nat) returns (st: Status)
      requires Valid() && path != [] && 0 !in path && off + size <= |src|
      modifies this, arena
      ensures Valid()
      ensures index == old(index) + if st == OK then [Indexed(path, off, size)] else []
      ensures st == if Needed(table, old(index) + [Indexed(path, off, size)]) <= arena.Length - base
        then OK else E_ARENA
    {
      var x := Indexed(path, off, size);
      hide AllHold, EntryBytes;
      assert (index + [x])[..|index|] == index;
      var needTail := |path| + 1;
      if tail < needTail || head + ENTRY_SIZE > tail - needTail {
        return E_ARENA;
      }
      ghost var was, t := Mem(), tail;
      tail := tail - needTail;
      Store(tail, path + [0]);
      ghost var named := Mem();
      Store(head, EntryBytes(x, tail));
      AllHoldPush(was, named, Mem(), table, index, names, t, tail, x);
      head := head + ENTRY_SIZE;
      count := count + 1;
      index, names := index + [x], names + [tail];
      st := OK;
    }

    /** The header walk of `mcdf_micro_open`. */
    method Scan() returns (st: Status)
      requires Valid() && index == [] && |src| % BLOCK == 0
      modifies this, arena
      ensures Valid()
      ensures st == if Needed(table, Walk(src, 0).index) <= arena.Length - base then Walk(src, 0).status else E_ARENA
      ensures st == OK ==> index == Walk(src, 0).index
    {
      hide StrictHeader, RoundUp, Walk, Needed, Valid, Scanned;
      ghost var all := Walk(src, 0);
      var pos, sawEnd := 0, false;
      ScanStart(src);
      EmptyFits();
      while pos + BLOCK <= |src|
        invariant Valid() && pos % BLOCK == 0 && pos <= |src| && Scanned(src, pos, index, all)
        invariant Needed(table, index) <= arena.Length - base
        decreases |src| - pos
      {
        var h := ParseHeader(src[pos..pos + BLOCK]);
        ScanStep(src, pos, index, all);
        if h.Bad? {
          return E_PARSE;
        }
        if h.End? {
          sawEnd := true;
          break;
        }
        var at := pos + BLOCK;
        if h.size > |src| - at {
          return E_PARSE;
        }
        if h.regular {
          ScanNeeds(src, at + RoundUp(h.size), index + [Indexed(h.path, at, h.size)], all, table);
          HeaderPath(src[pos..pos + BLOCK]);
          st := Push(h.path, h.size, at);
          if st != OK {
            return st;
          }
        }
        WithinBlocks(|src|, at, h.size);
        pos := at + RoundUp(h.size);
      }
      if !sawEnd {
        ScanEnds(src, pos, index, all);
        return E_PARSE;
      }
      st := OK;
    }

    /** An empty index fits. */
    lemma EmptyFits()
      requires Valid() && index == []
      ensures Needed(table, index) <= arena.Length - base
    {
    }

    /** Loads a 64-bit field of an entry. */
    method Load(at: nat) returns (v: nat)
      requires base <= arena.Length && at + 8 <= arena.Length - base
      ensures v == WordValue(Mem()[at..at + 8])
    {
      v := 0;
      ghost var word := Mem()[at..at + 8];
      for i := 8 downto 0
        invariant v == WordValue(word[i..])
      {
        assert word[i..][1..] == word[i + 1..];
        v := arena[base + at + i] as nat + 256 * v;
      }
      assert word[0..] == word;
    }

    /** `mm_streq` of a stored name and a path. */
    method NameIs(name: nat, ghost stored: Path, path: Path) returns (eq: bool)
      requires base <= arena.Length && name + |stored| + 1 <= arena.Length - base
      requires Mem()[name..name + |stored|] == stored && Mem()[name + |stored|] == 0
      requires 0 !in stored && 0 !in path
      ensures eq <==> stored == path
    {
      var i := 0;
      assert forall k :: 0 <= k < |stored| ==> arena[base + name + k] == stored[k];
      assert arena[base + name + |stored|] == 0;
      while i < |path| && arena[base + name + i] == path[i]
        invariant i <= |stored| && i <= |path| && stored[..i] == path[..i]
      {
        assert path[i] in path;
        i := i + 1;
      }
      eq := i == |path| && arena[base + name + i] == 0;
      if i < |stored| { assert stored[i] in stored; }
    }

    /** The name offset and the ranges of entry `i`, read back from arena memory. */
    method LoadEntry(i: nat) returns (off: nat, size: nat, name: nat)
      requires Valid() && i < count
      ensures off == index[i].off && size == index[i].size && name == names[i]
    {
      var slot := table + ENTRY_SIZE * i;
      EntryParts(Mem(), slot, index[i], names[i], |src|, arena.Length);
      off := Load(slot);
      size := Load(slot + 8);
      name := Load(slot + 16);
    }

    /** Whether entry `i` has that path. */
    method EntryIs(i: nat, path: Path) returns (eq: bool)
      requires Valid() && i < count && 0 !in path
      ensures eq <==> index[i].path == path
    {
      var off, size, name := LoadEntry(i);
      eq := NameIs(name, index[i].path, path);
    }

    /** `mm_find`: the first member with that path. */
    method Find(path: Path) returns (found: Option<nat>)
      requires Valid() && 0 !in path
      ensures found == FirstWith(index, path, 0)
    {
      hide Valid;
      var n := Count();
      for i := 0 to n
        invariant FirstWith(index, path, 0) == FirstWith(index, path, i)
      {
        var eq := EntryIs(i, path);
        if eq {
          return Some(i);
        }
      }
      found := None;
    }

    /** `mcdf_micro_count`. */
    method Count() returns (n: nat)
      requires Valid()
      ensures n == |index| == count
    {
      n := count;
    }

    /** `mcdf_micro_read_at`: bytes of a member, never past its end. */
    method ReadAt(path: Path, off: nat, len: nat) returns (st: Status, data: seq<byte>)
      requires Valid() && 0 !in path
      ensures st == match FirstWith(index, path, 0)
        case None => E_NOT_FOUND
        case Some(i) => if off + len <= index[i].size then OK else E_RANGE
      ensures st == OK ==> data == Contents(src, index)[FirstWith(index, path, 0).value].data[off..off + len]
    {
      hide AllHold, PathBytes;
      var found := Find(path);
      if found.None? {
        return E_NOT_FOUND, [];
      }
      var at, size, name := LoadEntry(found.value);
      if off > size || len > size - off {
        return E_RANGE, [];
      }
      ghost var x := index[found.value];
      SliceOfSlice(src, x.off, x.off + x.size, off, off + len);
      return OK, src[at + off..at + off + len];
    }
  }

  lemma EntryParts(mem: seq<byte>, slot: nat, x: Indexed, name: nat, srcLen: nat, arenaLen: nat)
    requires Holds(mem, slot, x, name) && x.off + x.size <= srcLen < 0x1_0000_0000_0000_0000
    requires name < arenaLen < 0x1_0000_0000_0000_0000
    ensures WordValue(mem[slot..slot + 8]) == x.off
    ensures WordValue(mem[slot + 8..slot + 16]) == x.size
    ensures WordValue(mem[slot + 16..slot + 24]) == name
  {
    hide Word, WordValue;
    var e := mem[slot..slot + ENTRY_SIZE];
    assert mem[slot..slot + 8] == e[..8] == Word(x.off, 8);
    assert mem[slot + 8..slot + 16] == e[8..16] == Word(x.size, 8);
    assert mem[slot + 16..slot + 24] == e[16..24] == Word(name, 8);
    Fits64(x.off);
    Fits64(x.size);
    Fits64(name);
    WordRoundTrip(x.off, 8);
    WordRoundTrip(x.size, 8);
    WordRoundTrip(name, 8);
  }

  /** What the two writes of a push leave alone, and what they leave behind. */
  lemma Kept(was: seq<byte>, named: seq<byte>, mem: seq<byte>, head: nat, tail: nat, at: nat, name: seq<byte>, entry: seq<byte>)
    requires |was| == |named| == |mem| && head + |entry| <= at && at + |name| == tail <= |was|
    requires named[..at] == was[..at] && named[at..tail] == name && named[tail..] == was[tail..]
    requires mem[..head] == named[..head] && mem[head..head + |entry|] == entry
    requires mem[head + |entry|..] == named[head + |entry|..]
    ensures mem[..head] == was[..head] && mem[tail..] == was[tail..] && mem[at..tail] == name
  {
    var e := head + |entry|;
    assert mem[..head] == named[..at][..head] == was[..at][..head];
    assert mem[at..tail] == mem[e..][at - e..tail - e] == named[e..][at - e..tail - e];
    assert mem[tail..] == mem[e..][tail - e..] == named[e..][tail - e..];
  }

  // ------------------------------------------------------------ opening

  /**
   * `mcdf_micro_open`: the index of the reference walk, or E_ARENA exactly when the whole index
   * with its names would not fit behind the aligned reader object.
   */
  method Open(src: seq<byte>, arena: array<byte>, misaligned: nat, readerSize: nat)
    returns (st: Status, r: Reader?)
    requires misaligned < ALIGN && arena.Length < 0x1_0000_0000_0000_0000 && |src| < 0x1_0000_0000_0000_0000
    modifies arena
    ensures st == OK <==> r != null
    ensures r != null ==> fresh(r) && r.Valid() && r.src == src && r.index == Opened(src).index
    ensures st ==
      if |src| < 2 * BLOCK || |src| % BLOCK != 0 then E_PARSE
      else if Fits(Opened(src).index, arena.Length, misaligned, readerSize) then Opened(src).status
      else E_ARENA
  {
    hide Walk, Reader.Valid;
    if |src| < 2 * BLOCK || |src| % BLOCK != 0 {
      return E_PARSE, null;
    }
    var adjust := if misaligned != 0 then ALIGN - misaligned else 0;
    if arena.Length <= adjust {
      return E_ARENA, null;
    }
    var header := AlignUp(readerSize);
    NeededGrows(header, [], Opened(src).index);
    assert [] + Opened(src).index == Opened(src).index;
    if arena.Length - adjust < header {
      return E_ARENA, null;
    }
    var reader := new Reader(src, arena, adjust, header);
    st := reader.Scan();
    r := if st == OK then reader else null;
  }

  /** `index` is what the walk has found before `pos`. */
  ghost predicate Scanned(a: seq<byte>, pos: nat, index: seq<Indexed>, all: Walked) {
    all == Walked(Walk(a, pos).status, index + Walk(a, pos).index)
  }

  lemma ScanStart(a: seq<byte>)
    ensures Scanned(a, 0, [], Walk(a, 0))
  {
    hide Walk;
    assert [] + Walk(a, 0).index == Walk(a, 0).index;
  }

  lemma ScanEnds(a: seq<byte>, pos: nat, index: seq<Indexed>, all: Walked)
    requires Scanned(a, pos, index, all) && pos + BLOCK > |a|
    ensures all == Walked(E_PARSE, index)
  {
    assert index + [] == index;
  }

  /** One header of the walk: it stops here, or it goes on with one more member or none. */
  lemma ScanStep(a: seq<byte>, pos: nat, index: seq<Indexed>, all: Walked)
    requires Scanned(a, pos, index, all) && pos + BLOCK <= |a|
    ensures var h := StrictHeader(a[pos..pos + BLOCK]);
      var at := pos + BLOCK;
      if h.End? then all == Walked(OK, index)
      else if h.Bad? || h.size > |a| - at then all == Walked(E_PARSE, index)
      else Scanned(a, at + RoundUp(h.size), if h.regular then index + [Indexed(h.path, at, h.size)] else index, all)
  {
    hide StrictHeader, RoundUp;
    var h := StrictHeader(a[pos..pos + BLOCK]);
    assert index + [] == index;
    if h.Entry? {
      var rest := Walk(a, pos + BLOCK + RoundUp(h.size));
      hide Walk;
      WalkUnfold(a, pos, h, rest);
      var x := Indexed(h.path, pos + BLOCK, h.size);
      assert index + ([x] + rest.index) == (index + [x]) + rest.index;
    }
  }

  lemma ScanNeeds(a: seq<byte>, pos: nat, index: seq<Indexed>, all: Walked, header: nat)
    requires Scanned(a, pos, index, all)
    ensures Needed(header, index) <= Needed(header, all.index)
  {
    hide Walk;
    NeededGrows(header, index, Walk(a, pos).index);
  }

  /** Padding a size that fits cannot leave a source of whole blocks. */
  lemma WithinBlocks(len: nat, at: nat, size: nat)
    requires len % BLOCK == 0 && at % BLOCK == 0 && at + size <= len
    ensures at + RoundUp(size) <= len && (at + RoundUp(size)) % BLOCK == 0
  {
  }

  // ------------------------------------------------------------ the cursor

  /** `struct mm_cursor`: one member as a byte stream, read through a 64-byte window. */
  class Cursor {
    const src: seq<byte>
    const start: nat
    const size: nat
    const buf: array<byte>
    var pos: nat
    var have: nat
    var at: nat

    /** The window holds the bytes that come next. */
    ghost predicate Valid()
      reads this, buf
    {
      start + size <= |src| && buf.Length == WINDOW && at <= have <= WINDOW &&
      pos + (have - at) <= size && buf[at..have] == src[start + pos..start + pos + (have - at)]
    }

    /** The member's bytes not handed out yet. */
    ghost function Rest(): seq<byte>
      reads this, buf
      requires Valid()
    {
      src[start + pos..start + size]
    }

    constructor (src: seq<byte>, start: nat, size: nat)
      requires start + size <= |src|
      ensures Valid() && Rest() == src[start..start + size] && fresh(buf)
    {
      this.src, this.start, this.size := src, start, size;
      buf := new byte[WINDOW](_ => 0);
      pos, have, at := 0, 0, 0;
    }

    /** The read callback filling the window with what comes next. */
    method Refill(want: nat)
      requires start + size <= |src| && buf.Length == WINDOW && want <= WINDOW && pos + want <= size
      modifies `have, `at, buf
      ensures have == want && at == 0 && buf[..want] == src[start + pos..start + pos + want]
    {
      var from := start + pos;
      for i := 0 to want
        invariant buf[..i] == src[from..from + i]
      {
        buf[i] := src[from + i];
      }
      have, at := want, 0;
    }

    /** `mm_cursor_next`: the next byte, refilling the window when it is used up. */
    method Next() returns (ch: Option<byte>)
      requires Valid()
      modifies this, buf
      ensures Valid()
      ensures old(Rest()) == [] ==> ch == None && Rest() == []
      ensures old(Rest()) != [] ==> ch == Some(old(Rest())[0]) && Rest() == old(Rest())[1..]
    {
      if pos >= size {
        return None;
      }
      if at >= have {
        var remain := size - pos;
        Refill(if remain < WINDOW then remain else WINDOW);
      }
      assert buf[at] == buf[at..have][0] && buf[at + 1..have] == buf[at..have][1..];
      ch := Some(buf[at]);
      at := at + 1;
      pos := pos + 1;
    }
  }

  /** `mm_cursor_open`: a stream over the first member with that path. */
  method OpenCursor(r: Reader, path: Path) returns (c: Cursor?)
    requires r.Valid() && 0 !in path
    ensures c == null <==> FirstWith(r.index, path, 0).None?
    ensures c != null ==> fresh(c) && fresh(c.buf) && c.Valid()
    ensures c != null ==> c.Rest() == Contents(r.src, r.index)[FirstWith(r.index, path, 0).value].data
  {
    hide AllHold, PathBytes;
    var found := r.Find(path);
    if found.None? {
      return null;
    }
    var at, size, name := r.LoadEntry(found.value);
    c := new Cursor(r.src, at, size);
  }

  /** The bytes of a member, by path. */
  ghost function MemberOf(r: Reader, path: Path): Option<seq<byte>>
    requires r.Valid()
    reads r, r.arena
  {
    match FirstWith(r.index, path, 0)
    case None => None
    case Some(i) => Some(Contents(r.src, r.index)[i].data)
  }
}
