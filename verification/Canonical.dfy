/**
 * The C++ canonical JSON writer (src/serialize/canonical_json.cpp) applied to the manifest the C++
 * engine builds, and its agreement, byte for byte, with the C emitter of micro/host/jcs.c.
 */
module Canonical {
  import opened Bytes
  import opened Json
  import opened Manifest
  import opened Utf16
  import opened Jcs
  import Lex
  import opened UstarFormat

  // ------------------------------------------------------------ the C++ writer

  /** A JSON value as the C++ side holds one. */
  datatype Value =
    | Null
    | Boolean(b: bool)
    | Number(text: Text)
    | Str(s: Text)
    | Arr(items: seq<Value>)
    | Obj(props: seq<Property>)

  datatype Property = Property(key: Text, value: Value)

  /** An object member whose value is already written. */
  datatype Written = Written(key: Text, text: Text)

  ghost function Insert(w: Written, ws: seq<Written>): (r: seq<Written>)
    ensures multiset(r) == multiset(ws) + multiset{w}
  {
    if ws == [] || KeyLess(w.key, ws[0].key) then [w] + ws
    else
      assert ws == [ws[0]] + ws[1..];
      [ws[0]] + Insert(w, ws[1..])
  }

  /** The keys in their order; stands for `std::sort` with `utf16_less`. */
  ghost function Sort(ws: seq<Written>): (r: seq<Written>)
    ensures multiset(r) == multiset(ws)
  {
    if ws == [] then [] else
      assert ws == [ws[0]] + ws[1..];
      Insert(ws[0], Sort(ws[1..]))
  }

  ghost function Join(ws: seq<Written>, first: bool): Text {
    if ws == [] then []
    else (if first then [] else [COMMA]) + Quoted(ws[0].key) + [COLON] + ws[0].text + Join(ws[1..], false)
  }

  /** `write_canonical`. */
  ghost function Canonical(v: Value): Text {
    match v
    case Null => Ascii("null")
    case Boolean(b) => if b then Ascii("true") else Ascii("false")
    case Number(text) => text
    case Str(s) => Quoted(s)
    case Arr(items) => [LBRACKET] + CanonicalItems(items, true) + [RBRACKET]
    case Obj(props) => [OPEN] + Join(Sort(WrittenProps(props)), true) + [CLOSE]
  }

  ghost function CanonicalItems(items: seq<Value>, first: bool): Text {
    if items == [] then []
    else (if first then [] else [COMMA]) + Canonical(items[0]) + CanonicalItems(items[1..], false)
  }

  ghost function WrittenProps(props: seq<Property>): (r: seq<Written>)
    ensures |r| == |props|
  {
    if props == [] then []
    else [Written(props[0].key, Canonical(props[0].value))] + WrittenProps(props[1..])
  }

  ghost predicate SortedWritten(ws: seq<Written>) {
    forall i, j :: 0 <= i < j < |ws| ==> !KeyLess(ws[j].key, ws[i].key)
  }

  lemma {:induction false} SortSorts(ws: seq<Written>)
    ensures SortedWritten(Sort(ws))
  {
    if ws != [] {
      SortSorts(ws[1..]);
      InsertSorts(ws[0], Sort(ws[1..]));
    }
  }

  lemma {:induction false} InsertSorts(w: Written, ws: seq<Written>)
    requires SortedWritten(ws)
    ensures SortedWritten(Insert(w, ws))
    ensures forall x :: x in Insert(w, ws) ==> x == w || x in ws
  {
    hide KeyLess;
    if ws != [] {
      if KeyLess(w.key, ws[0].key) {
        KeyAsymmetric(w.key, ws[0].key);
        forall j | 0 <= j < |ws| ensures !KeyLess(ws[j].key, w.key) {
          NotBelow(w.key, ws[0].key, ws[j].key);
        }
      } else {
        InsertSorts(w, ws[1..]);
        var r := Insert(w, ws[1..]);
        forall j | 0 <= j < |r| ensures !KeyLess(r[j].key, ws[0].key) {
          assert r[j] in r;
          if r[j] != w {
            var k :| 0 <= k < |ws[1..]| && ws[1..][k] == r[j];
            assert ws[k + 1] == r[j];
          }
        }
      }
    }
  }

  /** What is not below the larger of two keys is not below the smaller. */
  lemma NotBelow(small: Text, large: Text, key: Text)
    requires KeyLess(small, large) && (key == large || !KeyLess(key, large))
    ensures !KeyLess(key, small)
  {
    hide KeyLess;
    KeyAsymmetric(small, large);
    if KeyLess(key, small) { KeyTransitive(key, small, large); }
  }

  /** Any two different elements can be told apart by their keys. */
  ghost predicate Separated(ws: seq<Written>) {
    forall x, y :: x in ws && y in ws && x != y ==> KeyLess(x.key, y.key) || KeyLess(y.key, x.key)
  }

  /** There is only one sorted arrangement of distinguishable members. */
  lemma {:induction false} SortedUnique(a: seq<Written>, b: seq<Written>)
    requires SortedWritten(a) && SortedWritten(b) && Separated(b) && multiset(a) == multiset(b)
    ensures a == b
    decreases |a|
  {
    hide KeyLess, SortedWritten, Separated;
    assert |a| == |multiset(a)| == |multiset(b)| == |b|;
    if a != [] {
      SameHead(a, b);
      assert a == [a[0]] + a[1..] && b == [b[0]] + b[1..];
      assert multiset(a[1..]) == multiset(a) - multiset{a[0]} && multiset(b[1..]) == multiset(b) - multiset{b[0]};
      TailsKeep(a, b);
      SortedUnique(a[1..], b[1..]);
    }
  }

  lemma SameHead(a: seq<Written>, b: seq<Written>)
    requires SortedWritten(a) && SortedWritten(b) && Separated(b) && multiset(a) == multiset(b) && a != [] && b != []
    ensures a[0] == b[0]
  {
    hide KeyLess;
    assert a[0] in multiset(b) && b[0] in multiset(a);
    var k :| 0 <= k < |b| && b[k] == a[0];
    var l :| 0 <= l < |a| && a[l] == b[0];
  }

  lemma TailsKeep(a: seq<Written>, b: seq<Written>)
    requires SortedWritten(a) && SortedWritten(b) && Separated(b) && a != [] && b != []
    ensures SortedWritten(a[1..]) && SortedWritten(b[1..]) && Separated(b[1..])
  {
    hide KeyLess;
    forall x, y | x in b[1..] && y in b[1..] && x != y ensures KeyLess(x.key, y.key) || KeyLess(y.key, x.key) {
      assert x in b && y in b;
    }
  }

  // ------------------------------------------------------------ the manifest

  /** The `files` object as `manifest_to_canonical_json` builds it. */
  ghost function FileProps(fs: seq<File>): (r: seq<Property>)
    ensures |r| == |fs|
  {
    if fs == [] then [] else [Property(fs[0].path, Value.Str(fs[0].hash))] + FileProps(fs[1..])
  }

  /** `manifest_to_canonical_json`, with the files in whatever order the manifest holds them. */
  ghost function ManifestValue(fs: seq<File>, version: Text): Value {
    Obj([Property(FILES, Obj(FileProps(fs))), Property(ALGORITHM, Value.Str(SHA256)), Property(VERSION, Value.Str(version))])
  }

  ghost function WrittenFiles(fs: seq<File>): (r: seq<Written>)
    ensures |r| == |fs| && forall i :: 0 <= i < |fs| ==> r[i] == Written(fs[i].path, Quoted(fs[i].hash))
  {
    seq(|fs|, i requires 0 <= i < |fs| => Written(fs[i].path, Quoted(fs[i].hash)))
  }

  lemma {:induction false} PropsWritten(fs: seq<File>)
    ensures WrittenProps(FileProps(fs)) == WrittenFiles(fs)
  {
    hide Quoted;
    if fs != [] {
      PropsWritten(fs[1..]);
      var p := FileProps(fs);
      assert p[1..] == FileProps(fs[1..]);
      assert WrittenFiles(fs) == [Written(fs[0].path, Quoted(fs[0].hash))] + WrittenFiles(fs[1..]);
    }
  }

  lemma {:induction false} JoinIsItems(fs: seq<File>, first: bool)
    ensures Join(WrittenFiles(fs), first) == Items(fs, first)
  {
    hide Quoted;
    if fs != [] {
      var ws := WrittenFiles(fs);
      assert ws[1..] == WrittenFiles(fs[1..]);
      JoinIsItems(fs[1..], false);
      ItemsUnfold(fs, first);
    }
  }

  // ------------------------------------------------------------ one manifest, two writers

  ghost predicate WellFormed(path: Text) {
    exists cs: seq<scalar> :: Utf8(cs) == path
  }

  /** The members both sides can name without ambiguity. */
  ghost predicate Nameable(ms: seq<Member>) {
    && (forall i :: 0 <= i < |ms| ==> WellFormed(ms[i].path))
    && (forall i, j :: 0 <= i < j < |ms| ==> ms[i].path != ms[j].path)
  }

  lemma DifferentPathsCompare(p: Text, q: Text)
    requires WellFormed(p) && WellFormed(q) && p != q
    ensures KeyLess(p, q) || KeyLess(q, p)
  {
    hide KeyLess, Utf8;
    var a: seq<scalar> :| Utf8(a) == p;
    var b: seq<scalar> :| Utf8(b) == q;
    SameKeyOrder(a, b);
  }

  function Apply<A, B>(f: A -> B, s: seq<A>): (r: seq<B>)
    ensures |r| == |s| && forall i :: 0 <= i < |s| ==> r[i] == f(s[i])
  {
    seq(|s|, i requires 0 <= i < |s| => f(s[i]))
  }

  /** Applying a function to every element keeps rearrangements. */
  lemma {:induction false} ApplyPermutes<A, B>(f: A -> B, s: seq<A>, t: seq<A>)
    requires multiset(s) == multiset(t)
    ensures multiset(Apply(f, s)) == multiset(Apply(f, t))
    decreases |s|
  {
    if s == [] {
      assert |t| == |multiset(t)| == |multiset(s)| == 0;
      assert Apply(f, s) == Apply(f, t);
    } else {
      var k := PlaceOf(s, t);
      ApplyPermutes(f, s[..0] + s[1..], t[..k] + t[k + 1..]);
      ApplyWithout(f, s, 0);
      ApplyWithout(f, t, k);
    }
  }

  /** The first element of one arrangement, found and removed in the other. */
  lemma PlaceOf<A>(s: seq<A>, t: seq<A>) returns (k: nat)
    requires s != [] && multiset(s) == multiset(t)
    ensures k < |t| && t[k] == s[0]
    ensures multiset(s[..0] + s[1..]) == multiset(t[..k] + t[k + 1..])
  {
    assert s[0] in multiset(t);
    k :| 0 <= k < |t| && t[k] == s[0];
    Without(s, 0);
    Without(t, k);
    RemoveOne(multiset(s), multiset(s[..0] + s[1..]), multiset(t[..k] + t[k + 1..]), s[0]);
  }

  lemma RemoveOne<A>(all: multiset<A>, m: multiset<A>, n: multiset<A>, x: A)
    requires all == multiset{x} + m && all == multiset{x} + n
    ensures m == n
  {
    assert m == all - multiset{x} && n == all - multiset{x};
  }

  lemma Without<A>(t: seq<A>, k: nat)
    requires k < |t|
    ensures multiset(t) == multiset{t[k]} + multiset(t[..k] + t[k + 1..])
  {
    assert t == t[..k] + ([t[k]] + t[k + 1..]);
  }

  lemma ApplyWithout<A, B>(f: A -> B, t: seq<A>, k: nat)
    requires k < |t|
    ensures multiset(Apply(f, t)) == multiset{f(t[k])} + multiset(Apply(f, t[..k] + t[k + 1..]))
  {
    Without(Apply(f, t), k);
    assert Apply(f, t[..k] + t[k + 1..]) == Apply(f, t)[..k] + Apply(f, t)[k + 1..];
  }

  ghost predicate PathsApart(fs: seq<File>) {
    forall f, g :: f in fs && g in fs && f != g ==> KeyLess(f.path, g.path) || KeyLess(g.path, f.path)
  }

  lemma WrittenApart(fs: seq<File>)
    requires PathsApart(fs)
    ensures Separated(WrittenFiles(fs))
  {
    hide KeyLess, Quoted;
    var ws := WrittenFiles(fs);
    forall x, y | x in ws && y in ws && x != y ensures KeyLess(x.key, y.key) || KeyLess(y.key, x.key) {
      var i :| 0 <= i < |ws| && ws[i] == x;
      var j :| 0 <= j < |ws| && ws[j] == y;
      assert fs[i] in fs && fs[j] in fs;
    }
  }

  ghost predicate SortedFiles(fs: seq<File>) {
    forall i, j :: 0 <= i < j < |fs| ==> !KeyLess(fs[j].path, fs[i].path)
  }

  /** However the C++ manifest holds its files, its canonical text lists them in key order. */
  lemma CanonicalSorts(fs: seq<File>, sorted: seq<File>)
    requires multiset(fs) == multiset(sorted) && SortedFiles(sorted) && PathsApart(sorted)
    ensures Sort(WrittenFiles(fs)) == WrittenFiles(sorted)
  {
    hide KeyLess, Quoted, Sort, PathsApart, Separated;
    var f := (x: File) => Written(x.path, Quoted(x.hash));
    ApplyPermutes(f, fs, sorted);
    assert Apply(f, fs) == WrittenFiles(fs) && Apply(f, sorted) == WrittenFiles(sorted);
    SortSorts(WrittenFiles(fs));
    WrittenApart(sorted);
    SortedUnique(Sort(WrittenFiles(fs)), WrittenFiles(sorted));
  }

  /** An ASCII lead byte is its own first code unit. */
  lemma FirstUnit(p: Text)
    requires p != [] && p[0] < 0x80
    ensures CUnits(p, 0) != [] && CUnits(p, 0)[0] == p[0] as int
  {
    assert CDecode(p, 0) == (p[0] as nat, 1);
  }

  /** files < hash_algorithm < mcdf_version. */
  lemma TopKeys()
    ensures KeyLess(FILES, ALGORITHM) && KeyLess(ALGORITHM, VERSION) && KeyLess(FILES, VERSION)
  {
    hide CUnits;
    FirstUnit(FILES);
    FirstUnit(ALGORITHM);
    FirstUnit(VERSION);
  }

  lemma TopSorted(a: Text, b: Text, c: Text)
    ensures Sort([Written(FILES, a), Written(ALGORITHM, b), Written(VERSION, c)])
      == [Written(FILES, a), Written(ALGORITHM, b), Written(VERSION, c)]
  {
    hide KeyLess, Ascii;
    TopKeys();
    var x, y, z := Written(FILES, a), Written(ALGORITHM, b), Written(VERSION, c);
    assert [x, y, z][1..] == [y, z] && [y, z][1..] == [z] && [z][1..] == [];
    assert Sort([z]) == [z] && Sort([y, z]) == [y, z];
  }

  /** The C++ text of a manifest is the canonical text of its files in key order. */
  lemma CanonicalManifest(fs: seq<File>, sorted: seq<File>, version: Text)
    requires multiset(fs) == multiset(sorted) && SortedFiles(sorted) && PathsApart(sorted)
    ensures Canonical(ManifestValue(fs, version)) == ManifestText(sorted, version)
  {
    hide Quoted, Sort, SortedFiles, PathsApart, Items, Ascii;
    var a := Canonical(Obj(FileProps(fs)));
    PropsWritten(fs);
    CanonicalSorts(fs, sorted);
    JoinIsItems(sorted, true);
    assert a == [OPEN] + Items(sorted, true) + [CLOSE];
    TopSorted(a, Quoted(SHA256), Quoted(version));
    TopProps(fs, version, a);
    TopJoin(a, Quoted(SHA256), Quoted(version));
    TopText(sorted, version, a);
  }

  lemma TopProps(fs: seq<File>, version: Text, a: Text)
    requires a == Canonical(Obj(FileProps(fs)))
    ensures WrittenProps(ManifestValue(fs, version).props)
      == [Written(FILES, a), Written(ALGORITHM, Quoted(SHA256)), Written(VERSION, Quoted(version))]
  {
    hide Quoted, Sort, Join, Ascii;
    var p := ManifestValue(fs, version).props;
    assert p[1..] == [p[1], p[2]] && [p[1], p[2]][1..] == [p[2]] && [p[2]][1..] == [];
    assert WrittenProps([p[2]]) == [Written(VERSION, Quoted(version))];
    assert WrittenProps([p[1], p[2]]) == [Written(ALGORITHM, Quoted(SHA256)), Written(VERSION, Quoted(version))];
  }

  lemma TopJoin(a: Text, b: Text, c: Text)
    ensures Join([Written(FILES, a), Written(ALGORITHM, b), Written(VERSION, c)], true)
      == Quoted(FILES) + [COLON] + a + ([COMMA] + Quoted(ALGORITHM) + [COLON] + b + ([COMMA] + Quoted(VERSION) + [COLON] + c))
  {
    hide Quoted, Ascii;
    var x, y, z := Written(FILES, a), Written(ALGORITHM, b), Written(VERSION, c);
    assert [x, y, z][1..] == [y, z] && [y, z][1..] == [z] && [z][1..] == [];
    assert Join([z], false) == [COMMA] + Quoted(VERSION) + [COLON] + c + [];
    assert [COMMA] + Quoted(VERSION) + [COLON] + c + [] == [COMMA] + Quoted(VERSION) + [COLON] + c;
  }

  lemma TopText(sorted: seq<File>, version: Text, a: Text)
    requires a == [OPEN] + Items(sorted, true) + [CLOSE]
    ensures [OPEN] + (Quoted(FILES) + [COLON] + a
      + ([COMMA] + Quoted(ALGORITHM) + [COLON] + Quoted(SHA256) + ([COMMA] + Quoted(VERSION) + [COLON] + Quoted(version)))) + [CLOSE]
      == ManifestText(sorted, version)
  {
    hide Quoted, Items, Ascii;
  }

  /**
   * Both implementations write the same manifest: `order` is any order the C emitter may have sorted
   * the covered members into, `fs` any order the C++ manifest may hold them in.
   */
  lemma SameManifest(ms: seq<Member>, hash: Text -> Text, order: seq<nat>, fs: seq<File>)
    requires Nameable(ms)
    requires multiset(order) == multiset(Covered(ms, 0)) && Indices(order, PathsOfMembers(ms))
    requires SortedKeys(Paths(order, PathsOfMembers(ms)))
    requires multiset(fs) == multiset(Entries(Covered(ms, 0), ms, hash))
    ensures Canonical(ManifestValue(fs, MCDF_VERSION)) == ManifestText(Entries(order, ms, hash), MCDF_VERSION)
  {
    hide KeyLess, Covered, Canonical, ManifestText, Nameable;
    var f := (i: nat) => if i < |ms| then File(ms[i].path, hash(BytesOf(ms, ms[i].path))) else File([], []);
    ApplyPermutes(f, order, Covered(ms, 0));
    assert Apply(f, order) == Entries(order, ms, hash);
    assert Apply(f, Covered(ms, 0)) == Entries(Covered(ms, 0), ms, hash);
    EntriesApart(order, ms, hash);
    EntriesSorted(order, ms, hash);
    CanonicalManifest(fs, Entries(order, ms, hash), MCDF_VERSION);
  }

  lemma EntriesSorted(order: seq<nat>, ms: seq<Member>, hash: Text -> Text)
    requires Indices(order, PathsOfMembers(ms)) && SortedKeys(Paths(order, PathsOfMembers(ms)))
    ensures SortedFiles(Entries(order, ms, hash))
  {
    hide KeyLess;
    var es := Entries(order, ms, hash);
    var ps := Paths(order, PathsOfMembers(ms));
    forall i, j | 0 <= i < j < |es| ensures !KeyLess(es[j].path, es[i].path) {
      assert !KeyLess(ps[j], ps[i]);
    }
  }

  lemma EntriesApart(order: seq<nat>, ms: seq<Member>, hash: Text -> Text)
    requires Indices(order, PathsOfMembers(ms)) && Nameable(ms)
    ensures PathsApart(Entries(order, ms, hash))
  {
    hide KeyLess, WellFormed;
    var es := Entries(order, ms, hash);
    forall f, g | f in es && g in es && f != g ensures KeyLess(f.path, g.path) || KeyLess(g.path, f.path) {
      var i :| 0 <= i < |es| && es[i] == f;
      var j :| 0 <= j < |es| && es[j] == g;
      assert order[i] != order[j];
      DifferentPathsCompare(f.path, g.path);
    }
  }
}
