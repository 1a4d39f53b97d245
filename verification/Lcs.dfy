/** Longest common subsequences: the recurrence of the diff table against the definition. */
module Lcs {

  ghost predicate IsSubsequence<T>(c: seq<T>, a: seq<T>) {
    if c == [] then true
    else if a == [] then false
    else (c[0] == a[0] && IsSubsequence(c[1..], a[1..])) || IsSubsequence(c, a[1..])
  }

  ghost predicate IsCommon<T>(c: seq<T>, a: seq<T>, b: seq<T>) {
    IsSubsequence(c, a) && IsSubsequence(c, b)
  }

  /** The recurrence the table of `diff_lines` is filled with. */
  ghost function Length<T>(a: seq<T>, b: seq<T>): nat
    decreases |a| + |b|
  {
    if a == [] || b == [] then 0
    else if a[0] == b[0] then 1 + Length(a[1..], b[1..])
    else Max(Length(a[1..], b), Length(a, b[1..]))
  }

  function Max(x: nat, y: nat): nat {
    if x < y then y else x
  }

  lemma {:induction false} DropHead<T>(c: seq<T>, a: seq<T>)
    requires c != [] && IsSubsequence(c, a)
    ensures a != [] && IsSubsequence(c[1..], a[1..])
  {
    if a == [] {
    } else if !(c[0] == a[0] && IsSubsequence(c[1..], a[1..])) {
      DropHead(c, a[1..]);
      Skip(c[1..], a[1..]);
    }
  }

  lemma {:induction false} Skip<T>(c: seq<T>, a: seq<T>)
    requires a != [] && IsSubsequence(c, a[1..])
    ensures IsSubsequence(c, a)
  {
  }

  /** No common subsequence is longer than the recurrence says. */
  lemma {:induction false} LengthIsBound<T>(c: seq<T>, a: seq<T>, b: seq<T>)
    requires IsCommon(c, a, b)
    ensures |c| <= Length(a, b)
    decreases |a| + |b|
  {
    if c != [] {
      if a[0] == b[0] {
        DropHead(c, a);
        DropHead(c, b);
        LengthIsBound(c[1..], a[1..], b[1..]);
      } else if c[0] == a[0] {
        LengthIsBound(c, a, b[1..]);
      } else {
        LengthIsBound(c, a[1..], b);
      }
    }
  }

  /** The common lines at the end of both texts belong to a longest common subsequence. */
  lemma {:induction false} SharedSuffix<T>(a: seq<T>, b: seq<T>, s: seq<T>)
    ensures Length(a + s, b + s) == Length(a, b) + |s|
    decreases |s|
  {
    if s == [] {
      assert a + s == a && b + s == b;
    } else {
      var rest, last := s[..|s| - 1], s[|s| - 1];
      assert a + s == (a + rest) + [last] && b + s == (b + rest) + [last];
      SharedLast(a + rest, b + rest, last);
      SharedSuffix(a, b, rest);
    }
  }

  lemma {:induction false} SharedLast<T>(a: seq<T>, b: seq<T>, x: T)
    ensures Length(a + [x], b + [x]) == Length(a, b) + 1
    decreases |a| + |b|
  {
    if a == [] {
      assert a + [x] == [x];
      OneLine(b, x);
    } else if b == [] {
      assert b + [x] == [x];
      Symmetric(a + [x], [x]);
      OneLine(a, x);
    } else {
      assert (a + [x])[1..] == a[1..] + [x] && (b + [x])[1..] == b[1..] + [x];
      if a[0] == b[0] {
        SharedLast(a[1..], b[1..], x);
      } else {
        SharedLast(a[1..], b, x);
        SharedLast(a, b[1..], x);
      }
    }
  }

  lemma {:induction false} OneLine<T>(b: seq<T>, x: T)
    ensures Length([x], b + [x]) == 1
    decreases |b|
  {
    if b != [] {
      assert (b + [x])[1..] == b[1..] + [x];
      OneLine(b[1..], x);
    }
  }

  lemma {:induction false} Symmetric<T>(a: seq<T>, b: seq<T>)
    ensures Length(a, b) == Length(b, a)
    decreases |a| + |b|
  {
    if a != [] && b != [] {
      if a[0] == b[0] {
        Symmetric(a[1..], b[1..]);
      } else {
        Symmetric(a[1..], b);
        Symmetric(a, b[1..]);
      }
    }
  }

  lemma {:induction false} SharedPrefix<T>(p: seq<T>, a: seq<T>, b: seq<T>)
    ensures Length(p + a, p + b) == |p| + Length(a, b)
    decreases |p|
  {
    if p == [] {
      assert p + a == a && p + b == b;
    } else {
      assert (p + a)[1..] == p[1..] + a && (p + b)[1..] == p[1..] + b;
      SharedPrefix(p[1..], a, b);
    }
  }
}
