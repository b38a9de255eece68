/**
 * Archive paths as sequences of segments (the `parts` of a `PurePath`),
 * with the ordering `sorted()` uses on them: lexicographic by segment,
 * each segment compared as a Python string (by code point).
 */
module Paths {

  type Path = seq<string>

  /** `a` is `b` or one of its ancestors. */
  predicate IsPrefix(a: Path, b: Path) {
    |a| <= |b| && b[..|a|] == a
  }

  /** `a` is a proper ancestor of `b`. */
  predicate IsStrictPrefix(a: Path, b: Path) {
    |a| < |b| && b[..|a|] == a
  }

  /** The ancestors of `p` strictly below `base` (and strictly above `p`). */
  function Between(base: Path, p: Path): (r: set<Path>)
    ensures forall q :: q in r <==> IsStrictPrefix(base, q) && IsStrictPrefix(q, p) && IsPrefix(base, p)
  {
    if !IsPrefix(base, p) then {}
    else
      var r := set k | |base| < k < |p| :: p[..k];
      assert forall q :: IsStrictPrefix(base, q) && IsStrictPrefix(q, p) ==> q == p[..|q|] && q in r;
      r
  }

  /** Python's `str.__lt__`: code-point lexicographic order. */
  predicate StrLess(a: string, b: string) {
    if |a| == 0 then |b| > 0
    else if |b| == 0 then false
    else if a[0] != b[0] then a[0] < b[0]
    else StrLess(a[1..], b[1..])
  }

  lemma {:induction false} StrLessIrreflexive(a: string)
    ensures !StrLess(a, a)
  {
    if |a| > 0 { StrLessIrreflexive(a[1..]); }
  }

  lemma {:induction false} StrLessTransitive(a: string, b: string, c: string)
    requires StrLess(a, b) && StrLess(b, c)
    ensures StrLess(a, c)
  {
    if |a| > 0 && a[0] == b[0] && b[0] == c[0] {
      StrLessTransitive(a[1..], b[1..], c[1..]);
    }
  }

  lemma {:induction false} StrLessTotal(a: string, b: string)
    ensures a == b || StrLess(a, b) || StrLess(b, a)
  {
    if |a| > 0 && |b| > 0 && a[0] == b[0] {
      StrLessTotal(a[1..], b[1..]);
      if a[1..] == b[1..] {
        assert a == [a[0]] + a[1..] && b == [b[0]] + b[1..];
      }
    }
  }

  /** The order `sorted()` puts `PurePath`s in: segment by segment. */
  predicate PathLess(a: Path, b: Path) {
    if |a| == 0 then |b| > 0
    else if |b| == 0 then false
    else if a[0] != b[0] then StrLess(a[0], b[0])
    else PathLess(a[1..], b[1..])
  }

  lemma {:induction false} PathLessIrreflexive(a: Path)
    ensures !PathLess(a, a)
  {
    if |a| > 0 { PathLessIrreflexive(a[1..]); }
  }

  lemma {:induction false} PathLessTransitive(a: Path, b: Path, c: Path)
    requires PathLess(a, b) && PathLess(b, c)
    ensures PathLess(a, c)
  {
    if |a| > 0 && |b| > 0 && |c| > 0 {
      if a[0] == b[0] && b[0] == c[0] {
        PathLessTransitive(a[1..], b[1..], c[1..]);
      } else if a[0] != b[0] && b[0] != c[0] {
        StrLessTransitive(a[0], b[0], c[0]);
        if a[0] == c[0] { StrLessIrreflexive(a[0]); StrLessTransitive(a[0], b[0], a[0]); }
      }
    }
  }

  lemma {:induction false} PathLessTotal(a: Path, b: Path)
    ensures a == b || PathLess(a, b) || PathLess(b, a)
  {
    if |a| > 0 && |b| > 0 {
      if a[0] == b[0] {
        PathLessTotal(a[1..], b[1..]);
        if a[1..] == b[1..] {
          assert a == [a[0]] + a[1..] && b == [b[0]] + b[1..];
        }
      } else {
        StrLessTotal(a[0], b[0]);
      }
    }
  }

  /** `PathLess` never holds both ways. */
  lemma PathLessAsymmetric(a: Path, b: Path)
    ensures !(PathLess(a, b) && PathLess(b, a))
  {
    if PathLess(a, b) && PathLess(b, a) {
      PathLessTransitive(a, b, a);
      PathLessIrreflexive(a);
    }
  }

  /** A parent sorts before its children. */
  lemma {:induction false} PrefixSortsFirst(a: Path, b: Path)
    requires IsStrictPrefix(a, b)
    ensures PathLess(a, b)
  {
    if |a| > 0 {
      PrefixSortsFirst(a[1..], b[1..]);
    }
  }

  /** Strictly increasing: every path once, in `sorted()` order. */
  predicate Sorted(ps: seq<Path>) {
    forall i, j :: 0 <= i < j < |ps| ==> PathLess(ps[i], ps[j])
  }

  /** `m` is the least element of `s`. */
  predicate IsLeast(m: Path, s: set<Path>) {
    m in s && forall p :: p in s && p != m ==> PathLess(m, p)
  }

  /** Every finite non-empty set of paths has a least element. */
  lemma {:induction false} LeastExists(s: set<Path>)
    requires s != {}
    ensures exists m :: IsLeast(m, s)
    decreases |s|
  {
    var x :| x in s;
    if s == {x} {
      assert IsLeast(x, s);
    } else {
      var rest := s - {x};
      LeastExists(rest);
      var m :| IsLeast(m, rest);
      PathLessTotal(m, x);
      if PathLess(m, x) {
        assert IsLeast(m, s);
      } else {
        forall p | p in s && p != x ensures PathLess(x, p) {
          if p != m { PathLessTransitive(x, m, p); }
        }
        assert IsLeast(x, s);
      }
    }
  }

  /** A sorted sequence holds no path twice. */
  lemma SortedDistinct(ps: seq<Path>, i: int, j: int)
    requires Sorted(ps) && 0 <= i < |ps| && 0 <= j < |ps| && i != j
    ensures ps[i] != ps[j]
  {
    if i < j { PathLessIrreflexive(ps[i]); } else { PathLessIrreflexive(ps[j]); }
  }
}
