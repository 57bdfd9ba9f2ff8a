/**
 * Python's ordering of `str` values (code point by code point, a proper
 * prefix first) and `sorted` over the keys of a dictionary.
 */
module Ordering {

  /** `a <= b` on Python strings. */
  predicate LexLe(a: string, b: string) {
    a == [] || (b != [] && (a[0] < b[0] || (a[0] == b[0] && LexLe(a[1..], b[1..]))))
  }

  predicate LexLess(a: string, b: string) {
    LexLe(a, b) && a != b
  }

  lemma {:induction false} LexLeAntisymmetric(a: string, b: string)
    requires LexLe(a, b) && LexLe(b, a)
    ensures a == b
  {
    if a != [] && b != [] {
      LexLeAntisymmetric(a[1..], b[1..]);
      assert a == [a[0]] + a[1..] && b == [b[0]] + b[1..];
    }
  }

  lemma {:induction false} LexLeTransitive(a: string, b: string, c: string)
    requires LexLe(a, b) && LexLe(b, c)
    ensures LexLe(a, c)
  {
    if a != [] && b != [] && c != [] && a[0] == b[0] == c[0] {
      LexLeTransitive(a[1..], b[1..], c[1..]);
    }
  }

  lemma {:induction false} LexLeTotal(a: string, b: string)
    ensures LexLe(a, b) || LexLe(b, a)
  {
    if a != [] && b != [] && a[0] == b[0] {
      LexLeTotal(a[1..], b[1..]);
    }
  }

  predicate IsLeast(m: string, s: set<string>) {
    m in s && forall x :: x in s ==> LexLe(m, x)
  }

  /** Every non-empty finite set of strings has a least element. */
  lemma {:induction false} LeastExists(s: set<string>)
    requires s != {}
    ensures exists m :: IsLeast(m, s)
    decreases |s|
  {
    var x :| x in s;
    var rest := s - {x};
    if rest == {} {
      assert s == {x};
      LexLeReflexive(x);
      assert IsLeast(x, s);
    } else {
      LeastExists(rest);
      var m :| IsLeast(m, rest);
      LexLeTotal(x, m);
      if LexLe(x, m) {
        forall y | y in s ensures LexLe(x, y) {
          if y == x { LexLeReflexive(x); } else { LexLeTransitive(x, m, y); }
        }
        assert IsLeast(x, s);
      } else {
        assert IsLeast(m, s);
      }
    }
  }

  lemma {:induction false} LexLeReflexive(a: string)
    ensures LexLe(a, a)
  {
    if a != [] { LexLeReflexive(a[1..]); }
  }

  /** The least element is unique, so choosing it is deterministic. */
  lemma LeastUnique(s: set<string>)
    ensures forall m, m' :: IsLeast(m, s) && IsLeast(m', s) ==> m == m'
  {
    forall m, m' | IsLeast(m, s) && IsLeast(m', s) ensures m == m' {
      LexLeAntisymmetric(m, m');
    }
  }

  predicate StrictlyAscending(r: seq<string>) {
    forall i, j :: 0 <= i < j < |r| ==> LexLess(r[i], r[j])
  }

  /** `sorted(keys)`: each key exactly once (in order, by SortedKeysAscending). */
  function SortedKeys(s: set<string>): (r: seq<string>)
    ensures |r| == |s|
    ensures forall x :: x in r <==> x in s
    decreases |s|, 1
  {
    if s == {} then [] else LeastFirst(s)
  }

  /** The least key, then the rest in order: one step of selection sort. */
  function LeastFirst(s: set<string>): (r: seq<string>)
    requires s != {}
    ensures |r| == |s|
    ensures forall x :: x in r <==> x in s
    decreases |s|, 0
  {
    LeastExists(s);
    LeastUnique(s);
    var m :| IsLeast(m, s);
    [m] + SortedKeys(s - {m})
  }

  /** The position of a key in the sorted key list. */
  lemma PositionOf(s: set<string>, x: string) returns (i: nat)
    requires x in s
    ensures i < |SortedKeys(s)| && SortedKeys(s)[i] == x
  {
    assert x in SortedKeys(s);
    i :| 0 <= i < |SortedKeys(s)| && SortedKeys(s)[i] == x;
  }

  /** The keys come out in strictly ascending order. */
  lemma {:induction false} SortedKeysAscending(s: set<string>)
    ensures StrictlyAscending(SortedKeys(s))
    decreases |s|
  {
    if s != {} {
      LeastExists(s);
      LeastUnique(s);
      var m :| IsLeast(m, s);
      var rest := SortedKeys(s - {m});
      SortedKeysAscending(s - {m});
      var r := [m] + rest;
      assert SortedKeys(s) == LeastFirst(s) == r;
      forall i, j | 0 <= i < j < |r| ensures LexLess(r[i], r[j]) {
        if i > 0 {
          assert r[i] == rest[i - 1] && r[j] == rest[j - 1];
        } else {
          assert r[j] in s - {m};
        }
      }
    }
  }
}
