/**
 * The two orders the commands sort by: Python's comparison of strings
 * (code point by code point, a proper prefix first), used by `log` on
 * digests, and the comparison of `(timestamp, digest)` tuples, used by
 * `back` to pick the newest matching snapshot.
 */
module Ordering {

  /** `a < b` on Python strings. */
  predicate LexLess(a: string, b: string)
    decreases |a|
  {
    if |a| == 0 then |b| > 0
    else if |b| == 0 then false
    else a[0] < b[0] || (a[0] == b[0] && LexLess(a[1..], b[1..]))
  }

  lemma {:induction false} LexIrreflexive(a: string)
    ensures !LexLess(a, a)
    decreases |a|
  {
    if |a| > 0 {
      LexIrreflexive(a[1..]);
    }
  }

  lemma {:induction false} LexTransitive(a: string, b: string, c: string)
    requires LexLess(a, b) && LexLess(b, c)
    ensures LexLess(a, c)
    decreases |a|
  {
    if |a| > 0 && a[0] == b[0] && b[0] == c[0] {
      LexTransitive(a[1..], b[1..], c[1..]);
    }
  }

  /** Any two distinct strings are ordered one way or the other. */
  lemma {:induction false} LexTotal(a: string, b: string)
    requires a != b
    ensures LexLess(a, b) || LexLess(b, a)
    decreases |a|
  {
    if |a| > 0 && |b| > 0 && a[0] == b[0] {
      assert a == [a[0]] + a[1..] && b == [b[0]] + b[1..];
      LexTotal(a[1..], b[1..]);
    }
  }

  lemma {:induction false} LexAsymmetric(a: string, b: string)
    requires LexLess(a, b)
    ensures !LexLess(b, a)
  {
    if LexLess(b, a) {
      LexTransitive(a, b, a);
      LexIrreflexive(a);
    }
  }

  /** The sort key `back` builds for a matching commit: `(t, c_hash)`. */
  type Key = (int, string)

  /** Tuple comparison: by time, then by digest. */
  predicate KeyLess(x: Key, y: Key) {
    x.0 < y.0 || (x.0 == y.0 && LexLess(x.1, y.1))
  }

  lemma KeyIrreflexive(x: Key)
    ensures !KeyLess(x, x)
  {
    LexIrreflexive(x.1);
  }

  lemma KeyTransitive(x: Key, y: Key, z: Key)
    requires KeyLess(x, y) && KeyLess(y, z)
    ensures KeyLess(x, z)
  {
    if x.0 == y.0 == z.0 {
      LexTransitive(x.1, y.1, z.1);
    }
  }

  lemma KeyTotal(x: Key, y: Key)
    requires x != y
    ensures KeyLess(x, y) || KeyLess(y, x)
  {
    if x.0 == y.0 {
      LexTotal(x.1, y.1);
    }
  }

  /** The greatest key of a non-empty set: what `matches.sort(reverse=True)` puts first. */
  ghost function Greatest(s: set<Key>): (m: Key)
    requires s != {}
    ensures m in s
    ensures forall k | k in s && k != m :: KeyLess(k, m)
  {
    var x :| x in s;
    if s == {x} then x
    else
      var y := Greatest(s - {x});
      if KeyLess(x, y) then y
      else
        KeyTotal(x, y);
        assert forall k | k in s && k != x :: KeyLess(k, x) by {
          forall k | k in s && k != x
            ensures KeyLess(k, x)
          {
            if k != y {
              KeyTransitive(k, y, x);
            }
          }
        }
        x
  }

  /** The greatest string of a non-empty set: the digest part of the greatest key `(0, d)`. */
  ghost function Largest(s: set<string>): (m: string)
    requires s != {}
    ensures m in s
    ensures forall d | d in s && d != m :: LexLess(d, m)
  {
    var keys := set d | d in s :: (0, d);
    var x :| x in s;
    assert (0, x) in keys;
    var top := Greatest(keys);
    assert forall d | d in s && d != top.1 :: (0, d) in keys && (0, d) != top;
    top.1
  }

  /** The elements of `s` sorted in descending order: `sorted(s, reverse=True)`. */
  ghost function Descending(s: set<string>): (r: seq<string>)
    ensures |r| == |s|
    ensures forall i | 0 <= i < |r| :: r[i] in s
    ensures forall d | d in s :: d in r
    ensures StrictlyDescending(r)
    decreases |s|
  {
    if s == {} then []
    else
      var m := Largest(s);
      [m] + Descending(s - {m})
  }

  /** Strictly descending in `LexLess`: greatest first, no repeats. */
  ghost predicate StrictlyDescending(r: seq<string>) {
    forall i, j | 0 <= i < j < |r| :: LexLess(r[j], r[i])
  }

  /** A strictly descending listing is determined by its elements: there is only one `log` order. */
  lemma {:induction false} DescendingUnique(a: seq<string>, b: seq<string>)
    requires StrictlyDescending(a) && StrictlyDescending(b)
    requires forall x :: x in a <==> x in b
    ensures a == b
    decreases |a|
  {
    if a != [] {
      assert a[0] in a;
    }
    if b != [] {
      assert b[0] in b;
    }
    if a != [] && b != [] {
      if a[0] != b[0] {
        assert a[0] in a && b[0] in b;
        var i :| 0 <= i < |b| && b[i] == a[0];
        var j :| 0 <= j < |a| && a[j] == b[0];
        assert LexLess(a[0], b[0]) && LexLess(b[0], a[0]);
        LexAsymmetric(a[0], b[0]);
      }
      forall x
        ensures x in a[1..] <==> x in b[1..]
      {
        if x in a[1..] {
          var k :| 0 <= k < |a| - 1 && a[1..][k] == x;
          assert a[k + 1] == x && LexLess(x, a[0]);
          LexIrreflexive(a[0]);
          assert x in b;
          var m :| 0 <= m < |b| && b[m] == x;
          assert m != 0 && b[1..][m - 1] == x;
        }
        if x in b[1..] {
          var k :| 0 <= k < |b| - 1 && b[1..][k] == x;
          assert b[k + 1] == x && LexLess(x, b[0]);
          LexIrreflexive(b[0]);
          assert x in a;
          var m :| 0 <= m < |a| && a[m] == x;
          assert m != 0 && a[1..][m - 1] == x;
        }
      }
      DescendingUnique(a[1..], b[1..]);
    } else if a != [] {
      assert false;
    } else if b != [] {
      assert false;
    }
  }
}
