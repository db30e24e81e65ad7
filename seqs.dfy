/**
 * The array idioms the source builds its state from (`filter`, `[...new Set(xs)]`,
 * `reverse`, enumeration of integer-keyed objects), with the facts the model needs.
 * Folds are defined on the prefix, so they read left to right as the source's loops do.
 */
module Seqs {

  /** No value occurs twice. */
  predicate NoDup<T(==)>(s: seq<T>) {
    forall i, j :: 0 <= i < j < |s| ==> s[i] != s[j]
  }

  function Last<T>(s: seq<T>): T
    requires s != []
  {
    s[|s| - 1]
  }

  function Init<T>(s: seq<T>): seq<T>
    requires s != []
  {
    s[..|s| - 1]
  }

  lemma NoDupInit<T>(s: seq<T>)
    requires s != [] && NoDup(s)
    ensures NoDup(Init(s)) && Last(s) !in Init(s)
  {
  }

  lemma NoDupTail<T>(s: seq<T>)
    requires s != [] && NoDup(s)
    ensures NoDup(s[1..]) && s[0] !in s[1..]
  {
  }

  lemma NoDupCons<T>(x: T, s: seq<T>)
    requires NoDup(s) && x !in s
    ensures NoDup([x] + s)
  {
  }

  lemma SnocAssoc<T>(a: seq<T>, x: T, b: seq<T>)
    ensures (a + [x]) + b == a + ([x] + b)
  {
  }

  lemma ConsAssoc<T>(x: T, a: seq<T>, b: seq<T>)
    ensures [x] + (a + b) == ([x] + a) + b
  {
  }

  lemma InitOrLast<T>(s: seq<T>, x: T)
    requires s != []
    ensures x in s <==> x in Init(s) || x == Last(s)
  {
    assert s == Init(s) + [Last(s)];
  }

  /** The values occurring in `s`. */
  function Elems<T>(s: seq<T>): set<T> {
    set i | 0 <= i < |s| :: s[i]
  }

  lemma {:induction false} CardElems<T>(s: seq<T>)
    requires NoDup(s)
    ensures |Elems(s)| == |s|
  {
    if s != [] {
      var p, x := Init(s), Last(s);
      NoDupInit(s);
      CardElems(p);
      assert s == p + [x];
      assert Elems(s) == Elems(p) + {x} by {
        forall y | y in Elems(s) ensures y in Elems(p) + {x} {
          var i :| 0 <= i < |s| && s[i] == y;
          if i < |p| { assert p[i] == y; }
        }
        forall y | y in Elems(p) + {x} ensures y in Elems(s) {
          if y != x {
            var i :| 0 <= i < |p| && p[i] == y;
            assert s[i] == y;
          } else {
            assert s[|s| - 1] == y;
          }
        }
      }
      assert forall i :: 0 <= i < |p| ==> p[i] != x;
      assert x !in Elems(p);
    }
  }

  /** Two duplicate-free lists holding the same values have the same length. */
  lemma SameElemsSameLength<T>(a: seq<T>, b: seq<T>)
    requires NoDup(a) && NoDup(b)
    requires forall i :: 0 <= i < |a| ==> a[i] in b
    requires forall i :: 0 <= i < |b| ==> b[i] in a
    ensures |a| == |b|
  {
    CardElems(a);
    CardElems(b);
    assert Elems(a) == Elems(b);
  }

  /** `xs.filter(e => e !== x)`: every occurrence of `x` removed, order kept. */
  function Without<T(==,!new)>(xs: seq<T>, x: T): (r: seq<T>)
    ensures forall y :: y in r <==> y in xs && y != x
    ensures |r| <= |xs|
    ensures x !in xs ==> r == xs
    ensures NoDup(xs) ==> NoDup(r)
  {
    if xs == [] then []
    else
      var p := Without(Init(xs), x);
      assert NoDup(xs) ==> NoDup(Init(xs)) && Last(xs) !in p;
      if Last(xs) == x then p else p + [Last(xs)]
  }

  /** The filter keeps the original order: it works piecewise over a concatenation. */
  lemma {:induction false} WithoutConcat<T(!new)>(a: seq<T>, b: seq<T>, x: T)
    ensures Without(a + b, x) == Without(a, x) + Without(b, x)
    decreases |b|
  {
    if b == [] {
      assert a + b == a;
      assert Without(a, x) + [] == Without(a, x);
    } else {
      assert Init(a + b) == a + Init(b) && Last(a + b) == Last(b);
      WithoutConcat(a, Init(b), x);
      if Last(b) != x {
        AppendSnoc(Without(a, x), Without(Init(b), x), Last(b));
      }
    }
  }

  lemma AppendSnoc<T>(a: seq<T>, b: seq<T>, x: T)
    ensures (a + b) + [x] == a + (b + [x])
  {
  }

  /** `[...new Set(xs)]`: the first occurrence of every value, in order of first occurrence. */
  function Dedup<T(==,!new)>(xs: seq<T>): (r: seq<T>)
    ensures NoDup(r)
    ensures forall y :: y in r <==> y in xs
    ensures xs != [] ==> r != [] && r[0] == xs[0]
    ensures NoDup(xs) ==> r == xs
  {
    if xs == [] then []
    else
      var p := Dedup(Init(xs));
      assert xs == Init(xs) + [Last(xs)];
      if Last(xs) in p then p else p + [Last(xs)]
  }

  /**
   * `Dedup` keeps the order of first occurrence: of two values in the result, the earlier
   * one occurs in `xs` before the later one first does.
   */
  lemma {:induction false} DedupKeepsFirstOccurrenceOrder<T(!new)>(xs: seq<T>)
    ensures var r := Dedup(xs);
      forall i, j :: 0 <= i < j < |r| ==>
        exists q :: 0 <= q < |xs| && xs[q] == r[i] && r[j] !in xs[..q + 1]
  {
    if xs != [] {
      var ys, l := Init(xs), Last(xs);
      DedupKeepsFirstOccurrenceOrder(ys);
      var p, r := Dedup(ys), Dedup(xs);
      forall i, j | 0 <= i < j < |r|
        ensures exists q :: 0 <= q < |xs| && xs[q] == r[i] && r[j] !in xs[..q + 1]
      {
        if j < |p| {
          assert 0 <= i < j < |Dedup(ys)|;
          var q :| 0 <= q < |ys| && ys[q] == p[i] && p[j] !in ys[..q + 1];
          assert xs[..q + 1] == ys[..q + 1];
          assert xs[q] == r[i] && r[j] == p[j];
        } else {
          assert r == p + [l] && l !in ys;
          assert p[i] in ys;
          var q :| 0 <= q < |ys| && ys[q] == p[i];
          assert xs[..q + 1] == ys[..q + 1];
          assert xs[q] == r[i] && r[j] == l;
        }
      }
    }
  }

  /**
   * Putting `d` in front of a duplicate-free list and de-duplicating yields `d`
   * followed by the list with `d` taken out: a value already present moves to the front.
   */
  lemma {:induction false} DedupFront<T(!new)>(d: T, xs: seq<T>)
    requires NoDup(xs)
    ensures Dedup([d] + xs) == [d] + Without(xs, d)
  {
    if xs != [] {
      var ys := [d] + xs;
      assert Init(ys) == [d] + Init(xs);
      assert Last(ys) == Last(xs);
      DedupFront(d, Init(xs));
      assert Last(xs) !in Init(xs);
    }
  }

  /** `arr.reverse()` */
  function Reverse<T>(s: seq<T>): (r: seq<T>)
    ensures |r| == |s|
    ensures forall i :: 0 <= i < |s| ==> r[i] == s[|s| - 1 - i]
  {
    if s == [] then [] else [Last(s)] + Reverse(Init(s))
  }

  /** `m` is the smallest element of `s`. */
  predicate IsMinOf(s: set<nat>, m: nat) {
    m in s && forall k :: k in s ==> m <= k
  }

  /** The smallest element of a non-empty set of naturals. */
  function MinOf(s: set<nat>): (m: nat)
    requires s != {}
    ensures m in s && forall k :: k in s ==> m <= k
  {
    MinExists(s);
    var m :| IsMinOf(s, m);
    m
  }

  lemma {:induction false} MinExists(s: set<nat>)
    requires s != {}
    ensures exists m :: IsMinOf(s, m)
  {
    var x :| x in s;
    if s == {x} {
      assert IsMinOf(s, x);
    } else {
      var rest := s - {x};
      MinExists(rest);
      var m :| IsMinOf(rest, m);
      var w := if x < m then x else m;
      assert IsMinOf(s, w) by {
        forall k | k in s
          ensures w <= k
        {
          if k != x {
            assert k in rest;
          }
        }
      }
    }
  }

  /**
   * The order in which `Object.entries`/`Object.values` visit an object whose keys are
   * all integer-like: ascending numeric order.
   */
  function SortedKeys(s: set<nat>): (r: seq<nat>)
    ensures |r| == |s|
    ensures forall k :: k in r <==> k in s
    ensures forall i, j :: 0 <= i < j < |r| ==> r[i] < r[j]
    ensures NoDup(r)
    decreases |s|
  {
    if s == {} then []
    else
      var m := MinOf(s);
      [m] + SortedKeys(s - {m})
  }
}
