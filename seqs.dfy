/** Sequences of distinct keys, the way a JavaScript object lists its own keys:
    in order, each once. */
module Seqs {

  function Elems<T>(s: seq<T>): set<T> {
    set x | x in s
  }

  predicate Distinct<T(==)>(s: seq<T>) {
    forall i, j :: 0 <= i < j < |s| ==> s[i] != s[j]
  }

  /** The elements of `s` that lie in `a`, in their order in `s`. */
  function Only<T(==)>(s: seq<T>, a: set<T>): seq<T>
    decreases |s|
  {
    if s == [] then []
    else
      var last := s[|s| - 1];
      Only(s[..|s| - 1], a) + (if last in a then [last] else [])
  }

  /** The elements of `s` that lie outside `a`, in their order in `s`. */
  function Without<T(==)>(s: seq<T>, a: set<T>): seq<T>
    decreases |s|
  {
    if s == [] then []
    else
      var last := s[|s| - 1];
      Without(s[..|s| - 1], a) + (if last in a then [] else [last])
  }

  lemma {:induction false} DistinctSnoc<T>(p: seq<T>, x: T)
    ensures Distinct(p + [x]) <==> Distinct(p) && x !in p
  {
    var s := p + [x];
    assert s[..|p|] == p;
    if Distinct(s) {
      forall i, j | 0 <= i < j < |p| ensures p[i] != p[j] {
        assert p[i] == s[i] && p[j] == s[j];
      }
      forall i | 0 <= i < |p| ensures p[i] != x {
        assert s[i] == p[i] && s[|p|] == x;
      }
    }
  }

  lemma EmptyElems<T>(s: seq<T>)
    ensures Elems(s) == {} <==> s == []
  {
    if s != [] {
      assert s[0] in Elems(s);
    }
  }

  lemma {:induction false} ElemsSnoc<T>(p: seq<T>, x: T)
    ensures Elems(p + [x]) == Elems(p) + {x}
  {
  }

  /** Selecting by membership keeps exactly the selected elements, and never
      repeats one. */
  lemma {:induction false} OnlyProps<T>(s: seq<T>, a: set<T>)
    ensures Elems(Only(s, a)) == Elems(s) * a
    ensures Distinct(s) ==> Distinct(Only(s, a))
    decreases |s|
  {
    if s != [] {
      var p, last := s[..|s| - 1], s[|s| - 1];
      assert s == p + [last];
      OnlyProps(p, a);
      ElemsSnoc(p, last);
      var tail := if last in a then [last] else [];
      if last in a {
        ElemsSnoc(Only(p, a), last);
        if Distinct(s) {
          DistinctSnoc(p, last);
          DistinctSnoc(Only(p, a), last);
        }
      } else {
        assert Only(s, a) == Only(p, a);
        if Distinct(s) {
          DistinctSnoc(p, last);
        }
      }
    }
  }

  /** Removing by membership keeps exactly the other elements, and never
      repeats one. */
  lemma {:induction false} WithoutProps<T>(s: seq<T>, a: set<T>)
    ensures Elems(Without(s, a)) == Elems(s) - a
    ensures Distinct(s) ==> Distinct(Without(s, a))
    decreases |s|
  {
    if s != [] {
      var p, last := s[..|s| - 1], s[|s| - 1];
      assert s == p + [last];
      WithoutProps(p, a);
      ElemsSnoc(p, last);
      if last !in a {
        ElemsSnoc(Without(p, a), last);
        if Distinct(s) {
          DistinctSnoc(p, last);
          DistinctSnoc(Without(p, a), last);
        }
      } else {
        assert Without(s, a) == Without(p, a);
        if Distinct(s) {
          DistinctSnoc(p, last);
        }
      }
    }
  }

  /** Removing `a` and then `b` is removing both at once. */
  lemma {:induction false} WithoutTwice<T>(s: seq<T>, a: set<T>, b: set<T>)
    ensures Without(Without(s, a), b) == Without(s, a + b)
    decreases |s|
  {
    if s != [] {
      var p, last := s[..|s| - 1], s[|s| - 1];
      WithoutTwice(p, a, b);
      if last !in a {
        var w := Without(p, a) + [last];
        assert w[..|w| - 1] == Without(p, a) && w[|w| - 1] == last;
        assert Without(s, a) == w;
        assert Without(w, b) == Without(Without(p, a), b) + (if last in b then [] else [last]);
      } else {
        assert Without(s, a) == Without(p, a);
      }
    }
  }

  /** Removing elements that do not occur changes nothing. */
  lemma {:induction false} WithoutNothing<T>(s: seq<T>, a: set<T>)
    requires forall x :: x in s ==> x !in a
    ensures Without(s, a) == s
    decreases |s|
  {
    if s != [] {
      var p, last := s[..|s| - 1], s[|s| - 1];
      assert s == p + [last];
      WithoutNothing(p, a);
      assert Without(s, a) == Without(p, a) + [last];
    }
  }

  /** A sequence without repeats has as many elements as its set of elements. */
  lemma {:induction false} DistinctCard<T>(s: seq<T>)
    requires Distinct(s)
    ensures |Elems(s)| == |s|
    decreases |s|
  {
    if s != [] {
      var p, last := s[..|s| - 1], s[|s| - 1];
      assert s == p + [last];
      DistinctSnoc(p, last);
      ElemsSnoc(p, last);
      DistinctCard(p);
    }
  }
}
