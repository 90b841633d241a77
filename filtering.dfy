/** The order-preserving filter that Python's list comprehension
    `[x for x in s if p(x)]` performs, with its exact characterisation. */
module Filtering {

  /** Elements of `s` that satisfy `p`, in their original order. */
  function Filter<T>(s: seq<T>, p: T -> bool): (r: seq<T>)
    ensures |r| <= |s|
    ensures forall k :: 0 <= k < |r| ==> p(r[k])
  {
    if s == [] then [] else (if p(s[0]) then [s[0]] else []) + Filter(s[1..], p)
  }

  /** Every index of `xs` moved up by one. */
  function Shift(xs: seq<nat>): (r: seq<nat>)
    ensures |r| == |xs| && forall k :: 0 <= k < |xs| ==> r[k] == xs[k] + 1
  {
    seq(|xs|, k requires 0 <= k < |xs| => xs[k] + 1)
  }

  /** The indices in `xs` strictly increase. */
  ghost predicate Increasing(xs: seq<nat>) {
    forall k, l :: 0 <= k < l < |xs| ==> xs[k] < xs[l]
  }

  /** The indices of `s` whose elements satisfy `p`, in increasing order. */
  ghost function Picks<T>(s: seq<T>, p: T -> bool): seq<nat> {
    if s == [] then [] else (if p(s[0]) then [0] else []) + Shift(Picks(s[1..], p))
  }

  /** `ix` holds exactly the indices of `s` whose element satisfies `p`. */
  ghost predicate Selects<T>(s: seq<T>, p: T -> bool, ix: seq<nat>) {
    forall i :: 0 <= i < |s| ==> (p(s[i]) <==> i in ix)
  }

  /** The filter keeps exactly the elements at the indices satisfying `p`, and
      keeps them in increasing index order: an order-preserving subsequence
      that drops nothing it should keep and keeps nothing it should drop. */
  lemma FilterPicks<T>(s: seq<T>, p: T -> bool)
    ensures At(Filter(s, p), s, Picks(s, p))
    ensures Increasing(Picks(s, p))
    ensures Selects(s, p, Picks(s, p))
  {
    FilterAt(s, p);
    PicksIncreasing(s, p);
    PicksExact(s, p);
  }

  /** `r` lists the elements of `s` at the indices `ix`, in that order. */
  ghost predicate At<T>(r: seq<T>, s: seq<T>, ix: seq<nat>) {
    |r| == |ix| && forall k :: 0 <= k < |ix| ==> ix[k] < |s| && r[k] == s[ix[k]]
  }

  /** Listing the tail at shifted indices lists the whole sequence there. */
  lemma AtShift<T>(r: seq<T>, s: seq<T>, ix: seq<nat>)
    requires s != [] && At(r, s[1..], ix)
    ensures At(r, s, Shift(ix))
  {
  }

  /** Putting the first element in front, at index 0. */
  lemma AtCons<T>(r: seq<T>, s: seq<T>, ix: seq<nat>)
    requires s != [] && At(r, s, ix)
    ensures At([s[0]] + r, s, [0] + ix)
  {
    var r1, ix1 := [s[0]] + r, [0] + ix;
    forall k | 1 <= k < |ix1|
      ensures ix1[k] < |s| && r1[k] == s[ix1[k]]
    {
      assert ix1[k] == ix[k - 1] && r1[k] == r[k - 1];
    }
  }

  /** The k-th kept element is the element at the k-th picked index. */
  lemma {:induction false} FilterAt<T>(s: seq<T>, p: T -> bool)
    ensures At(Filter(s, p), s, Picks(s, p))
  {
    if s != [] {
      var t := s[1..];
      FilterAt(t, p);
      var r', sh := Filter(t, p), Shift(Picks(t, p));
      AtShift(r', s, Picks(t, p));
      assert At(r', s, sh);
      if p(s[0]) {
        assert Filter(s, p) == [s[0]] + r';
        assert Picks(s, p) == [0] + sh;
        AtCons(r', s, sh);
      } else {
        assert Filter(s, p) == r';
        assert Picks(s, p) == sh;
      }
    }
  }

  /** Shifting keeps indices increasing and puts them all above 0. */
  lemma ShiftIncreasing(xs: seq<nat>)
    requires Increasing(xs)
    ensures Increasing(Shift(xs)) && forall k :: 0 <= k < |xs| ==> Shift(xs)[k] >= 1
  {
  }

  /** Index 0 in front of indices above 0 keeps them increasing. */
  lemma ZeroFirstIncreasing(xs: seq<nat>)
    requires Increasing(xs) && forall k :: 0 <= k < |xs| ==> xs[k] >= 1
    ensures Increasing([0] + xs)
  {
    var ys := [0] + xs;
    forall k, l | 0 <= k < l < |ys|
      ensures ys[k] < ys[l]
    {
      assert ys[l] == xs[l - 1];
      if k > 0 {
        assert ys[k] == xs[k - 1];
      }
    }
  }

  /** The picked indices are strictly increasing. */
  lemma {:induction false} PicksIncreasing<T>(s: seq<T>, p: T -> bool)
    ensures Increasing(Picks(s, p))
  {
    if s != [] {
      var t := s[1..];
      PicksIncreasing(t, p);
      var sh := Shift(Picks(t, p));
      ShiftIncreasing(Picks(t, p));
      if p(s[0]) {
        assert Picks(s, p) == [0] + sh;
        ZeroFirstIncreasing(sh);
      } else {
        assert Picks(s, p) == sh;
      }
    }
  }

  /** Shifting moves membership up by one. */
  lemma ShiftIn(xs: seq<nat>, i: nat)
    ensures i in Shift(xs) <==> i >= 1 && i - 1 in xs
  {
    var sh := Shift(xs);
    if i in sh {
      var k :| 0 <= k < |sh| && sh[k] == i;
      assert xs[k] == i - 1;
    }
    if i >= 1 && i - 1 in xs {
      var k :| 0 <= k < |xs| && xs[k] == i - 1;
      assert sh[k] == i;
    }
  }

  /** An index is picked exactly when its element satisfies `p`. */
  lemma {:induction false} PicksExact<T>(s: seq<T>, p: T -> bool)
    ensures Selects(s, p, Picks(s, p))
  {
    if s != [] {
      var t := s[1..];
      PicksExact(t, p);
      var sh := Shift(Picks(t, p));
      var ix := Picks(s, p);
      assert ix == (if p(s[0]) then [0] else []) + sh;
      ShiftIn(Picks(t, p), 0);
      forall i | 1 <= i < |s|
        ensures p(s[i]) <==> i in ix
      {
        assert s[i] == t[i - 1];
        ShiftIn(Picks(t, p), i);
        assert i in ix <==> i in sh;
      }
    }
  }

  /** Filtering distributes over concatenation. */
  lemma {:induction false} FilterAppend<T>(a: seq<T>, b: seq<T>, p: T -> bool)
    ensures Filter(a + b, p) == Filter(a, p) + Filter(b, p)
  {
    if a != [] {
      assert (a + b)[1..] == a[1..] + b;
      FilterAppend(a[1..], b, p);
    } else {
      assert a + b == b;
    }
  }

  /** Filtering a single element. */
  lemma FilterSingle<T>(x: T, p: T -> bool)
    ensures Filter([x], p) == if p(x) then [x] else []
  {
    assert [x][1..] == [];
  }

  /** Filtering around one element: the part before it, the element, the part after it. */
  lemma FilterAround<T>(a: seq<T>, x: T, b: seq<T>, p: T -> bool)
    ensures Filter(a + [x] + b, p) == Filter(a, p) + Filter([x], p) + Filter(b, p)
  {
    FilterAppend(a + [x], b, p);
    FilterAppend(a, [x], p);
  }

  /** A filter that every element passes returns its input unchanged. */
  lemma {:induction false} FilterKeepsAll<T>(s: seq<T>, p: T -> bool)
    requires forall i :: 0 <= i < |s| ==> p(s[i])
    ensures Filter(s, p) == s
  {
    if s != [] {
      FilterKeepsAll(s[1..], p);
    }
  }
}
