/**
 * The two JavaScript array operations the transaction list relies on:
 * `Array.prototype.filter` with a total predicate and
 * `Array.prototype.slice(start, end)` with its clamping of out-of-range and
 * negative bounds. Both return a new array and leave their input alone, so
 * they are functions on sequences here.
 */
module JsArray {

  function Min(a: int, b: int): int { if a <= b then a else b }
  function Max(a: int, b: int): int { if a <= b then b else a }

  /** `s.filter(p)`: the elements of `s` that satisfy `p`, in their order in `s`. */
  function Filter<T>(s: seq<T>, p: T -> bool): (r: seq<T>)
    ensures |r| <= |s|
  {
    if s == [] then [] else Keep(s[0], p) + Filter(s[1..], p)
  }

  /** What `filter` contributes for one element. */
  function Keep<T>(x: T, p: T -> bool): seq<T>
  {
    if p(x) then [x] else []
  }

  /**
   * `idx` lists, in strictly increasing order, exactly the positions of `s`
   * whose element satisfies `p`.
   */
  ghost predicate SelectedPositions<T>(idx: seq<int>, s: seq<T>, p: T -> bool)
  {
    && (forall k :: 0 <= k < |idx| ==> 0 <= idx[k] < |s| && p(s[idx[k]]))
    && (forall k, l :: 0 <= k < l < |idx| ==> idx[k] < idx[l])
    && (forall i :: 0 <= i < |s| && p(s[i]) ==> i in idx)
  }

  /**
   * The reference meaning of filtering: `r` is `s` read at the selected
   * positions, in increasing order, so no selected element is dropped,
   * duplicated or moved.
   */
  ghost predicate IsSelection<T>(r: seq<T>, s: seq<T>, p: T -> bool)
  {
    exists idx :: SelectedPositions(idx, s, p) && |idx| == |r|
                  && forall k :: 0 <= k < |r| ==> r[k] == s[idx[k]]
  }

  /** `idx` shifted by `d`. */
  function Shift(idx: seq<int>, d: int): (r: seq<int>)
    ensures |r| == |idx|
    ensures forall k :: 0 <= k < |idx| ==> r[k] == idx[k] + d
  {
    if idx == [] then [] else [idx[0] + d] + Shift(idx[1..], d)
  }

  /** The positions of `s` that `Filter(s, p)` keeps. */
  ghost function KeptPositions<T>(s: seq<T>, p: T -> bool): seq<int>
  {
    if s == [] then []
    else (if p(s[0]) then [0] else []) + Shift(KeptPositions(s[1..], p), 1)
  }

  /** Position `k` of `Filter(s, p)` holds the element at `KeptPositions(s, p)[k]`. */
  lemma {:induction false} KeptPositionsMatch<T>(s: seq<T>, p: T -> bool)
    ensures |KeptPositions(s, p)| == |Filter(s, p)|
    ensures forall k :: 0 <= k < |Filter(s, p)| ==>
              0 <= KeptPositions(s, p)[k] < |s| && Filter(s, p)[k] == s[KeptPositions(s, p)[k]]
  {
    if s != [] {
      KeptPositionsMatch(s[1..], p);
    }
  }

  lemma {:induction false} KeptPositionsIncreasing<T>(s: seq<T>, p: T -> bool)
    ensures forall k :: 0 <= k < |KeptPositions(s, p)| ==> 0 <= KeptPositions(s, p)[k] < |s|
    ensures forall k, l :: 0 <= k < l < |KeptPositions(s, p)| ==> KeptPositions(s, p)[k] < KeptPositions(s, p)[l]
  {
    if s != [] {
      KeptPositionsIncreasing(s[1..], p);
    }
  }

  lemma {:induction false} KeptPositionsComplete<T>(s: seq<T>, p: T -> bool)
    ensures forall i :: 0 <= i < |s| && p(s[i]) ==> i in KeptPositions(s, p)
  {
    if s != [] {
      var t := s[1..];
      KeptPositionsComplete(t, p);
      var rest := Shift(KeptPositions(t, p), 1);
      assert KeptPositions(s, p) == (if p(s[0]) then [0] else []) + rest;
      forall i | 0 < i < |s| && p(s[i])
        ensures i in rest
      {
        assert t[i - 1] == s[i];
        var k :| 0 <= k < |KeptPositions(t, p)| && KeptPositions(t, p)[k] == i - 1;
        assert rest[k] == i;
      }
    }
  }

  /** `filter` keeps exactly the selected elements, in order. */
  lemma FilterIsSelection<T>(s: seq<T>, p: T -> bool)
    ensures IsSelection(Filter(s, p), s, p)
  {
    var idx := KeptPositions(s, p);
    KeptPositionsMatch(s, p);
    KeptPositionsIncreasing(s, p);
    KeptPositionsComplete(s, p);
    assert SelectedPositions(idx, s, p);
  }

  /** Membership in a filtered sequence, in both directions. */
  lemma {:induction false} FilterMembership<T>(s: seq<T>, p: T -> bool, x: T)
    ensures x in Filter(s, p) <==> x in s && p(x)
  {
    if s != [] {
      FilterMembership(s[1..], p, x);
    }
  }

  /** Filtering distributes over concatenation. */
  lemma {:induction false} FilterAppend<T>(a: seq<T>, b: seq<T>, p: T -> bool)
    ensures Filter(a + b, p) == Filter(a, p) + Filter(b, p)
  {
    if a != [] {
      assert (a + b)[1..] == a[1..] + b;
      FilterAppend(a[1..], b, p);
    } else {
      assert a + b == b;
    }
  }

  /** A filter that rejects nothing in `s` gives `s` back. */
  lemma {:induction false} FilterKeepsAll<T>(s: seq<T>, p: T -> bool)
    requires forall x :: x in s ==> p(x)
    ensures Filter(s, p) == s
  {
    if s != [] {
      assert forall x :: x in s[1..] ==> x in s;
      FilterKeepsAll(s[1..], p);
    }
  }

  /** Filtering twice by the same predicate is filtering once. */
  lemma FilterIdempotent<T>(s: seq<T>, p: T -> bool)
    ensures Filter(Filter(s, p), p) == Filter(s, p)
  {
    forall x {
      FilterMembership(s, p, x);
    }
    FilterKeepsAll(Filter(s, p), p);
  }

  /** Two predicates that agree on `s` filter it the same way. */
  lemma {:induction false} FilterCongruent<T>(s: seq<T>, p: T -> bool, q: T -> bool)
    requires forall x :: x in s ==> p(x) == q(x)
    ensures Filter(s, p) == Filter(s, q)
  {
    if s != [] {
      assert forall x :: x in s[1..] ==> x in s;
      FilterCongruent(s[1..], p, q);
    }
  }

  /** Filtering by a conjunction `r` of `p` and `q` is filtering by `p`, then by `q`. */
  lemma {:induction false} FilterConjunction<T>(s: seq<T>, p: T -> bool, q: T -> bool, r: T -> bool)
    requires forall x :: r(x) == (p(x) && q(x))
    ensures Filter(s, r) == Filter(Filter(s, p), q)
  {
    if s != [] {
      FilterConjunction(s[1..], p, q, r);
      FilterAppend(Keep(s[0], p), Filter(s[1..], p), q);
    }
  }

  /**
   * `s.slice(start, end)`: a negative bound counts from the end, every bound
   * is clamped to `0..|s|`, and an empty window gives `[]`.
   */
  function Slice<T>(s: seq<T>, start: int, end: int): (r: seq<T>)
    ensures 0 <= start <= end ==> |r| <= end - start
    ensures 0 <= start ==> forall k :: 0 <= k < |r| ==> start + k < |s| && r[k] == s[start + k]
    ensures |s| <= start ==> r == []
    ensures 0 <= start <= |s| && start <= end ==> |r| == Min(end, |s|) - start
    ensures 0 <= end <= start ==> r == []
    ensures end <= -|s| ==> r == []
    ensures start <= -|s| && 0 <= end ==> r == s[..Min(end, |s|)]
    ensures -|s| <= start < 0 && |s| <= end ==> r == s[|s| + start..]
  {
    var n := |s|;
    var from := if start < 0 then Max(n + start, 0) else Min(start, n);
    var to := if end < 0 then Max(n + end, 0) else Min(end, n);
    if from < to then s[from..to] else []
  }
}
