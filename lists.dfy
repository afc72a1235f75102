/**
  The list comprehensions the system is built from: keep the elements that pass a test and
  transform each (`xs.filter(keep).map(f)`, `[f(x) for x in xs if keep(x)]`), and keep the first
  occurrence of each value (the key order of a dictionary filled in sequence).
 */
module Lists {

  /** The images under `f` of the elements of `xs` that pass `keep`, in their order in `xs`. */
  function FilterMap<A, B>(xs: seq<A>, keep: A -> bool, f: A -> B): (ys: seq<B>)
    ensures |ys| <= |xs|
    decreases |xs|
  {
    if xs == [] then []
    else (if keep(xs[0]) then [f(xs[0])] else []) + FilterMap(xs[1..], keep, f)
  }

  /** The positions, from `start` on and in increasing order, of the elements that pass `keep`. */
  ghost function Positions<A>(xs: seq<A>, keep: A -> bool, start: nat): (idx: seq<nat>)
    requires start <= |xs|
    ensures forall k :: 0 <= k < |idx| ==> start <= idx[k] < |xs| && keep(xs[idx[k]])
    ensures forall k, m :: 0 <= k < m < |idx| ==> idx[k] < idx[m]
    ensures forall j :: start <= j < |xs| && keep(xs[j]) ==> j in idx
    decreases |xs| - start
  {
    if start == |xs| then []
    else (if keep(xs[start]) then [start] else []) + Positions(xs, keep, start + 1)
  }

  lemma {:induction false} FilterMapFrom<A, B>(xs: seq<A>, keep: A -> bool, f: A -> B, start: nat)
    requires start <= |xs|
    ensures |FilterMap(xs[start..], keep, f)| == |Positions(xs, keep, start)|
    ensures forall k :: 0 <= k < |Positions(xs, keep, start)| ==>
                        FilterMap(xs[start..], keep, f)[k] == f(xs[Positions(xs, keep, start)[k]])
    decreases |xs| - start
  {
    if start < |xs| {
      FilterMapFrom(xs, keep, f, start + 1);
      assert xs[start..][1..] == xs[start + 1..];
    }
  }

  /**
    The result is exactly the images of the elements that pass the test: one per such element,
    in their order, and nothing else.
   */
  lemma FilterMapExact<A, B>(xs: seq<A>, keep: A -> bool, f: A -> B)
    ensures |FilterMap(xs, keep, f)| == |Positions(xs, keep, 0)|
    ensures forall k :: 0 <= k < |FilterMap(xs, keep, f)| ==>
                        FilterMap(xs, keep, f)[k] == f(xs[Positions(xs, keep, 0)[k]])
  {
    FilterMapFrom(xs, keep, f, 0);
    assert xs[0..] == xs;
  }

  /** The image of every element that passes the test is in the result. */
  lemma FilterMapKeeps<A, B>(xs: seq<A>, keep: A -> bool, f: A -> B, j: nat)
    requires j < |xs| && keep(xs[j])
    ensures f(xs[j]) in FilterMap(xs, keep, f)
  {
    FilterMapExact(xs, keep, f);
    var idx := Positions(xs, keep, 0);
    var k :| 0 <= k < |idx| && idx[k] == j;
    assert FilterMap(xs, keep, f)[k] == f(xs[j]);
  }

  /** Every value of the result is the image of an element that passes the test. */
  lemma FilterMapSource<A, B>(xs: seq<A>, keep: A -> bool, f: A -> B, k: nat) returns (j: nat)
    requires k < |FilterMap(xs, keep, f)|
    ensures j < |xs| && keep(xs[j]) && f(xs[j]) == FilterMap(xs, keep, f)[k]
  {
    FilterMapExact(xs, keep, f);
    j := Positions(xs, keep, 0)[k];
  }

  /** A value is in the result exactly when it is the image of some element that passes the test. */
  lemma FilterMapMembers<A, B>(xs: seq<A>, keep: A -> bool, f: A -> B, y: B)
    ensures y in FilterMap(xs, keep, f) <==> exists j :: 0 <= j < |xs| && keep(xs[j]) && f(xs[j]) == y
  {
    var ys := FilterMap(xs, keep, f);
    if y in ys {
      var k :| 0 <= k < |ys| && ys[k] == y;
      var j := FilterMapSource(xs, keep, f, k);
    }
    if exists j :: 0 <= j < |xs| && keep(xs[j]) && f(xs[j]) == y {
      var j :| 0 <= j < |xs| && keep(xs[j]) && f(xs[j]) == y;
      FilterMapKeeps(xs, keep, f, j);
    }
  }

  /** The result is empty exactly when no element passes the test. */
  lemma FilterMapEmptyIff<A, B>(xs: seq<A>, keep: A -> bool, f: A -> B)
    ensures FilterMap(xs, keep, f) == [] <==> forall j :: 0 <= j < |xs| ==> !keep(xs[j])
  {
    FilterMapExact(xs, keep, f);
    var idx := Positions(xs, keep, 0);
    if idx != [] {
      assert keep(xs[idx[0]]);
    }
  }

  /** The head of the result is the image of the first element that passes the test. */
  lemma FilterMapFirst<A, B>(xs: seq<A>, keep: A -> bool, f: A -> B, j0: nat)
    requires j0 < |xs| && keep(xs[j0])
    requires forall j :: 0 <= j < j0 ==> !keep(xs[j])
    ensures FilterMap(xs, keep, f) != [] && FilterMap(xs, keep, f)[0] == f(xs[j0])
  {
    FilterMapExact(xs, keep, f);
    var idx := Positions(xs, keep, 0);
    var k :| 0 <= k < |idx| && idx[k] == j0;
    assert idx[0] <= j0;
    assert keep(xs[idx[0]]);
  }

  /** Appending one element appends its image, if it passes the test. */
  lemma {:induction false} FilterMapSnoc<A, B>(xs: seq<A>, x: A, keep: A -> bool, f: A -> B)
    ensures FilterMap(xs + [x], keep, f) == FilterMap(xs, keep, f) + (if keep(x) then [f(x)] else [])
    decreases |xs|
  {
    if xs != [] {
      FilterMapSnoc(xs[1..], x, keep, f);
      assert (xs + [x])[1..] == xs[1..] + [x];
    }
  }

  // ---------------------------------------------------------------------------------------
  // First occurrences.

  /** The distinct values of `xs`, each where it first occurs. */
  function FirstOccurrences<T(==)>(xs: seq<T>): seq<T>
    decreases |xs|
  {
    if xs == [] then []
    else
      var front := FirstOccurrences(xs[..|xs| - 1]);
      if xs[|xs| - 1] in front then front else front + [xs[|xs| - 1]]
  }

  /** Keeping first occurrences loses no value, adds none and leaves no repetition. */
  lemma {:induction false} FirstOccurrencesSpec<T>(xs: seq<T>)
    ensures forall x :: x in FirstOccurrences(xs) <==> x in xs
    ensures forall i, j :: 0 <= i < j < |FirstOccurrences(xs)| ==> FirstOccurrences(xs)[i] != FirstOccurrences(xs)[j]
    decreases |xs|
  {
    if xs != [] {
      var xs' := xs[..|xs| - 1];
      FirstOccurrencesSpec(xs');
      assert xs == xs' + [xs[|xs| - 1]];
    }
  }
}
