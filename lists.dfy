/**
 * Python's filtering list comprehension `[f(x) for x in xs if p(x)]`, with the facts
 * needed to say which elements of the input its first results come from.
 */
module Lists {
  /** `[f(x) for x in xs if p(x)]`. */
  function Comprehension<T, U>(xs: seq<T>, p: T -> bool, f: T -> U): (r: seq<U>)
    ensures |r| <= |xs|
  {
    if xs == [] then []
    else (if p(xs[0]) then [f(xs[0])] else []) + Comprehension(xs[1..], p, f)
  }

  /** The first index at or after `from` whose element satisfies `p`, or `|xs|` if there is none. */
  function FirstWhere<T>(xs: seq<T>, p: T -> bool, from: nat): (i: nat)
    requires from <= |xs|
    ensures from <= i <= |xs|
    ensures i < |xs| ==> p(xs[i])
    ensures forall k :: from <= k < i ==> !p(xs[k])
    decreases |xs| - from
  {
    if from == |xs| || p(xs[from]) then from else FirstWhere(xs, p, from + 1)
  }

  /** The comprehension over `xs[from..]` starts with the first selected element and goes on after it. */
  lemma {:induction false} ComprehensionFrom<T, U>(xs: seq<T>, p: T -> bool, f: T -> U, from: nat)
    requires from <= |xs|
    ensures var i := FirstWhere(xs, p, from);
            Comprehension(xs[from..], p, f) ==
              if i == |xs| then [] else [f(xs[i])] + Comprehension(xs[i + 1..], p, f)
    decreases |xs| - from
  {
    if from < |xs| {
      assert xs[from..][1..] == xs[from + 1..];
      if !p(xs[from]) {
        ComprehensionFrom(xs, p, f, from + 1);
      }
    }
  }

  /** The first two results come from the first two selected elements, and exist exactly when those do. */
  lemma FirstTwoResults<T, U>(xs: seq<T>, p: T -> bool, f: T -> U)
    ensures var r := Comprehension(xs, p, f);
            var i := FirstWhere(xs, p, 0);
            var j := if i < |xs| then FirstWhere(xs, p, i + 1) else |xs|;
            && (|r| >= 2 <==> j < |xs|)
            && (j < |xs| ==> i < j && r[0] == f(xs[i]) && r[1] == f(xs[j]))
  {
    ComprehensionFrom(xs, p, f, 0);
    assert xs[0..] == xs;
    var i := FirstWhere(xs, p, 0);
    if i < |xs| {
      ComprehensionFrom(xs, p, f, i + 1);
    }
  }

  /** There are two results exactly when two elements, one before the other, are selected. */
  lemma TwoResultsIff<T, U>(xs: seq<T>, p: T -> bool, f: T -> U)
    ensures |Comprehension(xs, p, f)| >= 2 <==>
              exists i, j :: 0 <= i < j < |xs| && p(xs[i]) && p(xs[j])
  {
    FirstTwoResults(xs, p, f);
    var i := FirstWhere(xs, p, 0);
    var j := if i < |xs| then FirstWhere(xs, p, i + 1) else |xs|;
    if exists a, b :: 0 <= a < b < |xs| && p(xs[a]) && p(xs[b]) {
      var a, b :| 0 <= a < b < |xs| && p(xs[a]) && p(xs[b]);
      assert i <= a;
      assert j <= b;
    }
  }

  /** `y` is `f(x)` for some element `x` of `xs` that `p` selects. */
  ghost predicate ImageOf<T, U>(xs: seq<T>, p: T -> bool, f: T -> U, y: U) {
    exists i :: 0 <= i < |xs| && p(xs[i]) && y == f(xs[i])
  }

  /** Every result is the image of a selected element of the input. */
  lemma {:induction false} ComprehensionImages<T, U>(xs: seq<T>, p: T -> bool, f: T -> U)
    ensures forall k :: 0 <= k < |Comprehension(xs, p, f)| ==> ImageOf(xs, p, f, Comprehension(xs, p, f)[k])
  {
    if xs != [] {
      var ys := xs[1..];
      ComprehensionImages(ys, p, f);
      var head := if p(xs[0]) then [f(xs[0])] else [];
      var tail := Comprehension(ys, p, f);
      var r := Comprehension(xs, p, f);
      assert r == head + tail;
      forall k | 0 <= k < |r|
        ensures ImageOf(xs, p, f, r[k])
      {
        if k < |head| {
          assert p(xs[0]) && r[k] == f(xs[0]);
        } else {
          assert r[k] == tail[k - |head|];
          assert ImageOf(ys, p, f, tail[k - |head|]);
          var i :| 0 <= i < |ys| && p(ys[i]) && tail[k - |head|] == f(ys[i]);
          assert ys[i] == xs[i + 1];
        }
      }
    }
  }

  /** Two selected elements give two results, in order. */
  lemma ComprehensionOfTwo<T, U>(x: T, y: T, p: T -> bool, f: T -> U)
    requires p(x) && p(y)
    ensures Comprehension([x, y], p, f) == [f(x), f(y)]
  {
    assert [x, y][1..] == [y];
    assert [y][1..] == [];
  }
}
