/**
 Sorting with duplicates removed, as NumPy's `unique` does for a flat array of
 reals: the result is strictly increasing and holds exactly the input's values.
 A strictly increasing sequence is determined by its set of values, which is
 what lets a caller know the result element by element.
 */
module SortedUnique {

  /** Every element is strictly smaller than every later one. */
  predicate StrictlyIncreasing(s: seq<real>) {
    forall a, b :: 0 <= a < b < |s| ==> s[a] < s[b]
  }

  /** Inserts `x` into a strictly increasing sequence, unless it is already there. */
  function Insert(s: seq<real>, x: real): (r: seq<real>)
    requires StrictlyIncreasing(s)
    ensures StrictlyIncreasing(r)
    ensures forall y :: y in r <==> y in s || y == x
    ensures x in s ==> |r| == |s|
    ensures x !in s ==> |r| == |s| + 1
  {
    if |s| == 0 then [x]
    else if x < s[0] then [x] + s
    else if x == s[0] then s
    else
      assert forall y :: y in s <==> y == s[0] || y in s[1..];
      var tail := Insert(s[1..], x);
      assert forall k :: 0 <= k < |tail| ==> tail[k] in tail && s[0] < tail[k];
      [s[0]] + tail
  }

  /** The sorted, duplicate-free values of `xs`. */
  function Unique(xs: seq<real>): (r: seq<real>)
    ensures StrictlyIncreasing(r)
    ensures forall y :: y in r <==> y in xs
    ensures |r| <= |xs|
  {
    if |xs| == 0 then []
    else
      var init := xs[..|xs| - 1];
      assert forall y :: y in xs <==> y in init || y == xs[|xs| - 1];
      Insert(Unique(init), xs[|xs| - 1])
  }

  /** Two strictly increasing sequences holding the same values are equal. */
  lemma {:induction false} SortedBySet(a: seq<real>, b: seq<real>)
    requires StrictlyIncreasing(a) && StrictlyIncreasing(b)
    requires forall y :: y in a <==> y in b
    ensures a == b
    decreases |a|
  {
    if |b| > 0 {
      assert b[0] in b && b[0] in a;
    }
    if |a| > 0 {
      assert a[0] in a && a[0] in b;
      assert a[0] == b[0];
      forall y
        ensures y in a[1..] <==> y in b[1..]
      {
        assert y in a[1..] <==> y in a && y != a[0];
        assert y in b[1..] <==> y in b && y != b[0];
      }
      SortedBySet(a[1..], b[1..]);
      assert a == [a[0]] + a[1..];
      assert b == [b[0]] + b[1..];
    }
  }
}
