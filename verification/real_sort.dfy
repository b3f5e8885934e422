/** Ascending sort of a sequence of reals, the model of `np.sort`: the result
    is the unique sorted permutation of the input. */
module RealSort {

  predicate Sorted(s: seq<real>)
  {
    forall i, j :: 0 <= i < j < |s| ==> s[i] <= s[j]
  }

  /** Every element of `s` is at least `a`. */
  predicate AtLeast(a: real, s: seq<real>)
  {
    forall k :: 0 <= k < |s| ==> a <= s[k]
  }

  /** Inserts `x` into a sorted sequence, keeping it sorted. */
  function Insert(x: real, s: seq<real>): (r: seq<real>)
    requires Sorted(s)
    ensures Sorted(r)
    ensures multiset(r) == multiset(s) + multiset{x}
    ensures |r| == |s| + 1
  {
    if |s| == 0 then [x]
    else if x <= s[0] then
      HeadBound(s);
      PrependSorted(x, s);
      [x] + s
    else
      var tail := Insert(x, s[1..]);
      TailBound(x, s, tail);
      PrependSorted(s[0], tail);
      [s[0]] + tail
  }

  /** The head of a sorted sequence bounds its elements from below. */
  lemma HeadBound(s: seq<real>)
    requires Sorted(s) && |s| > 0
    ensures AtLeast(s[0], s)
  {
  }

  /** Inserting `x > s[0]` into the rest of `s` gives elements that are
      all at least `s[0]`, and puts back every element of `s`. */
  lemma TailBound(x: real, s: seq<real>, tail: seq<real>)
    requires Sorted(s) && |s| > 0 && s[0] < x
    requires multiset(tail) == multiset(s[1..]) + multiset{x}
    ensures AtLeast(s[0], tail)
    ensures multiset([s[0]] + tail) == multiset(s) + multiset{x}
  {
    forall k | 0 <= k < |tail|
      ensures s[0] <= tail[k]
    {
      assert tail[k] in multiset(tail);
      if tail[k] != x {
        assert tail[k] in multiset(s[1..]);
        var j :| 0 <= j < |s[1..]| && s[1..][j] == tail[k];
        assert s[j + 1] == tail[k];
      }
    }
    assert s == [s[0]] + s[1..];
  }

  /** A lower bound of a sorted sequence can be put in front of it. */
  lemma PrependSorted(a: real, t: seq<real>)
    requires Sorted(t) && AtLeast(a, t)
    ensures Sorted([a] + t)
  {
    var r := [a] + t;
    forall i, j | 0 <= i < j < |r|
      ensures r[i] <= r[j]
    {
      if i > 0 {
        assert r[i] == t[i - 1] && r[j] == t[j - 1];
      } else {
        assert r[j] == t[j - 1];
      }
    }
  }

  /** Insertion sort. */
  function InsertionSort(s: seq<real>): (r: seq<real>)
    ensures Sorted(r)
    ensures multiset(r) == multiset(s)
    ensures |r| == |s|
  {
    if |s| == 0 then []
    else
      assert s == [s[0]] + s[1..];
      Insert(s[0], InsertionSort(s[1..]))
  }

  /** `np.sort` of a one-dimensional array. Kept apart from the recursive
      definition so that arithmetic over sorted data sees one plain term. */
  function Sort(s: seq<real>): (r: seq<real>)
    ensures Sorted(r)
    ensures multiset(r) == multiset(s)
    ensures |r| == |s|
  {
    InsertionSort(s)
  }

  /** A sorted permutation is unique: any sorted rearrangement of `s` is
      `Sort(s)`, so `Sort` stands for every correct sorting routine. */
  lemma {:induction false} SortedPermutationUnique(a: seq<real>, b: seq<real>)
    requires Sorted(a) && Sorted(b)
    requires multiset(a) == multiset(b)
    ensures a == b
    decreases |a|
  {
    if |a| == 0 {
      assert |b| == |multiset(b)| == 0;
    } else {
      assert |b| == |multiset(b)| == |multiset(a)| == |a|;
      SameMinimum(a, b);
      SameMinimum(b, a);
      assert a == [a[0]] + a[1..];
      assert b == [b[0]] + b[1..];
      assert multiset(a[1..]) == multiset(a) - multiset{a[0]};
      assert multiset(b[1..]) == multiset(b) - multiset{b[0]};
      SortedPermutationUnique(a[1..], b[1..]);
    }
  }

  /** The head of a sorted sequence is at most every element of a
      permutation of it. */
  lemma SameMinimum(a: seq<real>, b: seq<real>)
    requires Sorted(a) && |a| > 0 && |b| > 0 && multiset(a) == multiset(b)
    ensures a[0] <= b[0]
  {
    assert b[0] in multiset(a);
    var j :| 0 <= j < |a| && a[j] == b[0];
    assert a[0] <= a[j];
  }
}
