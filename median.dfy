/** `get_median`: the median of a list of numbers, which the source finds by
    sorting the list in place and averaging the element at `n // 2` and its
    mirror image `~(n // 2)` (Python's index `-(n // 2) - 1`, counted from the
    end of the list). */
module Median {
  import opened Results

  predicate Sorted(s: seq<int>) {
    forall p, q :: 0 <= p < q < |s| ==> s[p] <= s[q]
  }

  lemma SortedTail(s: seq<int>)
    requires Sorted(s) && s != []
    ensures Sorted(s[1..])
  {
    assert forall q :: 0 <= q < |s| - 1 ==> s[1..][q] == s[q + 1];
  }

  /** The first element of a sorted sequence is its least. */
  lemma SortedHeadIsLeast(s: seq<int>, x: int)
    requires Sorted(s) && x in multiset(s)
    ensures s[0] <= x
  {
    assert x in s;
    var j :| 0 <= j < |s| && s[j] == x;
  }

  lemma SplitHead(s: seq<int>)
    requires s != []
    ensures multiset(s) == multiset{s[0]} + multiset(s[1..])
  {
    assert s == [s[0]] + s[1..];
  }

  /** `x` inserted into the sorted `t` before its first element that is not smaller. */
  function Insert(x: int, t: seq<int>): (r: seq<int>)
    requires Sorted(t)
    ensures Sorted(r) && multiset(r) == multiset(t) + multiset{x}
  {
    if t == [] || x <= t[0] then
      SortedCons(x, t);
      SplitHead([x] + t);
      assert ([x] + t)[1..] == t;
      [x] + t
    else
      SortedTail(t);
      SplitHead(t);
      var u := Insert(x, t[1..]);
      forall v | v in multiset(u) ensures t[0] <= v {
        if v != x {
          SortedHeadIsLeast(t, v);
        }
      }
      SortedCons(t[0], u);
      SplitHead([t[0]] + u);
      assert ([t[0]] + u)[1..] == u;
      [t[0]] + u
  }

  /** A sorted sequence stays sorted with an element in front that is at most all of it. */
  lemma SortedCons(x: int, t: seq<int>)
    requires Sorted(t)
    requires forall v | v in multiset(t) :: x <= v
    ensures Sorted([x] + t)
  {
    var r := [x] + t;
    forall p, q | 0 <= p < q < |r| ensures r[p] <= r[q] {
      if p == 0 {
        assert r[q] == t[q - 1] && t[q - 1] in multiset(t);
      } else {
        assert r[p] == t[p - 1] && r[q] == t[q - 1];
      }
    }
  }

  /** A reference sort: the elements of `s` in non-decreasing order. */
  function SortSeq(s: seq<int>): (r: seq<int>)
    ensures Sorted(r) && multiset(r) == multiset(s)
  {
    if s == [] then []
    else
      SplitHead(s);
      Insert(s[0], SortSeq(s[1..]))
  }

  /** Two sorted arrangements of the same elements start alike and go on with
      the same remaining elements. */
  lemma SameHead(a: seq<int>, b: seq<int>)
    requires Sorted(a) && Sorted(b) && multiset(a) == multiset(b) && a != [] && b != []
    ensures a[0] == b[0] && multiset(a[1..]) == multiset(b[1..])
  {
    SplitHead(a);
    SplitHead(b);
    assert a[0] in multiset(b) && b[0] in multiset(a);
    SortedHeadIsLeast(a, b[0]);
    SortedHeadIsLeast(b, a[0]);
    assert multiset(a[1..]) == multiset(a) - multiset{a[0]};
    assert multiset(b[1..]) == multiset(b) - multiset{b[0]};
  }

  /** A sequence has only one sorted arrangement: whichever algorithm sorts
      the list, the result is the same. */
  lemma {:induction false} SortedUnique(a: seq<int>, b: seq<int>)
    requires Sorted(a) && Sorted(b) && multiset(a) == multiset(b)
    ensures a == b
    decreases |a|
  {
    assert |a| == |multiset(a)| == |b|;
    if a != [] {
      SameHead(a, b);
      SortedTail(a);
      SortedTail(b);
      SortedUnique(a[1..], b[1..]);
      assert a == [a[0]] + a[1..] && b == [b[0]] + b[1..];
    }
  }

  /** The median of the sorted, non-empty `s`: the middle element when the
      length is odd, the mean of the two middle elements when it is even. */
  function MedianOfSorted(s: seq<int>): (r: real)
    requires |s| > 0
    ensures |s| % 2 == 1 ==> r == s[|s| / 2] as real
    ensures |s| % 2 == 0 ==> r == (s[|s| / 2 - 1] + s[|s| / 2]) as real / 2.0
  {
    var half := |s| / 2;
    (s[half] + s[|s| - 1 - half]) as real / 2.0
  }

  /** What `get_median` returns: `None` for the empty list, else the median
      of the list's sorted arrangement. */
  function Median(s: seq<int>): (r: Option<real>)
    ensures r.None? <==> s == []
  {
    if s == [] then None else Some(MedianOfSorted(SortSeq(s)))
  }

  /** The median of a sorted list is read off it directly. */
  lemma MedianOfSortedList(s: seq<int>)
    requires Sorted(s) && s != []
    ensures Median(s) == Some(MedianOfSorted(s))
  {
    SortedUnique(SortSeq(s), s);
  }

  /** The median depends only on the elements, not on their order. */
  lemma MedianIgnoresOrder(s: seq<int>, t: seq<int>)
    requires multiset(s) == multiset(t)
    ensures Median(s) == Median(t)
  {
    assert |s| == |multiset(s)| == |t|;
    SortedUnique(SortSeq(s), SortSeq(t));
  }

  /** The median lies between the least and the greatest element. */
  lemma MedianBetweenExtremes(s: seq<int>)
    requires Sorted(s) && s != []
    ensures s[0] as real <= MedianOfSorted(s) <= s[|s| - 1] as real
  {
  }

  /** Exchanges two elements of `a`. */
  method Swap(a: array<int>, i: nat, j: nat)
    requires i < a.Length && j < a.Length
    modifies a
    ensures a[..] == old(a[..])[i := old(a[j])][j := old(a[i])]
    ensures multiset(a[..]) == multiset(old(a[..]))
  {
    a[i], a[j] := a[j], a[i];
  }

  /** `list.sort()`: sorts `a` in place into a permutation of its elements. */
  method Sort(a: array<int>)
    modifies a
    ensures Sorted(a[..]) && multiset(a[..]) == multiset(old(a[..]))
  {
    for i := 0 to a.Length
      invariant Sorted(a[..i])
      invariant multiset(a[..]) == multiset(old(a[..]))
    {
      var j := i;
      while j > 0 && a[j - 1] > a[j]
        invariant 0 <= j <= i
        invariant multiset(a[..]) == multiset(old(a[..]))
        invariant forall p, q :: 0 <= p < q <= i && p != j && q != j ==> a[p] <= a[q]
        invariant forall q :: j < q <= i ==> a[j] < a[q]
        decreases j
      {
        Swap(a, j - 1, j);
        j := j - 1;
      }
    }
  }

  method GetMedian(a: array<int>) returns (m: Option<real>)
    modifies a
    ensures m == Median(old(a[..]))
    ensures Sorted(a[..]) && multiset(a[..]) == multiset(old(a[..]))
  {
    if a.Length == 0 {
      return None;
    }
    Sort(a);
    SortedUnique(a[..], SortSeq(old(a[..])));
    var half := a.Length / 2;
    var mirror := -half - 1; // `~half`; a negative index counts from the end
    return Some((a[half] + a[a.Length + mirror]) as real / 2.0);
  }
}
