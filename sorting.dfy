/** `Array.prototype.sort` with a comparator, as an in-place insertion sort. */
module Sorting {
  import opened Sequences

  /** While `s[j]` moves left into `s[..i + 1]`: the other elements up to `i` are in order. */
  predicate OrderedApart<T>(s: seq<T>, j: int, i: int, le: (T, T) -> bool)
    requires 0 <= j <= i < |s|
  {
    forall p, q :: 0 <= p < q <= i && p != j && q != j ==> le(s[p], s[q])
  }

  /** `s[j]` is below everything after it up to `i`. */
  predicate BelowUpTo<T>(s: seq<T>, j: int, i: int, le: (T, T) -> bool)
    requires 0 <= j <= i < |s|
  {
    forall q :: j < q <= i ==> le(s[j], s[q])
  }

  /** Swapping `s[j]` with its left neighbour when they are out of order keeps both facts, one place to the left. */
  lemma SwapDown<T(!new)>(s: seq<T>, j: int, i: int, le: (T, T) -> bool)
    requires IsTotalPreorder(le)
    requires 0 < j <= i < |s| && !le(s[j - 1], s[j])
    requires OrderedApart(s, j, i, le) && BelowUpTo(s, j, i, le)
    ensures var t := s[j - 1 := s[j]][j := s[j - 1]];
      OrderedApart(t, j - 1, i, le) && BelowUpTo(t, j - 1, i, le)
  {
    var t := s[j - 1 := s[j]][j := s[j - 1]];
    assert le(s[j], s[j - 1]);
    forall p, q | 0 <= p < q <= i && p != j - 1 && q != j - 1 ensures le(t[p], t[q]) {
      if p == j {
        assert le(s[j - 1], s[q]);
      } else if q == j {
        assert le(s[p], s[j - 1]);
      }
    }
  }

  /** Once `s[j]` is not below its left neighbour (or is first), the prefix up to `i` is sorted. */
  lemma Placed<T(!new)>(s: seq<T>, j: int, i: int, le: (T, T) -> bool)
    requires IsTotalPreorder(le)
    requires 0 <= j <= i < |s| && (j == 0 || le(s[j - 1], s[j]))
    requires OrderedApart(s, j, i, le) && BelowUpTo(s, j, i, le)
    ensures SortedBy(s[..i + 1], le)
  {
    forall p, q | 0 <= p < q <= i ensures le(s[p], s[q]) {
      if q == j && p < j - 1 {
        assert le(s[p], s[j - 1]);
      }
    }
  }

  /** Exchanging two elements keeps the multiset. */
  lemma SwapKeepsMultiset<T>(s: seq<T>, i: int, j: int)
    requires 0 <= i < j < |s|
    ensures multiset(s[i := s[j]][j := s[i]]) == multiset(s)
  {
    var t := s[i := s[j]][j := s[i]];
    assert s == s[..i] + [s[i]] + s[i + 1..j] + [s[j]] + s[j + 1..];
    assert t == s[..i] + [s[j]] + s[i + 1..j] + [s[i]] + s[j + 1..];
  }

  /** Sorts `a` in place so that every earlier element is `le`-below every later one. */
  method SortInPlace<T(!new)>(a: array<T>, le: (T, T) -> bool)
    requires IsTotalPreorder(le)
    modifies a
    ensures SortedBy(a[..], le)
    ensures multiset(a[..]) == old(multiset(a[..]))
  {
    var i := 0;
    while i < a.Length
      invariant 0 <= i <= a.Length
      invariant SortedBy(a[..i], le)
      invariant multiset(a[..]) == old(multiset(a[..]))
    {
      // a[..i] is sorted; move a[i] left to its place
      var j := i;
      assert forall p :: 0 <= p < i ==> a[..i][p] == a[p];
      while j > 0 && !le(a[j - 1], a[j])
        invariant 0 <= j <= i
        invariant OrderedApart(a[..], j, i, le) && BelowUpTo(a[..], j, i, le)
        invariant multiset(a[..]) == old(multiset(a[..]))
      {
        ghost var before := a[..];
        SwapDown(before, j, i, le);
        SwapKeepsMultiset(before, j - 1, j);
        a[j - 1], a[j] := a[j], a[j - 1];
        assert a[..] == before[j - 1 := before[j]][j := before[j - 1]];
        j := j - 1;
      }
      Placed(a[..], j, i, le);
      assert a[..i + 1] == a[..][..i + 1];
      i := i + 1;
    }
    assert a[..] == a[..a.Length];
  }
}
