/** Sequence operations the engine uses as JavaScript array methods: `filter`,
    `splice`, and the notions "sub-sequence", "sorted" and "duplicate-free". */
module Sequences {

  /** `r` is obtained from `s` by deleting elements, keeping the order of the rest. */
  predicate IsSubseq<T(==)>(r: seq<T>, s: seq<T>)
    decreases |s|
  {
    if r == [] then true
    else if s == [] then false
    else if r[0] == s[0] then IsSubseq(r[1..], s[1..])
    else IsSubseq(r, s[1..])
  }

  /** `Array.prototype.filter`: the elements of `s` that satisfy `p`, in order. */
  function Keep<T(!new)>(s: seq<T>, p: T -> bool): (r: seq<T>)
    ensures |r| <= |s|
    ensures forall x :: x in r <==> x in s && p(x)
    ensures forall x :: multiset(r)[x] == if p(x) then multiset(s)[x] else 0
  {
    if s == [] then []
    else
      var rest := Keep(s[1..], p);
      assert s == [s[0]] + s[1..];
      if p(s[0]) then [s[0]] + rest else rest
  }

  /** One step of `Keep`: the first element stays exactly when it passes. */
  lemma KeepCons<T(!new)>(s: seq<T>, p: T -> bool)
    requires s != []
    ensures Keep(s, p) == if p(s[0]) then [s[0]] + Keep(s[1..], p) else Keep(s[1..], p)
  {
  }

  /** `Keep` on two elements of which the first one fails. */
  lemma KeepSecond<T(!new)>(a: T, b: T, p: T -> bool)
    requires !p(a) && p(b)
    ensures Keep([a, b], p) == [b]
  {
    KeepCons([b], p);
    KeepCons([a, b], p);
    assert [a, b][1..] == [b];
  }

  /** `Keep` on three elements of which the middle one fails. */
  lemma KeepOuterTwo<T(!new)>(a: T, b: T, c: T, p: T -> bool)
    requires p(a) && !p(b) && p(c)
    ensures Keep([a, b, c], p) == [a, c]
  {
    KeepCons([c], p);
    KeepCons([b, c], p);
    KeepCons([a, b, c], p);
    assert [a, b, c][1..] == [b, c] && [b, c][1..] == [c];
  }

  /** The kept elements form a sub-sequence of the input. */
  lemma {:induction false} KeepIsSubseq<T(!new)>(s: seq<T>, p: T -> bool)
    ensures IsSubseq(Keep(s, p), s)
  {
    if s != [] {
      KeepIsSubseq(s[1..], p);
      if !p(s[0]) {
        SubseqOfTail(Keep(s[1..], p), s);
      }
    }
  }

  /** A sub-sequence of the tail of `s` is a sub-sequence of `s`. */
  lemma {:induction false} SubseqOfTail<T>(r: seq<T>, s: seq<T>)
    requires s != [] && IsSubseq(r, s[1..])
    ensures IsSubseq(r, s)
    decreases |s|, 1
  {
    if r != [] && r[0] == s[0] {
      SubseqDropFirst(r, s[1..]);
    }
  }

  /** Dropping the first element of a sub-sequence keeps it a sub-sequence. */
  lemma {:induction false} SubseqDropFirst<T>(r: seq<T>, s: seq<T>)
    requires r != [] && IsSubseq(r, s)
    ensures IsSubseq(r[1..], s)
    decreases |s|, 2
  {
    if r[0] == s[0] {
      SubseqOfTail(r[1..], s);
    } else {
      SubseqDropFirst(r, s[1..]);
      SubseqOfTail(r[1..], s);
    }
  }

  /** Filtering keeps everything exactly when every element passes. */
  lemma {:induction false} KeepAll<T(!new)>(s: seq<T>, p: T -> bool)
    ensures Keep(s, p) == s <==> forall i :: 0 <= i < |s| ==> p(s[i])
  {
    if forall i :: 0 <= i < |s| ==> p(s[i]) {
      KeepEveryPassing(s, p);
    } else {
      var i :| 0 <= i < |s| && !p(s[i]);
      assert s[i] in s;
    }
  }

  /** When every element passes, `Keep` gives back its input. */
  lemma {:induction false} KeepEveryPassing<T(!new)>(s: seq<T>, p: T -> bool)
    requires forall i :: 0 <= i < |s| ==> p(s[i])
    ensures Keep(s, p) == s
  {
    if s != [] {
      assert forall i :: 0 <= i < |s[1..]| ==> p(s[1..][i]) by {
        forall i | 0 <= i < |s[1..]| ensures p(s[1..][i]) {
          assert s[1..][i] == s[i + 1];
        }
      }
      KeepEveryPassing(s[1..], p);
      assert s == [s[0]] + s[1..];
    }
  }

  predicate NoDup<T(==)>(s: seq<T>) {
    forall i, j :: 0 <= i < j < |s| ==> s[i] != s[j]
  }

  lemma {:induction false} NoDupCount<T>(s: seq<T>, x: T)
    requires NoDup(s)
    ensures multiset(s)[x] <= 1
  {
    if s != [] {
      NoDupCount(s[1..], x);
      assert s == [s[0]] + s[1..];
      if x == s[0] {
        assert forall k :: 0 <= k < |s[1..]| ==> s[1..][k] == s[k + 1];
        assert x !in s[1..];
      }
    }
  }

  /** Rearranging a duplicate-free sequence leaves it duplicate-free. */
  lemma PermutationKeepsNoDup<T>(s: seq<T>, t: seq<T>)
    requires NoDup(s) && multiset(s) == multiset(t)
    ensures NoDup(t)
  {
    forall i, j | 0 <= i < j < |t| ensures t[i] != t[j] {
      if t[i] == t[j] {
        assert t == t[..i] + [t[i]] + t[i + 1..j] + [t[j]] + t[j + 1..];
        assert multiset(t)[t[i]] >= 2;
        NoDupCount(s, t[i]);
      }
    }
  }

  /** Every earlier element is `le`-below every later one. */
  predicate SortedBy<T>(s: seq<T>, le: (T, T) -> bool) {
    forall i, j :: 0 <= i < j < |s| ==> le(s[i], s[j])
  }

  ghost predicate IsTotalPreorder<T(!new)>(le: (T, T) -> bool) {
    && (forall x, y :: le(x, y) || le(y, x))
    && (forall x, y, z :: le(x, y) && le(y, z) ==> le(x, z))
  }

  /** `splice(i, 1)`: the sequence without its element at index `i`. */
  function RemoveAt<T>(s: seq<T>, i: nat): (r: seq<T>)
    requires i < |s|
    ensures |r| == |s| - 1
    ensures forall k :: 0 <= k < |r| ==> r[k] == if k < i then s[k] else s[k + 1]
  {
    s[..i] + s[i + 1..]
  }

  /** Removing at `i` takes exactly one copy of `s[i]` out of the multiset. */
  lemma RemoveAtMultiset<T>(s: seq<T>, i: nat)
    requires i < |s|
    ensures multiset(RemoveAt(s, i)) + multiset{s[i]} == multiset(s)
  {
    assert s == s[..i] + [s[i]] + s[i + 1..];
  }

  /** `splice(i, 0, x)`: `x` inserted so that it lands at index `i`. */
  function InsertAt<T>(s: seq<T>, i: nat, x: T): (r: seq<T>)
    requires i <= |s|
    ensures |r| == |s| + 1 && r[i] == x
    ensures forall k :: 0 <= k < |s| ==> s[k] == if k < i then r[k] else r[k + 1]
  {
    s[..i] + [x] + s[i..]
  }

  /** Inserting `x` adds exactly one copy of it to the multiset. */
  lemma InsertAtMultiset<T>(s: seq<T>, i: nat, x: T)
    requires i <= |s|
    ensures multiset(InsertAt(s, i, x)) == multiset(s) + multiset{x}
  {
    assert s == s[..i] + s[i..];
  }

  /** A sequence is fixed by its element at `k` and by what is left once that element is removed. */
  lemma RemoveAtDetermines<T>(a: seq<T>, b: seq<T>, k: nat)
    requires |a| == |b| && k < |a| && a[k] == b[k] && RemoveAt(a, k) == RemoveAt(b, k)
    ensures a == b
  {
    var r := RemoveAt(a, k);
    assert r == a[..k] + a[k + 1..] == b[..k] + b[k + 1..];
    assert a[..k] == r[..k] == b[..k];
    assert a[k + 1..] == r[k..] == b[k + 1..];
    assert a == a[..k] + [a[k]] + a[k + 1..];
    assert b == b[..k] + [b[k]] + b[k + 1..];
  }

  /** Inserting at `i` and then removing at `i` gives back the original sequence. */
  lemma RemoveInserted<T>(s: seq<T>, i: nat, x: T)
    requires i <= |s|
    ensures RemoveAt(InsertAt(s, i, x), i) == s
  {
  }

  /** Filtering by three predicates at once is filtering by each in turn. */
  lemma {:induction false} KeepThree<T(!new)>(s: seq<T>, all: T -> bool, p: T -> bool, q: T -> bool, r: T -> bool)
    requires forall x :: all(x) == (p(x) && q(x) && r(x))
    ensures Keep(s, all) == Keep(Keep(Keep(s, p), q), r)
  {
    if s != [] {
      KeepThree(s[1..], all, p, q, r);
      if p(s[0]) {
        assert Keep(s, p)[1..] == Keep(s[1..], p);
        if q(s[0]) {
          assert Keep(Keep(s, p), q)[1..] == Keep(Keep(s[1..], p), q);
        }
      }
    }
  }
}
