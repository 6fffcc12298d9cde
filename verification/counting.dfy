/** Counting the elements of a sequence that satisfy a predicate, and the fact
    that the count does not depend on the order the elements arrive in. */
module Counting {

  function Count<T>(s: seq<T>, p: T -> bool): (n: nat)
    ensures n <= |s|
  {
    if |s| == 0 then 0 else (if p(s[0]) then 1 else 0) + Count(s[1..], p)
  }

  /** The consecutive numbers `first`, `first + 1`, ..., `first + count - 1`; from 0
      these are the indices `enumerate` yields. */
  function Range(first: nat, count: nat): seq<nat> {
    seq(count, j requires 0 <= j < count => first + j)
  }

  /** A non-empty range is its first number in front of the rest. */
  lemma RangeCons(first: nat, count: nat)
    requires count > 0
    ensures Range(first, count) == [first] + Range(first + 1, count - 1)
  {
    var r := [first] + Range(first + 1, count - 1);
    assert forall j :: 0 <= j < count ==> r[j] == first + j;
  }

  lemma {:induction false} CountAppend<T>(a: seq<T>, b: seq<T>, p: T -> bool)
    ensures Count(a + b, p) == Count(a, p) + Count(b, p)
  {
    if |a| == 0 {
      assert a + b == b;
    } else {
      assert (a + b)[1..] == a[1..] + b;
      CountAppend(a[1..], b, p);
    }
  }

  /** Taking out the element at `j` takes exactly that element out of the multiset. */
  lemma {:induction false} MultisetRemoveAt<T>(b: seq<T>, j: nat)
    requires j < |b|
    ensures multiset(b[..j] + b[j + 1..]) == multiset(b) - multiset{b[j]}
  {
    assert b == b[..j] + [b[j]] + b[j + 1..];
    assert multiset(b) == multiset(b[..j]) + multiset{b[j]} + multiset(b[j + 1..]);
  }

  /** Dropping the head takes exactly the head out of the multiset. */
  lemma {:induction false} MultisetTail<T>(a: seq<T>)
    requires |a| > 0
    ensures multiset(a[1..]) == multiset(a) - multiset{a[0]}
  {
    assert a == [a[0]] + a[1..];
  }

  /** Taking out the element at `j` lowers the count by what that element contributed. */
  lemma {:induction false} CountRemoveAt<T>(b: seq<T>, j: nat, p: T -> bool)
    requires j < |b|
    ensures Count(b, p) == Count(b[..j] + b[j + 1..], p) + (if p(b[j]) then 1 else 0)
  {
    var pre, mid, post := b[..j], [b[j]], b[j + 1..];
    assert b == (pre + mid) + post;
    CountAppend(pre + mid, post, p);
    CountAppend(pre, mid, p);
    CountAppend(pre, post, p);
    assert Count(mid, p) == (if p(b[j]) then 1 else 0) by {
      assert mid[1..] == [];
    }
  }

  /** A position at which an element of the multiset occurs. */
  lemma PositionOf<T>(b: seq<T>, x: T) returns (j: nat)
    requires x in multiset(b)
    ensures j < |b| && b[j] == x
  {
    assert x in b;
    j :| 0 <= j < |b| && b[j] == x;
  }

  /** Two arrangements of the same multiset of elements have the same count. */
  lemma {:induction false} CountPermutation<T>(a: seq<T>, b: seq<T>, p: T -> bool)
    requires multiset(a) == multiset(b)
    ensures Count(a, p) == Count(b, p)
    decreases |a|
  {
    if |a| == 0 {
      assert |multiset(b)| == 0;
      assert b == [];
    } else {
      var x := a[0];
      assert x in multiset(a);
      var j := PositionOf(b, x);
      var rest := b[..j] + b[j + 1..];
      MultisetTail(a);
      MultisetRemoveAt(b, j);
      assert multiset(a[1..]) == multiset(rest);
      CountPermutation(a[1..], rest, p);
      CountRemoveAt(b, j, p);
    }
  }

  /** Counting the indices `Range(0, |s|)` whose element satisfies `p` is counting the elements. */
  lemma {:induction false} CountOverIndices<T>(s: seq<T>, p: T -> bool, q: nat -> bool)
    requires forall i :: 0 <= i < |s| ==> q(i) == p(s[i])
    ensures Count(Range(0, |s|), q) == Count(s, p)
  {
    if |s| > 0 {
      var n := |s| - 1;
      assert Range(0, |s|) == Range(0, n) + [n];
      assert s == s[..n] + [s[n]];
      CountAppend<nat>(Range(0, n), [n], q);
      CountAppend(s[..n], [s[n]], p);
      assert forall i :: 0 <= i < |s[..n]| ==> q(i) == p(s[..n][i]);
      CountOverIndices(s[..n], p, q);
      assert Count<nat>([n], q) == Count([s[n]], p);
    }
  }
}
