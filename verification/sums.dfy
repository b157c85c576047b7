/** Sums of a weight over a sequence, the shape of `reduce((total, x) => total + w(x), 0)`. */
module Sums {
  import opened Sorting

  function Sum<T>(s: seq<T>, w: T -> int): int
  {
    if |s| == 0 then 0 else w(s[0]) + Sum(s[1..], w)
  }

  lemma {:induction false} SumAppend<T>(a: seq<T>, b: seq<T>, w: T -> int)
    ensures Sum(a + b, w) == Sum(a, w) + Sum(b, w)
  {
    if |a| == 0 {
      assert a + b == b;
    } else {
      assert (a + b)[1..] == a[1..] + b;
      SumAppend(a[1..], b, w);
    }
  }

  /** Taking one term out of a sum. */
  lemma {:induction false} SumRemove<T>(s: seq<T>, j: nat, w: T -> int)
    requires j < |s|
    ensures Sum(s, w) == w(s[j]) + Sum(RemoveAt(s, j), w)
  {
    var r := RemoveAt(s, j);
    if j == 0 {
      assert r == s[1..];
    } else {
      SumRemove(s[1..], j - 1, w);
      RemoveAtCons(s, j);
      assert r[1..] == RemoveAt(s[1..], j - 1);
    }
  }

  /** A sum does not depend on the order of the terms. */
  lemma {:induction false} SumPermutation<T>(a: seq<T>, b: seq<T>, w: T -> int)
    requires multiset(a) == multiset(b)
    ensures Sum(a, w) == Sum(b, w)
    decreases |a|
  {
    if |a| > 0 {
      var x := a[0];
      assert x in multiset(b);
      var j :| 0 <= j < |b| && b[j] == x;
      SumRemove(b, j, w);
      assert a == [x] + a[1..];
      assert multiset(a[1..]) == multiset(RemoveAt(b, j));
      SumPermutation(a[1..], RemoveAt(b, j), w);
    } else {
      assert |b| == |multiset(b)| == 0;
    }
  }

  /** Weights that agree on every term give the same sum. */
  lemma {:induction false} SumSame<T>(s: seq<T>, w: T -> int, u: T -> int)
    requires forall i :: 0 <= i < |s| ==> w(s[i]) == u(s[i])
    ensures Sum(s, w) == Sum(s, u)
  {
    if |s| > 0 {
      SumSame(s[1..], w, u);
    }
  }

  /** A sum whose terms all vanish but one is that one term. */
  lemma SumSingle<T>(s: seq<T>, j: nat, w: T -> int)
    requires j < |s|
    requires forall i :: 0 <= i < |s| && i != j ==> w(s[i]) == 0
    ensures Sum(s, w) == w(s[j])
  {
    SumRemove(s, j, w);
    var rest := RemoveAt(s, j);
    forall i | 0 <= i < |rest|
      ensures w(rest[i]) == 0
    {
      if i < j {
        assert rest[i] == s[i];
      } else {
        assert rest[i] == s[i + 1];
      }
    }
    SumZero(rest, w);
  }

  /** Summing term by term: when each weight splits in two, so does the sum. */
  lemma {:induction false} SumSplit<T>(s: seq<T>, w: T -> int, u: T -> int, v: T -> int)
    requires forall i :: 0 <= i < |s| ==> w(s[i]) == u(s[i]) + v(s[i])
    ensures Sum(s, w) == Sum(s, u) + Sum(s, v)
  {
    if |s| > 0 {
      SumSplit(s[1..], w, u, v);
    }
  }

  lemma {:induction false} SumZero<T>(s: seq<T>, w: T -> int)
    requires forall i :: 0 <= i < |s| ==> w(s[i]) == 0
    ensures Sum(s, w) == 0
  {
    if |s| > 0 {
      SumZero(s[1..], w);
    }
  }
}
