/**
 Stable sorting by an integer key, as `Array.prototype.sort` does with a
 numeric comparator (`(a, b) => key(a) - key(b)`): ECMAScript requires that
 sort to be stable, so equal keys keep their relative order.
 */
module Sorting {
  import opened Common

  /** `s` is ordered by ascending `key`. */
  predicate SortedBy<T>(s: seq<T>, key: T -> int) {
    forall i, j :: 0 <= i < j < |s| ==> key(s[i]) <= key(s[j])
  }

  /** `Array.prototype.splice(k, 0, x)`: `x` is placed at index `k`. */
  function InsertAt<T>(s: seq<T>, k: nat, x: T): (r: seq<T>)
    requires k <= |s|
    ensures |r| == |s| + 1
    ensures r[k] == x
    ensures forall i :: 0 <= i < k ==> r[i] == s[i]
    ensures forall i :: k < i < |r| ==> r[i] == s[i - 1]
    ensures multiset(r) == multiset(s) + multiset{x}
  {
    assert s == s[..k] + s[k..];
    s[..k] + [x] + s[k..]
  }

  /** The element at index `k` is taken out; the inverse of `InsertAt`. */
  function RemoveAt<T>(s: seq<T>, k: nat): (r: seq<T>)
    requires k < |s|
    ensures |r| == |s| - 1
    ensures forall i :: 0 <= i < k ==> r[i] == s[i]
    ensures forall i :: k < i < |s| ==> r[i - 1] == s[i]
    ensures multiset(r) == multiset(s) - multiset{s[k]}
  {
    assert s == s[..k] + [s[k]] + s[k + 1..];
    s[..k] + s[k + 1..]
  }

  /** Removing past the head leaves the head in front. */
  lemma RemoveAtCons<T>(s: seq<T>, k: nat)
    requires 0 < k < |s|
    ensures RemoveAt(s, k) == [s[0]] + RemoveAt(s[1..], k - 1)
  {
    assert s[..k] == [s[0]] + s[1..][..k - 1];
    assert s[k + 1..] == s[1..][k..];
  }

  lemma RemoveInsert<T>(s: seq<T>, k: nat, x: T)
    requires k <= |s|
    ensures RemoveAt(InsertAt(s, k, x), k) == s
  {
  }

  /** Number of elements whose key is strictly below `v`. */
  function CountBelow<T>(s: seq<T>, key: T -> int, v: int): (n: nat)
    ensures n <= |s|
  {
    if |s| == 0 then 0
    else (if key(s[0]) < v then 1 else 0) + CountBelow(s[1..], key, v)
  }

  /** In a sorted sequence the elements keyed below `v` are exactly a prefix. */
  lemma {:induction false} CountBelowSplitsSorted<T>(s: seq<T>, key: T -> int, v: int)
    requires SortedBy(s, key)
    ensures forall i :: 0 <= i < CountBelow(s, key, v) ==> key(s[i]) < v
    ensures forall i :: CountBelow(s, key, v) <= i < |s| ==> v <= key(s[i])
  {
    if |s| > 0 {
      CountBelowSplitsSorted(s[1..], key, v);
    }
  }

  /** Putting `x` after every element keyed below it keeps a sorted sequence sorted. */
  lemma InsertKeepsSorted<T>(t: seq<T>, key: T -> int, x: T)
    requires SortedBy(t, key)
    ensures SortedBy(InsertAt(t, CountBelow(t, key, key(x)), x), key)
  {
    CountBelowSplitsSorted(t, key, key(x));
  }

  /**
   Stable insertion sort, ascending by `key`: the head goes in front of every
   element of the sorted tail whose key is not below its own, so it stays
   ahead of later elements with the same key.
   */
  function SortBy<T>(s: seq<T>, key: T -> int): (r: seq<T>)
    ensures |r| == |s|
    ensures multiset(r) == multiset(s)
    ensures SortedBy(r, key)
    decreases |s|
  {
    if |s| == 0 then []
    else
      var t := SortBy(s[1..], key);
      InsertKeepsSorted(t, key, s[0]);
      assert s == [s[0]] + s[1..];
      InsertAt(t, CountBelow(t, key, key(s[0])), s[0])
  }

  /** The elements whose key equals `v`, in their order of appearance. */
  function KeyClass<T>(s: seq<T>, key: T -> int, v: int): seq<T>
  {
    if |s| == 0 then []
    else (if key(s[0]) == v then [s[0]] else []) + KeyClass(s[1..], key, v)
  }

  lemma {:induction false} KeyClassAppend<T>(a: seq<T>, b: seq<T>, key: T -> int, v: int)
    ensures KeyClass(a + b, key, v) == KeyClass(a, key, v) + KeyClass(b, key, v)
  {
    if |a| == 0 {
      assert a + b == b;
    } else {
      var c := a + b;
      var head := if key(a[0]) == v then [a[0]] else [];
      assert c[0] == a[0];
      assert c[1..] == a[1..] + b;
      KeyClassAppend(a[1..], b, key, v);
      assert KeyClass(c, key, v) == head + KeyClass(c[1..], key, v);
      assert KeyClass(a, key, v) == head + KeyClass(a[1..], key, v);
    }
  }

  lemma {:induction false} KeyClassNone<T>(s: seq<T>, key: T -> int, v: int)
    requires forall i :: 0 <= i < |s| ==> key(s[i]) != v
    ensures KeyClass(s, key, v) == []
  {
    if |s| > 0 {
      KeyClassNone(s[1..], key, v);
    }
  }

  /** Inserting `x` after only lower-keyed elements puts it at the head of its key class. */
  lemma InsertHeadsKeyClass<T>(t: seq<T>, k: nat, x: T, key: T -> int, v: int)
    requires k <= |t|
    requires forall i :: 0 <= i < k ==> key(t[i]) < key(x)
    ensures KeyClass(InsertAt(t, k, x), key, v) == (if key(x) == v then [x] else []) + KeyClass(t, key, v)
  {
    var front, back := t[..k], t[k..];
    var tail := [x] + back;
    assert t == front + back;
    assert InsertAt(t, k, x) == front + tail;
    KeyClassAppend(front, back, key, v);
    KeyClassAppend(front, tail, key, v);
    assert tail[1..] == back;
    if key(x) == v {
      KeyClassNone(front, key, v);
    }
  }

  /** Stability: sorting keeps the relative order of elements with equal keys. */
  lemma {:induction false} SortByStable<T>(s: seq<T>, key: T -> int, v: int)
    ensures KeyClass(SortBy(s, key), key, v) == KeyClass(s, key, v)
    decreases |s|
  {
    if |s| > 0 {
      var x := s[0];
      var t := SortBy(s[1..], key);
      var k := CountBelow(t, key, key(x));
      assert SortBy(s, key) == InsertAt(t, k, x);
      SortByStable(s[1..], key, v);
      CountBelowSplitsSorted(t, key, key(x));
      InsertHeadsKeyClass(t, k, x, key, v);
    }
  }

  /** `Array.prototype.find` with the test `key(e) === v`: the first such element. */
  function FindKey<T>(s: seq<T>, key: T -> int, v: int): (r: Option<T>)
    ensures r.Some? ==> r.value in s && key(r.value) == v
    ensures r.None? <==> forall i :: 0 <= i < |s| ==> key(s[i]) != v
  {
    if |s| == 0 then None
    else if key(s[0]) == v then Some(s[0])
    else FindKey(s[1..], key, v)
  }

  /** The element found is the head of the elements with that key. */
  lemma {:induction false} FindKeyHeadsKeyClass<T>(s: seq<T>, key: T -> int, v: int)
    ensures FindKey(s, key, v) == (if KeyClass(s, key, v) == [] then None else Some(KeyClass(s, key, v)[0]))
  {
    if |s| > 0 {
      FindKeyHeadsKeyClass(s[1..], key, v);
    }
  }

  /** Because the sort is stable, searching the sorted sequence finds what searching the original finds. */
  lemma FindKeyAfterSort<T>(s: seq<T>, key: T -> int, v: int)
    ensures FindKey(SortBy(s, key), key, v) == FindKey(s, key, v)
  {
    FindKeyHeadsKeyClass(s, key, v);
    FindKeyHeadsKeyClass(SortBy(s, key), key, v);
    SortByStable(s, key, v);
  }

  lemma {:induction false} CountBelowAppend<T>(a: seq<T>, b: seq<T>, key: T -> int, v: int)
    ensures CountBelow(a + b, key, v) == CountBelow(a, key, v) + CountBelow(b, key, v)
  {
    if |a| == 0 {
      assert a + b == b;
    } else {
      assert (a + b)[1..] == a[1..] + b;
      CountBelowAppend(a[1..], b, key, v);
    }
  }

  /** Taking one element out lowers the count by one exactly when that element is keyed below `v`. */
  lemma {:induction false} CountBelowRemove<T>(s: seq<T>, i: nat, key: T -> int, v: int)
    requires i < |s|
    ensures CountBelow(s, key, v) == (if key(s[i]) < v then 1 else 0) + CountBelow(RemoveAt(s, i), key, v)
  {
    var r := RemoveAt(s, i);
    if i == 0 {
      assert r == s[1..];
    } else {
      CountBelowRemove(s[1..], i - 1, key, v);
      RemoveAtCons(s, i);
      assert r[1..] == RemoveAt(s[1..], i - 1);
    }
  }

  /** Counting does not depend on order: a permutation has the same count. */
  lemma {:induction false} CountBelowPermutation<T>(a: seq<T>, b: seq<T>, key: T -> int, v: int)
    requires multiset(a) == multiset(b)
    ensures CountBelow(a, key, v) == CountBelow(b, key, v)
    decreases |a|
  {
    if |a| > 0 {
      var x := a[0];
      assert x in multiset(b);
      var j :| 0 <= j < |b| && b[j] == x;
      var rest := RemoveAt(b, j);
      assert b == b[..j] + [x] + b[j + 1..];
      CountBelowAppend(b[..j] + [x], b[j + 1..], key, v);
      CountBelowAppend(b[..j], [x], key, v);
      CountBelowAppend(b[..j], b[j + 1..], key, v);
      assert a == [x] + a[1..];
      assert multiset(a[1..]) == multiset(rest);
      CountBelowPermutation(a[1..], rest, key, v);
    } else {
      assert |b| == |multiset(b)| == 0;
    }
  }
}
