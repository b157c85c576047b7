/** Score records, what a score file can hold, and the list operations both store layouts use. */
module Scores {
  import opened Common
  import opened Sorting

  /** One leaderboard entry: the submitter's address, which identifies the player, and the score. */
  datatype Score = Score(ip: string, score: int)

  /** What reading and parsing a score file yields. */
  datatype Content =
    | Records(entries: seq<Score>)  // a JSON list of score records
    | Unreadable                    // the read failed, or the file is empty
    | Garbled                       // text on which `JSON.parse` throws

  /** Highest score first. */
  predicate SortedDesc(s: seq<Score>) {
    forall i, j :: 0 <= i < j < |s| ==> s[i].score >= s[j].score
  }

  /** The sort key that the comparator `(a, b) => b.score - a.score` orders by. */
  function Descending(r: Score): int {
    -r.score
  }

  lemma SortedDescBy(s: seq<Score>)
    ensures SortedDesc(s) <==> SortedBy(s, Descending)
  {
  }

  /** `list.sort((a, b) => b.score - a.score)`: stable, highest score first. */
  function SortDesc(s: seq<Score>): (r: seq<Score>)
    ensures |r| == |s|
    ensures multiset(r) == multiset(s)
    ensures SortedDesc(r)
  {
    var r := SortBy(s, Descending);
    SortedDescBy(r);
    r
  }

  /** The entries scoring exactly `w`, in list order. */
  function WithScore(s: seq<Score>, w: int): seq<Score>
  {
    if |s| == 0 then [] else (if s[0].score == w then [s[0]] else []) + WithScore(s[1..], w)
  }

  /** The entries of one score are the class of the sort key `-score`. */
  lemma {:induction false} WithScoreIsKeyClass(s: seq<Score>, w: int, v: int)
    requires v == -w
    ensures WithScore(s, w) == KeyClass(s, Descending, v)
  {
    if |s| > 0 {
      WithScoreIsKeyClass(s[1..], w, v);
    }
  }

  /** The sort is stable: entries with equal scores keep the order they had. */
  lemma SortDescStable(s: seq<Score>, w: int)
    ensures WithScore(SortDesc(s), w) == WithScore(s, w)
  {
    var v := -w;
    SortByStable(s, Descending, v);
    WithScoreIsKeyClass(s, w, v);
    WithScoreIsKeyClass(SortDesc(s), w, v);
  }

  /** `list.filter(e => e.score > x).length`: the entries whose sort key `-score` lies below `-x`. */
  function CountAbove(s: seq<Score>, x: int): nat {
    CountBelow(s, Descending, -x)
  }

  /** Number of entries scoring at least `x`. */
  function CountAtLeast(s: seq<Score>, x: int): (n: nat)
    ensures n <= |s|
  {
    if |s| == 0 then 0
    else (if s[0].score >= x then 1 else 0) + CountAtLeast(s[1..], x)
  }

  /** Taking one entry out lowers the count by one exactly when that entry is above `x`. */
  lemma CountAboveRemove(s: seq<Score>, i: nat, x: int)
    requires i < |s|
    ensures CountAbove(s, x) == (if s[i].score > x then 1 else 0) + CountAbove(RemoveAt(s, i), x)
  {
    CountBelowRemove(s, i, Descending, -x);
  }

  /** The number of higher scores does not depend on the order of the list. */
  lemma CountAbovePermutation(a: seq<Score>, b: seq<Score>, x: int)
    requires multiset(a) == multiset(b)
    ensures CountAbove(a, x) == CountAbove(b, x)
  {
    CountBelowPermutation(a, b, Descending, -x);
  }

  /** In a highest-first list the entries above `x` are exactly the first `CountAbove` ones. */
  lemma CountAboveSorted(s: seq<Score>, x: int)
    requires SortedDesc(s)
    ensures forall i :: 0 <= i < CountAbove(s, x) ==> s[i].score > x
    ensures forall i :: CountAbove(s, x) <= i < |s| ==> s[i].score <= x
  {
    SortedDescBy(s);
    CountBelowSplitsSorted(s, Descending, -x);
  }

  /** Placing `rec` after exactly the strictly higher scores keeps a highest-first list highest-first. */
  lemma SpliceAboveKeepsSorted(list: seq<Score>, rec: Score)
    requires SortedDesc(list)
    ensures SortedDesc(InsertAt(list, CountAbove(list, rec.score), rec))
  {
    var k := CountAbove(list, rec.score);
    SortedDescBy(list);
    assert SortedBy(list, Descending);
    assert Descending(rec) == -rec.score;
    assert k == CountBelow(list, Descending, Descending(rec));
    InsertKeepsSorted(list, Descending, rec);
    SortedDescBy(InsertAt(list, k, rec));
  }

  /**
   `list.findIndex(e => e.score < x)`, with the `-1` of "not found" replaced
   by the length: the first position holding a strictly lower score.
   */
  function FindIndexBelow(s: seq<Score>, x: int): (i: nat)
    ensures i <= |s|
    ensures forall j :: 0 <= j < i ==> s[j].score >= x
    ensures i < |s| ==> s[i].score < x
  {
    if |s| == 0 || s[0].score < x then 0 else 1 + FindIndexBelow(s[1..], x)
  }

  /** In a highest-first list the first lower score comes right after every score at least `x`. */
  lemma {:induction false} FindIndexBelowSorted(s: seq<Score>, x: int)
    requires SortedDesc(s)
    ensures FindIndexBelow(s, x) == CountAtLeast(s, x)
  {
    if |s| > 0 {
      FindIndexBelowSorted(s[1..], x);
      if s[0].score < x {
        assert CountAtLeast(s[1..], x) == 0 by {
          CountAtLeastNone(s[1..], x);
        }
      }
    }
  }

  lemma {:induction false} CountAtLeastNone(s: seq<Score>, x: int)
    requires forall i :: 0 <= i < |s| ==> s[i].score < x
    ensures CountAtLeast(s, x) == 0
  {
    if |s| > 0 {
      CountAtLeastNone(s[1..], x);
    }
  }

  lemma {:induction false} CountAtLeastAll(s: seq<Score>, x: int)
    requires forall i :: 0 <= i < |s| ==> s[i].score >= x
    ensures CountAtLeast(s, x) == |s|
  {
    if |s| > 0 {
      CountAtLeastAll(s[1..], x);
    }
  }

  /** No two entries share a player address. */
  predicate PlayersApart(s: seq<Score>) {
    forall i, j :: 0 <= i < j < |s| ==> s[i].ip != s[j].ip
  }

  /** Splicing in a player whose address is not yet present keeps the addresses apart. */
  lemma InsertKeepsPlayersApart(s: seq<Score>, k: nat, x: Score)
    requires k <= |s| && PlayersApart(s)
    requires forall i :: 0 <= i < |s| ==> s[i].ip != x.ip
    ensures PlayersApart(InsertAt(s, k, x))
  {
    var r := InsertAt(s, k, x);
    forall i, j | 0 <= i < j < |r|
      ensures r[i].ip != r[j].ip
    {
      if j < k {
        assert r[i] == s[i] && r[j] == s[j];
      } else if i > k {
        assert r[i] == s[i - 1] && r[j] == s[j - 1];
      } else if i < k {
        if j > k {
          assert r[i] == s[i] && r[j] == s[j - 1];
        }
      } else {
        assert r[j] == s[j - 1];
      }
    }
  }

  /** An address absent from a list is absent from any rearrangement of it. */
  lemma AbsentAfterPermutation(s: seq<Score>, t: seq<Score>, ip: string)
    requires multiset(s) == multiset(t)
    requires forall i :: 0 <= i < |s| ==> s[i].ip != ip
    ensures forall i :: 0 <= i < |t| ==> t[i].ip != ip
  {
    forall i | 0 <= i < |t|
      ensures t[i].ip != ip
    {
      assert t[i] in multiset(s);
    }
  }

  lemma PlayersApartTail(s: seq<Score>)
    requires |s| > 0 && PlayersApart(s)
    ensures PlayersApart(s[1..])
    ensures forall i :: 0 <= i < |s[1..]| ==> s[1..][i].ip != s[0].ip
  {
    var rest := s[1..];
    forall i, j | 0 <= i < j < |rest|
      ensures rest[i].ip != rest[j].ip
    {
      assert rest[i] == s[i + 1] && rest[j] == s[j + 1];
    }
    forall i | 0 <= i < |rest|
      ensures rest[i].ip != s[0].ip
    {
      assert rest[i] == s[i + 1];
    }
  }

  /** Sorting moves records but never merges two players into one address. */
  lemma {:induction false} SortByKeepsPlayersApart(s: seq<Score>, key: Score -> int)
    requires PlayersApart(s)
    ensures PlayersApart(SortBy(s, key))
    decreases |s|
  {
    if |s| > 0 {
      var rest := s[1..];
      var t := SortBy(rest, key);
      PlayersApartTail(s);
      SortByKeepsPlayersApart(rest, key);
      AbsentAfterPermutation(rest, t, s[0].ip);
      InsertKeepsPlayersApart(t, CountBelow(t, key, key(s[0])), s[0]);
      assert s == [s[0]] + rest;
    }
  }

  lemma SortDescKeepsPlayersApart(s: seq<Score>)
    requires PlayersApart(s)
    ensures PlayersApart(SortDesc(s))
  {
    SortByKeepsPlayersApart(s, Descending);
  }

  /** `list.find(e => e.ip === ip)`, as the position of the first entry of that player. */
  function FindIp(s: seq<Score>, ip: string): (r: Option<nat>)
    ensures r.Some? ==> r.value < |s| && s[r.value].ip == ip
    ensures r.Some? ==> forall j :: 0 <= j < r.value ==> s[j].ip != ip
    ensures r.None? <==> forall j :: 0 <= j < |s| ==> s[j].ip != ip
  {
    if |s| == 0 then None
    else if s[0].ip == ip then Some(0)
    else match FindIp(s[1..], ip)
      case None => None
      case Some(i) => Some(i + 1)
  }
}
