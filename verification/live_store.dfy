/**
 The score store as the server runs it: the default export of
 `server/src/db/addScore.ts` validates its arguments and hands over to
 `useIndividualFiles`, which keeps each world in a single JSON list of
 score records, highest first, one record per player address.

 Every call is one atomic step from store to store; the writes the source
 does not await are taken to have completed before the next call.
 */
module LiveStore {
  import opened Common
  import opened Text
  import opened Sorting
  import opened Scores

  /** The part of the file system the store touches: directories made, and files by path. */
  datatype Store = Store(dirs: set<string>, files: map<string, Content>)

  /** `./data/<first path segment>`, the directory made for a world. */
  function WorldDir(dbPath: string): string {
    "data/" + Split(dbPath, "/")[0]
  }

  /** `./data/<dbPath>.json`, the world's score file. */
  function WorldFile(dbPath: string): string {
    "data/" + dbPath + ".json"
  }

  /** The guard of the default export: no address, a zero score, or a path built from `undefined`. */
  predicate Rejected(dbPath: string, ip: string, score: int) {
    ip == "" || score == 0 || Contains(dbPath, "undefined")
  }

  function Write(st: Store, path: string, list: seq<Score>): Store {
    st.(files := st.files[path := Records(list)])
  }

  /** A new player is spliced in at the number of strictly higher scores. */
  function InsertNew(list: seq<Score>, rec: Score): (r: seq<Score>)
    ensures |r| == |list| + 1
    ensures r[CountAbove(list, rec.score)] == rec
  {
    InsertAt(list, CountAbove(list, rec.score), rec)
  }

  /** Splicing a new player in adds exactly that record: taking it out again gives the old list. */
  lemma InsertNewUndone(list: seq<Score>, rec: Score)
    ensures RemoveAt(InsertNew(list, rec), CountAbove(list, rec.score)) == list
    ensures multiset(InsertNew(list, rec)) == multiset(list) + multiset{rec}
  {
    RemoveInsert(list, CountAbove(list, rec.score), rec);
  }

  /**
   Splicing a new player into a highest-first list keeps it highest-first,
   and puts the player ahead of every entry with the same score: only
   strictly higher scores precede it.
   */
  lemma InsertNewOrder(list: seq<Score>, rec: Score)
    requires SortedDesc(list)
    ensures SortedDesc(InsertNew(list, rec))
    ensures forall j :: 0 <= j < CountAbove(list, rec.score) ==> InsertNew(list, rec)[j].score > rec.score
    ensures forall j :: CountAbove(list, rec.score) < j < |list| + 1 ==> InsertNew(list, rec)[j].score <= rec.score
  {
    var k := CountAbove(list, rec.score);
    var r := InsertNew(list, rec);
    CountAboveSorted(list, rec.score);
    SpliceAboveKeepsSorted(list, rec);
    forall j | 0 <= j < k
      ensures r[j].score > rec.score
    {
      assert r[j] == list[j];
    }
    forall j | k < j < |list| + 1
      ensures r[j].score <= rec.score
    {
      assert r[j] == list[j - 1];
    }
  }

  /** The first entry with the player's address, with its score raised. */
  function Raised(list: seq<Score>, i: nat, score: int): seq<Score>
    requires i < |list|
  {
    list[i := list[i].(score := score)]
  }

  /**
   A returning player with a better score: the first entry with that address
   takes the new score, and the whole list is re-sorted.
   */
  function RaiseExisting(list: seq<Score>, i: nat, score: int): (r: seq<Score>)
    requires i < |list| && list[i].score < score
    ensures |r| == |list|
    ensures SortedDesc(r)
  {
    SortDesc(Raised(list, i, score))
  }

  /**
   Raising a returning player changes nothing but that one entry's score:
   the re-sorted list is a permutation of the old one with that entry
   replaced, and entries of equal score keep their order.
   */
  lemma RaiseExistingPermutes(list: seq<Score>, i: nat, score: int)
    requires i < |list| && list[i].score < score
    ensures multiset(RaiseExisting(list, i, score))
         == multiset(list) - multiset{list[i]} + multiset{list[i].(score := score)}
    ensures forall w :: WithScore(RaiseExisting(list, i, score), w) == WithScore(Raised(list, i, score), w)
  {
    var replaced := Raised(list, i, score);
    assert list == list[..i] + [list[i]] + list[i + 1..];
    assert replaced == list[..i] + [list[i].(score := score)] + list[i + 1..];
    forall w
      ensures WithScore(RaiseExisting(list, i, score), w) == WithScore(replaced, w)
    {
      SortDescStable(replaced, w);
    }
  }

  /** The branch taken when the world file parsed to a list (lines 69-118). */
  function Merge(st: Store, path: string, list: seq<Score>, rec: Score): (r: Step<Store>)
    requires path in st.files && st.files[path].Records?
    ensures r.Ranked?
    ensures r.after.dirs == st.dirs
    ensures r.after.files - {path} == st.files - {path}
    ensures 1 <= r.rank
    ensures path in r.after.files && r.after.files[path].Records?
  {
    match FindIp(list, rec.ip)
    case Some(i) =>
      if list[i].score < rec.score then
        var sorted := RaiseExisting(list, i, rec.score);
        Ranked(Write(st, path, sorted), CountAbove(sorted, rec.score) + 1)
      else
        Ranked(st, CountAbove(list, rec.score) + 1)
    case None =>
      var k := CountAbove(list, rec.score);
      Ranked(Write(st, path, InsertNew(list, rec)), k + 1)
  }

  /**
   `useIndividualFiles`: make the world's directory, create the world file
   holding just this record when it is missing (then carry on as with an
   empty list), and merge the record into whatever list the file holds.
   */
  function UseIndividualFiles(store: Store, dbPath: string, rec: Score): (r: Step<Store>)
    ensures r.after.dirs == store.dirs + {WorldDir(dbPath)}
    ensures r.after.files - {WorldFile(dbPath)} == store.files - {WorldFile(dbPath)}
    ensures r.Threw? <==> WorldFile(dbPath) in store.files && store.files[WorldFile(dbPath)] == Garbled
    ensures r.Threw? ==> r.after.files == store.files
    ensures r.Ranked? ==> 1 <= r.rank
    ensures r.Ranked? ==> WorldFile(dbPath) in r.after.files && r.after.files[WorldFile(dbPath)].Records?
  {
    var path := WorldFile(dbPath);
    var st := store.(dirs := store.dirs + {WorldDir(dbPath)});
    if path !in st.files then
      Merge(Write(st, path, [rec]), path, [], rec)
    else
      match st.files[path]
      case Garbled => Threw(st)
      case Unreadable => Ranked(Write(st, path, [rec]), 1)
      case Records(list) => Merge(st, path, list, rec)
  }

  /**
   The default export: a rejected submission answers 0 and touches nothing;
   any other answers a rank of at least 1 or rejects with an exception.
   */
  function AddScore(store: Store, dbPath: string, ip: string, score: int): (r: Step<Store>)
    ensures Rejected(dbPath, ip, score) <==> r == Ranked(store, 0)
    ensures r.Ranked? && r.rank != 0 ==> 1 <= r.rank
  {
    if Rejected(dbPath, ip, score) then Ranked(store, 0)
    else UseIndividualFiles(store, dbPath, Score(ip, score))
  }

  /** A world file that does not exist yet ends up holding just the new record, ranked first. */
  lemma MissingWorldFile(store: Store, dbPath: string, ip: string, score: int)
    requires !Rejected(dbPath, ip, score)
    requires WorldFile(dbPath) !in store.files
    ensures AddScore(store, dbPath, ip, score)
         == Ranked(Store(store.dirs + {WorldDir(dbPath)},
                         store.files[WorldFile(dbPath) := Records([Score(ip, score)])]), 1)
  {
    var rec := Score(ip, score);
    var path := WorldFile(dbPath);
    var st := store.(dirs := store.dirs + {WorldDir(dbPath)});
    assert CountAbove([], score) == 0;
    assert InsertNew([], rec) == [rec];
    assert AddScore(store, dbPath, ip, score) == UseIndividualFiles(store, dbPath, rec);
    assert UseIndividualFiles(store, dbPath, rec) == Merge(Write(st, path, [rec]), path, [], rec);
    assert Write(Write(st, path, [rec]), path, [rec]) == Store(store.dirs + {WorldDir(dbPath)}, store.files[path := Records([rec])]);
  }

  /** An unreadable or empty world file is overwritten with just the new record, ranked first. */
  lemma UnreadableWorldFile(store: Store, dbPath: string, ip: string, score: int)
    requires !Rejected(dbPath, ip, score)
    requires WorldFile(dbPath) in store.files && store.files[WorldFile(dbPath)] == Unreadable
    ensures AddScore(store, dbPath, ip, score)
         == Ranked(Store(store.dirs + {WorldDir(dbPath)},
                         store.files[WorldFile(dbPath) := Records([Score(ip, score)])]), 1)
  {
  }

  /**
   A player not yet in the list is spliced in after the strictly higher
   scores and ranked just below them.
   */
  lemma NewPlayerRank(store: Store, dbPath: string, ip: string, score: int, list: seq<Score>)
    requires !Rejected(dbPath, ip, score)
    requires WorldFile(dbPath) in store.files && store.files[WorldFile(dbPath)] == Records(list)
    requires FindIp(list, ip).None?
    ensures var r := AddScore(store, dbPath, ip, score);
      && r.Ranked?
      && r.after.files == store.files[WorldFile(dbPath) := Records(InsertNew(list, Score(ip, score)))]
      && r.rank == CountAbove(list, score) + 1
      && 1 <= r.rank <= |list| + 1
  {
  }

  /**
   A returning player with a better score has that entry raised and the list
   re-sorted; the rank counts the other entries strictly above the new score.
   */
  lemma RaisedPlayerRank(store: Store, dbPath: string, ip: string, score: int, list: seq<Score>, i: nat)
    requires !Rejected(dbPath, ip, score)
    requires WorldFile(dbPath) in store.files && store.files[WorldFile(dbPath)] == Records(list)
    requires FindIp(list, ip) == Some(i) && list[i].score < score
    ensures var r := AddScore(store, dbPath, ip, score);
      && r.Ranked?
      && r.after.files == store.files[WorldFile(dbPath) := Records(RaiseExisting(list, i, score))]
      && r.rank == 1 + CountAbove(RemoveAt(list, i), score)
  {
    var raised := Raised(list, i, score);
    var sorted := RaiseExisting(list, i, score);
    assert multiset(sorted) == multiset(raised);
    CountAbovePermutation(sorted, raised, score);
    CountAboveRemove(raised, i, score);
    assert RemoveAt(raised, i) == RemoveAt(list, i);
  }

  /**
   A returning player whose stored score is at least the new one: nothing is
   written, and the rank counts every entry strictly above the submitted
   score, the player's own stored entry included when it is higher.
   */
  lemma KeptPlayerRank(store: Store, dbPath: string, ip: string, score: int, list: seq<Score>, i: nat)
    requires !Rejected(dbPath, ip, score)
    requires WorldFile(dbPath) in store.files && store.files[WorldFile(dbPath)] == Records(list)
    requires FindIp(list, ip) == Some(i) && list[i].score >= score
    ensures var r := AddScore(store, dbPath, ip, score);
      && r == Ranked(store.(dirs := store.dirs + {WorldDir(dbPath)}), 1 + CountAbove(list, score))
      && r.rank == 1 + CountAbove(RemoveAt(list, i), score) + (if list[i].score > score then 1 else 0)
  {
    CountAboveRemove(list, i, score);
  }

  /**
   The world file holds a list that is highest-first with one record per
   player (or nothing usable yet).
   */
  predicate WellKept(store: Store, dbPath: string) {
    WorldFile(dbPath) in store.files ==>
      match store.files[WorldFile(dbPath)]
      case Records(list) => SortedDesc(list) && PlayersApart(list)
      case Unreadable => true
      case Garbled => false
  }

  /**
   Every accepted submission to a well-kept world leaves it well kept, with
   a readable list, and answers a rank within that list (or one past its end).
   */
  lemma AddScoreKeepsWellKept(store: Store, dbPath: string, ip: string, score: int)
    requires !Rejected(dbPath, ip, score)
    requires WellKept(store, dbPath)
    ensures var r := AddScore(store, dbPath, ip, score);
      && r.Ranked?
      && WorldFile(dbPath) in r.after.files
      && r.after.files[WorldFile(dbPath)].Records?
      && 1 <= r.rank <= |r.after.files[WorldFile(dbPath)].entries| + 1
      && WellKept(r.after, dbPath)
  {
    var path := WorldFile(dbPath);
    var rec := Score(ip, score);
    if path in store.files && store.files[path].Records? {
      var list := store.files[path].entries;
      match FindIp(list, ip)
      case Some(i) =>
        if list[i].score < score {
          SortDescKeepsPlayersApart(Raised(list, i, score));
        }
      case None =>
        InsertNewOrder(list, rec);
        InsertKeepsPlayersApart(list, CountAbove(list, score), rec);
    }
  }

  /**
   Three players into an empty store, one after another: 1200, then 1800,
   then 1500. They are ranked 1, 1 and 2, and the world ends highest first.
   */
  lemma ThreeSubmissions()
    ensures var a := AddScore(Store({}, map[]), "w", "p1", 1200);
      var b := AddScore(a.after, "w", "p2", 1800);
      var c := AddScore(b.after, "w", "p3", 1500);
      && a.rank == 1 && b.rank == 1 && c.rank == 2
      && WorldFile("w") in c.after.files
      && c.after.files[WorldFile("w")] == Records([Score("p2", 1800), Score("p3", 1500), Score("p1", 1200)])
  {
    var a := AddScore(Store({}, map[]), "w", "p1", 1200);
    assert !Contains("w", "undefined");
    MissingWorldFile(Store({}, map[]), "w", "p1", 1200);
    SecondSubmission(a.after);
    ThirdSubmission(AddScore(a.after, "w", "p2", 1800).after);
  }

  lemma SecondSubmission(st: Store)
    requires WorldFile("w") in st.files && st.files[WorldFile("w")] == Records([Score("p1", 1200)])
    ensures var b := AddScore(st, "w", "p2", 1800);
      && b.rank == 1
      && WorldFile("w") in b.after.files
      && b.after.files[WorldFile("w")] == Records([Score("p2", 1800), Score("p1", 1200)])
  {
    var one := [Score("p1", 1200)];
    assert !Contains("w", "undefined");
    NewPlayerRank(st, "w", "p2", 1800, one);
    assert CountAbove(one, 1800) == 0;
    assert InsertNew(one, Score("p2", 1800)) == [Score("p2", 1800), Score("p1", 1200)];
  }

  lemma ThirdSubmission(st: Store)
    requires WorldFile("w") in st.files && st.files[WorldFile("w")] == Records([Score("p2", 1800), Score("p1", 1200)])
    ensures var c := AddScore(st, "w", "p3", 1500);
      && c.rank == 2
      && WorldFile("w") in c.after.files
      && c.after.files[WorldFile("w")] == Records([Score("p2", 1800), Score("p3", 1500), Score("p1", 1200)])
  {
    var two := [Score("p2", 1800), Score("p1", 1200)];
    assert !Contains("w", "undefined");
    assert FindIp(two, "p3").None?;
    NewPlayerRank(st, "w", "p3", 1500, two);
    assert two[1..] == [Score("p1", 1200)];
    assert CountAbove(two, 1500) == 1;
    assert InsertNew(two, Score("p3", 1500)) == [Score("p2", 1800), Score("p3", 1500), Score("p1", 1200)];
  }
}
