/**
 `useSplitFiles`, the sharded layout of the score store: a world is a
 directory with one file per thousand of the score range. A submission is
 spliced into its bucket's file, which is written under a new name with
 the new record count before the old name is deleted; the answer is
 computed from the names in the directory listing.

 The default export does not call this layout. It is modelled as the code
 stands, with two slips that make its answer differ from the rank it
 names; both are logged under Findings with a corrected rank beside them.
 */
module ShardedStore {
  import opened Common
  import opened Sorting
  import opened Sums
  import opened Scores
  import opened ShardNames

  /** One world directory: its shard files by name. */
  type World = map<FileName, Content>

  /** `readdir` answered with the directory's names, each exactly once, in some order. */
  predicate Lists(world: World, names: seq<FileName>) {
    && (forall i, j :: 0 <= i < j < |names| ==> names[i] != names[j])
    && (forall name :: name in world ==> name in names)
    && (forall i :: 0 <= i < |names| ==> names[i] in world)
  }

  /** The names `readdir` produced; a failed listing is treated as an empty one. */
  function Listed(listing: Option<seq<FileName>>): seq<FileName> {
    match listing
    case None => []
    case Some(names) => names
  }

  /** The listing sorted by the bucket each name carries, lowest first. */
  function Catalog(listing: Option<seq<FileName>>): (files: seq<FileName>)
    ensures multiset(files) == multiset(Listed(listing))
    ensures SortedBy(files, BucketOf)
  {
    SortBy(Listed(listing), BucketOf)
  }

  /** The weight of a file in the answer: its count when its bucket is below `target`. */
  function Below(target: int): FileName -> int {
    (file: FileName) => if BucketOf(file) < target then CountOf(file) else 0
  }

  /** The weight of a file in the corrected rank: its count when its bucket is above `target`. */
  function Above(target: int): FileName -> int {
    (file: FileName) => if BucketOf(file) > target then CountOf(file) else 0
  }

  /**
   Placement inside the bucket's file: in front of the first strictly lower
   score, or at the end, so a new record lands after the equal scores.
   */
  function ShardInsert(list: seq<Score>, rec: Score): (r: seq<Score>)
    ensures |r| == |list| + 1
    ensures r[FindIndexBelow(list, rec.score)] == rec
  {
    InsertAt(list, FindIndexBelow(list, rec.score), rec)
  }

  /** The bucket's file is rewritten under its new count and the old name is deleted. */
  function Rewrite(world: World, stale: FileName, list: seq<Score>, rec: Score): (w: World)
  {
    var grown := ShardInsert(list, rec);
    world[FileName(Bucket(rec.score), |grown|) := Records(grown)] - {stale}
  }

  /**
   The write a submission makes: a one-record file for a bucket without a
   file, the grown file under its new name otherwise. An unreadable file
   counts as empty; one holding text that is not JSON makes the call reject
   before anything is written, which is `None` here.
   */
  function Place(world: World, found: Option<FileName>, rec: Score): (w: Option<World>)
    requires found.Some? ==> found.value in world
    ensures w.None? <==> found.Some? && world[found.value].Garbled?
  {
    match found
    case None => Some(world[FileName(Bucket(rec.score), 1) := Records([rec])])
    case Some(file) =>
      match world[file]
      case Garbled => None
      case Unreadable => Some(Rewrite(world, file, [], rec))
      case Records(list) => Some(Rewrite(world, file, list, rec))
  }

  /**
   The file `useSplitFiles` picks for a bucket: the first in bucket order
   that carries it (`FoundFirstListed`: the first in listing order).
   */
  function Found(listing: Option<seq<FileName>>, target: int): (found: Option<FileName>)
    ensures found.Some? ==> found.value in Listed(listing) && BucketOf(found.value) == target
    ensures found.None? <==> forall i :: 0 <= i < |Listed(listing)| ==> BucketOf(Listed(listing)[i]) != target
  {
    var files := Catalog(listing);
    FindKeyAfterSort(Listed(listing), BucketOf, target);
    FindKey(files, BucketOf, target)
  }

  /**
   The sort being stable, the file picked is the first name with the bucket
   in the order `readdir` listed them; this decides which of two files of
   one bucket is grown.
   */
  lemma FoundFirstListed(listing: Option<seq<FileName>>, target: int)
    ensures Found(listing, target) == FindKey(Listed(listing), BucketOf, target)
  {
    FindKeyAfterSort(Listed(listing), BucketOf, target);
  }

  /**
   The answer `useSplitFiles` resolves to: one plus the counts of the files
   whose bucket is below the record's. The in-file position is computed
   into an inner variable that shadows this one, so it never reaches the sum.
   */
  function SplitRank(listing: Option<seq<FileName>>, rec: Score): (rank: int)
    ensures rank == 1 + Sum(Listed(listing), Below(Bucket(rec.score)))
  {
    var files := Catalog(listing);
    var target := Bucket(rec.score);
    var scoresAboveInFile := 0;
    SumPermutation(files, Listed(listing), Below(target));
    Sum(files, Below(target)) + scoresAboveInFile + 1
  }

  /**
   `useSplitFiles`: find the bucket's file, write the grown file (or a
   new one), and answer `SplitRank`.
   */
  function UseSplitFiles(world: World, listing: Option<seq<FileName>>, rec: Score): (r: Step<World>)
    requires listing.Some? ==> Lists(world, listing.value)
    ensures r.Ranked? ==> r.rank == 1 + Sum(Listed(listing), Below(Bucket(rec.score)))
    ensures r.Threw? ==> r.after == world
  {
    var found := Found(listing, Bucket(rec.score));
    assert found.Some? ==> found.value in Listed(listing);
    match Place(world, found, rec)
    case None => Threw(world)
    case Some(after) => Ranked(after, SplitRank(listing, rec))
  }

  /** How `useSplitFiles` leaves the directory: as `Place` writes it, or untouched when it rejects. */
  lemma SplitFilesPlace(world: World, listing: Option<seq<FileName>>, rec: Score)
    requires listing.Some? ==> Lists(world, listing.value)
    ensures Found(listing, Bucket(rec.score)).Some? ==> Found(listing, Bucket(rec.score)).value in world
    ensures UseSplitFiles(world, listing, rec).Ranked? <==> Place(world, Found(listing, Bucket(rec.score)), rec).Some?
    ensures UseSplitFiles(world, listing, rec).Ranked?
        ==> UseSplitFiles(world, listing, rec).after == Place(world, Found(listing, Bucket(rec.score)), rec).value
  {
  }

  /** Files of any other bucket are neither added, removed nor changed. */
  lemma OtherBucketsUntouched(world: World, found: Option<FileName>, rec: Score, name: FileName)
    requires found.Some? ==> found.value in world && BucketOf(found.value) == Bucket(rec.score)
    requires BucketOf(name) != Bucket(rec.score)
    requires Place(world, found, rec).Some?
    ensures var after := Place(world, found, rec).value;
      (name in after <==> name in world) && (name in world ==> after[name] == world[name])
  {
    if found.Some? {
      match world[found.value]
      case Unreadable => RewriteFrame(world, found.value, [], rec, name);
      case Records(list) => RewriteFrame(world, found.value, list, rec, name);
    }
  }

  lemma RewriteFrame(world: World, stale: FileName, list: seq<Score>, rec: Score, name: FileName)
    requires name != stale && BucketOf(name) != Bucket(rec.score)
    ensures var w := Rewrite(world, stale, list, rec);
      (name in w <==> name in world) && (name in world ==> w[name] == world[name])
  {
  }

  /**
   Where the record lands in its bucket's file: after every score at least
   its own, in front of every lower one, and taking it out again gives the
   file back.
   */
  lemma ShardInsertOrder(list: seq<Score>, rec: Score)
    requires SortedDesc(list)
    ensures var r := ShardInsert(list, rec); var k := CountAtLeast(list, rec.score);
      && r[k] == rec
      && (forall j :: 0 <= j < k ==> r[j].score >= rec.score)
      && (forall j :: k < j < |r| ==> r[j].score < rec.score)
      && RemoveAt(r, k) == list
  {
    var k := FindIndexBelow(list, rec.score);
    FindIndexBelowSorted(list, rec.score);
    var r := ShardInsert(list, rec);
    RemoveInsert(list, k, rec);
    forall j | k < j < |r|
      ensures r[j].score < rec.score
    {
      assert r[j] == list[j - 1];
      assert list[k].score >= list[j - 1].score;
    }
  }

  /** The bucket's file stays highest-first. */
  lemma ShardInsertSorted(list: seq<Score>, rec: Score)
    requires SortedDesc(list)
    ensures SortedDesc(ShardInsert(list, rec))
  {
    var k := FindIndexBelow(list, rec.score);
    var r := ShardInsert(list, rec);
    forall i, j | 0 <= i < j < |r|
      ensures r[i].score >= r[j].score
    {
      if j < k {
        assert r[i] == list[i] && r[j] == list[j];
      } else if i > k {
        assert r[i] == list[i - 1] && r[j] == list[j - 1];
      } else if i < k {
        assert r[i] == list[i];
      } else {
        assert r[j] == list[j - 1];
      }
    }
  }

  /** The first bucket's rejection is the only one: the call throws exactly when the bucket's file is not JSON. */
  lemma GarbledShardRejects(world: World, listing: Option<seq<FileName>>, rec: Score, file: FileName)
    requires listing.Some? ==> Lists(world, listing.value)
    requires Found(listing, Bucket(rec.score)) == Some(file)
    ensures file in world
    ensures UseSplitFiles(world, listing, rec).Threw? <==> world[file].Garbled?
  {
    var r := UseSplitFiles(world, listing, rec);
    assert file in Listed(listing);
  }

  // A directory this code alone has written to.

  /** The records a world holds under `name`; none when no readable list is there. */
  function Entries(world: World, name: FileName): seq<Score> {
    if name in world && world[name].Records? then world[name].entries else []
  }

  /**
   What writing only through `useSplitFiles` keeps true of a shard file: it
   holds a list, its name gives the list's length, the list is highest
   first, and every score in it lies in the file's bucket.
   */
  predicate ShardHolds(name: FileName, content: Content) {
    && content.Records?
    && |content.entries| == CountOf(name)
    && SortedDesc(content.entries)
    && (forall i :: 0 <= i < |content.entries| ==> Bucket(content.entries[i].score) == BucketOf(name))
  }

  /** Every file holds, and no two files cover the same bucket. */
  predicate Consistent(world: World) {
    && (forall name :: name in world ==> ShardHolds(name, world[name]))
    && (forall a, b :: a in world && b in world && BucketOf(a) == BucketOf(b) ==> a == b)
  }

  /** The bucket's grown file holds again, under the name with one more record. */
  lemma GrownShardHolds(file: FileName, list: seq<Score>, rec: Score)
    requires ShardHolds(file, Records(list))
    requires BucketOf(file) == Bucket(rec.score)
    ensures ShardHolds(FileName(BucketOf(file), CountOf(file) + 1), Records(ShardInsert(list, rec)))
  {
    ShardInsertSorted(list, rec);
    var k := FindIndexBelow(list, rec.score);
    var grown := ShardInsert(list, rec);
    forall i | 0 <= i < |grown|
      ensures Bucket(grown[i].score) == BucketOf(file)
    {
      if i < k {
        assert grown[i] == list[i];
      } else if i > k {
        assert grown[i] == list[i - 1];
      }
    }
  }

  /** A submission into a consistent directory succeeds and leaves it consistent. */
  lemma PlaceKeepsConsistent(world: World, found: Option<FileName>, rec: Score)
    requires Consistent(world)
    requires found.None? ==> forall name :: name in world ==> BucketOf(name) != Bucket(rec.score)
    requires found.Some? ==> found.value in world && BucketOf(found.value) == Bucket(rec.score)
    ensures Place(world, found, rec).Some?
    ensures Consistent(Place(world, found, rec).value)
  {
    var target := Bucket(rec.score);
    var after := Place(world, found, rec).value;
    match found
    case None =>
      var added := FileName(target, 1);
      assert after == world[added := Records([rec])];
      assert ShardHolds(added, Records([rec]));
      forall a, b | a in after && b in after && BucketOf(a) == BucketOf(b)
        ensures a == b
      {
        if a != added && b != added {
          assert a in world && b in world;
        }
      }
    case Some(file) =>
      var list := world[file].entries;
      var added := FileName(target, CountOf(file) + 1);
      GrownShardHolds(file, list, rec);
      assert after == world[added := Records(ShardInsert(list, rec))] - {file};
      forall a, b | a in after && b in after && BucketOf(a) == BucketOf(b)
        ensures a == b
      {
        if a != added && b != added {
          assert a in world && b in world;
        }
      }
  }

  /** `useSplitFiles` on a consistent directory resolves, and keeps the directory consistent. */
  lemma UseSplitFilesKeepsConsistent(world: World, names: seq<FileName>, rec: Score)
    requires Lists(world, names)
    requires Consistent(world)
    ensures UseSplitFiles(world, Some(names), rec).Ranked?
    ensures Consistent(UseSplitFiles(world, Some(names), rec).after)
  {
    var found := Found(Some(names), Bucket(rec.score));
    PlaceKeepsConsistent(world, found, rec);
  }

  /** A consistent directory whose bucket 1000 holds two records, in `1000 - 2.json`. */
  function PairWorld(): World {
    map[FileName(1000, 2) := Records([Score("p1", 1800), Score("p2", 1200)])]
  }

  /**
   When `readdir` fails, the error is swallowed and the listing taken as
   empty: a 1500 then starts a second file, `1000 - 1.json`, beside
   `1000 - 2.json`, and the directory is no longer consistent.
   */
  lemma FailedListingSplitsBucket()
    ensures Consistent(PairWorld())
    ensures var r := UseSplitFiles(PairWorld(), None, Score("p3", 1500));
      && r.Ranked?
      && FileName(1000, 1) in r.after && FileName(1000, 2) in r.after
      && !Consistent(r.after)
  {
    var rec := Score("p3", 1500);
    BucketUnique(1800, 1000);
    BucketUnique(1200, 1000);
    BucketUnique(1500, 1000);
    assert ShardHolds(FileName(1000, 2), PairWorld()[FileName(1000, 2)]);
    assert Found(None, 1000).None?;
    SplitFilesPlace(PairWorld(), None, rec);
    assert UseSplitFiles(PairWorld(), None, rec).after == PairWorld()[FileName(1000, 1) := Records([rec])];
  }

  /** A score whose bucket has no file yet gets a new file of one record, named with count 1. */
  lemma NewBucketShard(world: World, names: seq<FileName>, rec: Score)
    requires Lists(world, names)
    requires forall i :: 0 <= i < |names| ==> BucketOf(names[i]) != Bucket(rec.score)
    ensures var r := UseSplitFiles(world, Some(names), rec); var added := FileName(Bucket(rec.score), 1);
      && r.Ranked?
      && added !in world
      && r.after == world[added := Records([rec])]
  {
    assert Found(Some(names), Bucket(rec.score)).None?;
  }

  /**
   A score whose bucket has a consistent file: the grown list is written
   under the name with one more record, and the old name is gone.
   */
  lemma ExistingBucketShard(world: World, names: seq<FileName>, rec: Score, file: FileName)
    requires Lists(world, names)
    requires Found(Some(names), Bucket(rec.score)) == Some(file)
    requires file in world && ShardHolds(file, world[file])
    ensures var r := UseSplitFiles(world, Some(names), rec);
      var added := FileName(Bucket(rec.score), CountOf(file) + 1);
      && r.Ranked?
      && file !in r.after
      && added in r.after
      && r.after[added] == Records(ShardInsert(world[file].entries, rec))
      && r.after.Keys == world.Keys - {file} + {added}
  {
    var list := world[file].entries;
    var added := FileName(Bucket(rec.score), CountOf(file) + 1);
    ExistingBucketWrite(world, names, rec, file);
    assert added == FileName(Bucket(rec.score), |list| + 1) && added != file;
    RewriteShape(world, file, list, rec);
    assert world.Keys - {file} + {added} == (world.Keys + {added}) - {file};
  }

  /** A bucket whose file holds a list: the call resolves with that list grown by `Rewrite`. */
  lemma ExistingBucketWrite(world: World, names: seq<FileName>, rec: Score, file: FileName)
    requires Lists(world, names)
    requires Found(Some(names), Bucket(rec.score)) == Some(file)
    requires file in world && world[file].Records?
    ensures UseSplitFiles(world, Some(names), rec).Ranked?
    ensures UseSplitFiles(world, Some(names), rec).after == Rewrite(world, file, world[file].entries, rec)
  {
    SplitFilesPlace(world, Some(names), rec);
    assert Place(world, Some(file), rec) == Some(Rewrite(world, file, world[file].entries, rec));
  }

  /** The rewritten directory: the grown file under its new name, the old name gone when it differs. */
  lemma RewriteShape(world: World, stale: FileName, list: seq<Score>, rec: Score)
    ensures var added := FileName(Bucket(rec.score), |list| + 1); var w := Rewrite(world, stale, list, rec);
      && (added != stale ==> added in w && w[added] == Records(ShardInsert(list, rec)))
      && stale !in w
      && w.Keys == (world.Keys + {added}) - {stale}
  {
  }

  // What the answer counts.

  /** Weight of a file in "records scoring at least `x`". */
  function AtLeastIn(world: World, x: int): FileName -> int {
    (name: FileName) => CountAtLeast(Entries(world, name), x)
  }

  /** Weight of a file in "records scoring below `x`". */
  function UnderIn(world: World, x: int): FileName -> int {
    (name: FileName) => |Entries(world, name)| - CountAtLeast(Entries(world, name), x)
  }

  /** Two distinct multiples of the bucket width are a bucket width apart. */
  lemma MultiplesApart(a: int, b: int)
    requires a % BucketWidth == 0 && b % BucketWidth == 0 && a < b
    ensures a + BucketWidth <= b
  {
    var p := a / BucketWidth;
    var q := b / BucketWidth;
    assert a == BucketWidth * p && b == BucketWidth * q;
    assert p < q;
  }

  /**
   In a consistent directory a file's place against the bucket of a score
   decides how many of its records score below that bucket, and how many
   at least that score.
   */
  lemma FileWeights(world: World, name: FileName, score: int)
    requires Consistent(world) && name in world
    ensures UnderIn(world, Bucket(score))(name) == Below(Bucket(score))(name)
    ensures AtLeastIn(world, score)(name)
         == Above(Bucket(score))(name)
          + (if BucketOf(name) == Bucket(score) then CountAtLeast(Entries(world, name), score) else 0)
  {
    var e := Entries(world, name);
    var t := Bucket(score);
    var b := BucketOf(name);
    if |e| > 0 {
      assert b == Bucket(e[0].score);
      forall i | 0 <= i < |e|
        ensures b <= e[i].score < b + BucketWidth
      {
        assert Bucket(e[i].score) == b;
      }
      if b < t {
        MultiplesApart(b, t);
        CountAtLeastNone(e, t);
        CountAtLeastNone(e, score);
      } else if b > t {
        MultiplesApart(t, b);
        CountAtLeastAll(e, t);
        CountAtLeastAll(e, score);
      } else {
        CountAtLeastAll(e, t);
      }
    }
  }

  /**
   The answer as written: on a consistent directory, one plus the number of
   stored records scoring below the new record's bucket.
   */
  lemma WrittenRank(world: World, names: seq<FileName>, rec: Score)
    requires Lists(world, names) && Consistent(world)
    ensures UseSplitFiles(world, Some(names), rec).rank == 1 + Sum(names, UnderIn(world, Bucket(rec.score)))
  {
    UseSplitFilesKeepsConsistent(world, names, rec);
    forall i | 0 <= i < |names|
      ensures UnderIn(world, Bucket(rec.score))(names[i]) == Below(Bucket(rec.score))(names[i])
    {
      FileWeights(world, names[i], rec.score);
    }
    SumSame(names, UnderIn(world, Bucket(rec.score)), Below(Bucket(rec.score)));
  }

  // The rank the code names, from a directory that keeps what it is given.

  /**
   The rewrite with the old name deleted before the grown file is written,
   so an old name equal to the new one cannot take the new file with it.
   */
  function RewriteIntended(world: World, stale: FileName, list: seq<Score>, rec: Score): World {
    var grown := ShardInsert(list, rec);
    (world - {stale})[FileName(Bucket(rec.score), |grown|) := Records(grown)]
  }

  /** `Place` with the corrected rewrite. */
  function PlaceIntended(world: World, found: Option<FileName>, rec: Score): (w: Option<World>)
    requires found.Some? ==> found.value in world
    ensures w.None? <==> found.Some? && world[found.value].Garbled?
  {
    match found
    case None => Some(world[FileName(Bucket(rec.score), 1) := Records([rec])])
    case Some(file) =>
      match world[file]
      case Garbled => None
      case Unreadable => Some(RewriteIntended(world, file, [], rec))
      case Records(list) => Some(RewriteIntended(world, file, list, rec))
  }

  /** The position the record takes in its bucket's file: after every score at least its own. */
  function InFile(world: World, found: Option<FileName>, rec: Score): nat {
    match found
    case None => 0
    case Some(file) => FindIndexBelow(Entries(world, file), rec.score)
  }

  /** The counts of the files of higher buckets, plus the position inside the record's own file, plus one. */
  function IntendedRank(world: World, listing: Option<seq<FileName>>, rec: Score): int {
    var target := Bucket(rec.score);
    Sum(Catalog(listing), Above(target)) + InFile(world, Found(listing, target), rec) + 1
  }

  /**
   `useSplitFiles` as its names describe it: the counts of the files of
   higher buckets, plus the position inside the record's own file, plus one;
   and the record always ends up on disk.
   */
  function UseSplitFilesIntended(world: World, listing: Option<seq<FileName>>, rec: Score): (r: Step<World>)
    requires listing.Some? ==> Lists(world, listing.value)
    ensures r.Threw? <==> UseSplitFiles(world, listing, rec).Threw?
    ensures r.Threw? ==> r.after == world
  {
    var found := Found(listing, Bucket(rec.score));
    assert found.Some? ==> found.value in Listed(listing);
    match PlaceIntended(world, found, rec)
    case None => Threw(world)
    case Some(after) => Ranked(after, IntendedRank(world, listing, rec))
  }

  /**
   On a consistent directory the corrected answer is the rank: one plus the
   number of stored records scoring at least the new score.
   */
  lemma IntendedRankCounts(world: World, names: seq<FileName>, rec: Score)
    requires Lists(world, names) && Consistent(world)
    ensures UseSplitFilesIntended(world, Some(names), rec).Ranked?
    ensures UseSplitFilesIntended(world, Some(names), rec).rank == 1 + Sum(names, AtLeastIn(world, rec.score))
  {
    var t := Bucket(rec.score);
    var x := rec.score;
    var found := Found(Some(names), t);
    SumPermutation(Catalog(Some(names)), names, Above(t));
    var own := (name: FileName) => if BucketOf(name) == t then CountAtLeast(Entries(world, name), x) else 0;
    forall i | 0 <= i < |names|
      ensures AtLeastIn(world, x)(names[i]) == Above(t)(names[i]) + own(names[i])
    {
      FileWeights(world, names[i], x);
    }
    SumSplit(names, AtLeastIn(world, x), Above(t), own);
    match found
    case None =>
      SumZero(names, own);
    case Some(file) =>
      var j :| 0 <= j < |names| && names[j] == file;
      forall i | 0 <= i < |names| && i != j
        ensures own(names[i]) == 0
      {
        assert names[i] in world && names[i] != file;
      }
      SumSingle(names, j, own);
      FindIndexBelowSorted(Entries(world, file), x);
  }

  /** The corrected rank is made of the higher buckets' counts and the in-file position. */
  lemma IntendedRankParts(world: World, listing: Option<seq<FileName>>, rec: Score)
    requires listing.Some? ==> Lists(world, listing.value)
    ensures var r := UseSplitFilesIntended(world, listing, rec); var t := Bucket(rec.score);
      r.Ranked? ==> r.rank == 1 + Sum(Listed(listing), Above(t)) + InFile(world, Found(listing, t), rec)
  {
    SumPermutation(Catalog(listing), Listed(listing), Above(Bucket(rec.score)));
  }

  /** The corrected write puts the record into its bucket's file. */
  lemma PlaceIntendedKeeps(world: World, found: Option<FileName>, rec: Score)
    requires found.Some? ==> found.value in world
    requires PlaceIntended(world, found, rec).Some?
    ensures var after := PlaceIntended(world, found, rec).value;
      exists name :: name in after && BucketOf(name) == Bucket(rec.score)
                  && after[name].Records? && rec in after[name].entries
  {
    var after := PlaceIntended(world, found, rec).value;
    var t := Bucket(rec.score);
    if found.None? {
      assert after[FileName(t, 1)] == Records([rec]);
    } else {
      var list := if world[found.value].Records? then world[found.value].entries else [];
      var grown := ShardInsert(list, rec);
      assert after == RewriteIntended(world, found.value, list, rec);
      assert grown[FindIndexBelow(list, rec.score)] == rec;
      assert after[FileName(t, |grown|)] == Records(grown);
    }
  }

  /** The corrected store keeps every accepted record: its bucket's file holds it afterwards. */
  lemma IntendedKeepsRecord(world: World, listing: Option<seq<FileName>>, rec: Score)
    requires listing.Some? ==> Lists(world, listing.value)
    ensures var r := UseSplitFilesIntended(world, listing, rec);
      r.Ranked? ==> exists name :: name in r.after && BucketOf(name) == Bucket(rec.score)
                      && r.after[name].Records? && rec in r.after[name].entries
  {
    var found := Found(listing, Bucket(rec.score));
    if UseSplitFilesIntended(world, listing, rec).Ranked? {
      PlaceIntendedKeeps(world, found, rec);
    }
  }

  /**
   An unreadable bucket file is replaced by a one-record file; when its
   name already claimed one record, that is the name deleted afterwards,
   and the directory is left without the record.
   */
  lemma UnreadableShard(world: World, listing: Option<seq<FileName>>, rec: Score, file: FileName)
    requires listing.Some? ==> Lists(world, listing.value)
    requires Found(listing, Bucket(rec.score)) == Some(file)
    requires file in world && world[file] == Unreadable
    ensures var r := UseSplitFiles(world, listing, rec);
      && r.Ranked?
      && r.after == world[FileName(Bucket(rec.score), 1) := Records([rec])] - {file}
      && (CountOf(file) == 1 ==> r.after == world - {file})
  {
    SplitFilesPlace(world, listing, rec);
    assert ShardInsert([], rec) == [rec];
  }

  // Findings: directories on which the code as written and the corrected store part ways.

  /** Two one-record files, buckets 0 and 1000. */
  function LowWorld(): World {
    map[FileName(0, 1) := Records([Score("p1", 500)]), FileName(1000, 1) := Records([Score("p2", 1500)])]
  }

  function LowNames(): seq<FileName> {
    [FileName(0, 1), FileName(1000, 1)]
  }

  lemma LowListed()
    ensures Lists(LowWorld(), LowNames())
  {
    var names := LowNames();
    assert forall name :: name in LowWorld() ==> name == names[0] || name == names[1];
  }

  lemma SumPair(a: FileName, b: FileName, w: FileName -> int)
    ensures Sum([a, b], w) == w(a) + w(b)
  {
    assert [a, b][1..] == [b];
    assert Sum([a, b], w) == w(a) + Sum([b], w);
    assert [b][1..] == [];
    assert Sum([b], w) == w(b) + Sum([], w);
  }

  lemma LowWritten(rec: Score)
    requires Bucket(rec.score) == 2000
    ensures Lists(LowWorld(), LowNames())
    ensures UseSplitFiles(LowWorld(), Some(LowNames()), rec).rank == 3
  {
    LowListed();
    NewBucketShard(LowWorld(), LowNames(), rec);
    SumPair(FileName(0, 1), FileName(1000, 1), Below(2000));
  }

  lemma LowIntended(rec: Score)
    requires Bucket(rec.score) == 2000
    ensures Lists(LowWorld(), LowNames())
    ensures UseSplitFilesIntended(LowWorld(), Some(LowNames()), rec).rank == 1
  {
    LowListed();
    NewBucketShard(LowWorld(), LowNames(), rec);
    IntendedRankParts(LowWorld(), Some(LowNames()), rec);
    SumPair(FileName(0, 1), FileName(1000, 1), Above(2000));
  }

  /**
   A best score of 2500 over two lower records: nobody scores higher, yet
   the code as written answers 3, counting the files below instead of above.
   */
  lemma LowerBucketsCounted()
    ensures Lists(LowWorld(), LowNames())
    ensures UseSplitFiles(LowWorld(), Some(LowNames()), Score("p3", 2500)).rank == 3
    ensures UseSplitFilesIntended(LowWorld(), Some(LowNames()), Score("p3", 2500)).rank == 1
  {
    BucketUnique(2500, 2000);
    LowWritten(Score("p3", 2500));
    LowIntended(Score("p3", 2500));
  }

  /** The listing of a directory of one file. */
  lemma SingleListed(world: World, file: FileName)
    requires world.Keys == {file}
    ensures Lists(world, [file])
  {
  }

  /** One file of bucket 1000 holding an 1800. */
  function HighWorld(): World {
    map[FileName(1000, 1) := Records([Score("p1", 1800)])]
  }

  function HighNames(): seq<FileName> {
    [FileName(1000, 1)]
  }

  /** A directory of one file, of the record's bucket: the code as written answers 1 whatever the file holds. */
  lemma SingleFileWritten(world: World, file: FileName, rec: Score)
    requires world.Keys == {file} && BucketOf(file) == Bucket(rec.score) && !world[file].Garbled?
    ensures Lists(world, [file])
    ensures UseSplitFiles(world, Some([file]), rec).Ranked?
    ensures UseSplitFiles(world, Some([file]), rec).rank == 1
  {
    var t := Bucket(rec.score);
    SingleListed(world, file);
    assert Found(Some([file]), t) == Some(file);
    GarbledShardRejects(world, Some([file]), rec, file);
    assert Sum([file], Below(t)) == Below(t)(file) + Sum([file][1..], Below(t));
    assert [file][1..] == [];
  }

  lemma HighWritten(rec: Score)
    requires Bucket(rec.score) == 1000
    ensures Lists(HighWorld(), HighNames())
    ensures UseSplitFiles(HighWorld(), Some(HighNames()), rec).rank == 1
  {
    var file := FileName(1000, 1);
    SingleFileWritten(HighWorld(), file, rec);
    assert HighNames() == [file];
  }

  /** A directory of one readable file: the corrected rank is one past the record's place in that file. */
  lemma SingleFileIntended(world: World, file: FileName, rec: Score)
    requires world.Keys == {file} && BucketOf(file) == Bucket(rec.score) && world[file].Records?
    ensures Lists(world, [file])
    ensures UseSplitFilesIntended(world, Some([file]), rec).Ranked?
    ensures UseSplitFilesIntended(world, Some([file]), rec).rank == 1 + FindIndexBelow(world[file].entries, rec.score)
  {
    var t := Bucket(rec.score);
    SingleListed(world, file);
    assert Found(Some([file]), t) == Some(file);
    GarbledShardRejects(world, Some([file]), rec, file);
    IntendedRankParts(world, Some([file]), rec);
    assert Sum([file], Above(t)) == Above(t)(file) + Sum([file][1..], Above(t));
    assert [file][1..] == [];
  }

  lemma HighIntended(rec: Score)
    requires Bucket(rec.score) == 1000 && rec.score < 1800
    ensures Lists(HighWorld(), HighNames())
    ensures UseSplitFilesIntended(HighWorld(), Some(HighNames()), rec).rank == 2
  {
    var file := FileName(1000, 1);
    var list := [Score("p1", 1800)];
    SingleFileIntended(HighWorld(), file, rec);
    assert HighNames() == [file];
    assert HighWorld()[file].entries == list;
    assert FindIndexBelow(list, rec.score) == 1 + FindIndexBelow(list[1..], rec.score);
    assert list[1..] == [];
  }

  /**
   A 1200 into a bucket already holding an 1800: one record is higher, yet
   the code as written answers 1, its in-file position never reaching the sum.
   */
  lemma InFilePositionDropped()
    ensures Lists(HighWorld(), HighNames())
    ensures UseSplitFiles(HighWorld(), Some(HighNames()), Score("p2", 1200)).rank == 1
    ensures UseSplitFilesIntended(HighWorld(), Some(HighNames()), Score("p2", 1200)).rank == 2
  {
    BucketUnique(1200, 1000);
    HighWritten(Score("p2", 1200));
    HighIntended(Score("p2", 1200));
  }

  /** One file of bucket 1000, named with one record, that cannot be read. */
  function LostWorld(): World {
    map[FileName(1000, 1) := Unreadable]
  }

  /**
   A 1500 into that bucket: the code as written writes `1000 - 1.json` and
   then deletes the old name, which is the same name, so the directory ends
   empty while the call still resolves to a rank. The corrected store keeps
   the record.
   */
  lemma UnreadableShardLost()
    ensures Lists(LostWorld(), [FileName(1000, 1)])
    ensures UseSplitFiles(LostWorld(), Some([FileName(1000, 1)]), Score("p1", 1500)) == Ranked(map[], 1)
    ensures UseSplitFilesIntended(LostWorld(), Some([FileName(1000, 1)]), Score("p1", 1500)).after
         == map[FileName(1000, 1) := Records([Score("p1", 1500)])]
  {
    var file := FileName(1000, 1);
    var rec := Score("p1", 1500);
    SingleListed(LostWorld(), file);
    BucketUnique(1500, 1000);
    assert Found(Some([file]), 1000) == Some(file);
    UnreadableShard(LostWorld(), Some([file]), rec, file);
    assert LostWorld() - {file} == map[];
    assert ShardInsert([], rec) == [rec];
    assert (LostWorld() - {file})[file := Records([rec])] == map[file := Records([rec])];
  }
}
