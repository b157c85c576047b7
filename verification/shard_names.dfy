/**
 The layout `useSplitFiles` gives a world directory: one file per thousand
 of the score range, named `<bucket> - <count>.json`, where `count` is the
 number of records the file holds.
 */
module ShardNames {
  import opened Common
  import opened Text

  /** Width of the score range one shard file covers. */
  const BucketWidth: int := 1000

  /** `Math.floor(score / 1000) * 1000`: the lowest score of the score's thousand. */
  function Bucket(score: int): (b: int)
    ensures b % BucketWidth == 0
    ensures b <= score < b + BucketWidth
  {
    (score / BucketWidth) * BucketWidth
  }

  /** The bucket is the only multiple of the width whose range holds the score. */
  lemma BucketUnique(score: int, b: int)
    requires b % BucketWidth == 0 && b <= score < b + BucketWidth
    ensures b == Bucket(score)
  {
    var q := b / BucketWidth;
    assert b == q * BucketWidth;
    var p := Bucket(score) / BucketWidth;
    assert Bucket(score) == p * BucketWidth;
  }

  /** The template `${bucket} - ${count}.json`. */
  function ShardName(bucket: int, count: nat): string {
    IntToString(bucket) + " - " + NatToString(count) + ".json"
  }

  /** `parseInt(name.split(' - ')[0])`: the bucket field of a file name. */
  function ParseBucket(name: string): Option<int> {
    ParseInt(Split(name, " - ")[0])
  }

  /**
   `parseInt(name.split(' - ')[1].split('.')[0])`: the count field. Without
   a second field the code throws a `TypeError` where this answers `None`;
   a name spelled from a `FileName` always has one (`SpelledParses`).
   */
  function ParseCount(name: string): Option<int> {
    var fields := Split(name, " - ");
    if |fields| < 2 then None else ParseInt(Split(fields[1], ".")[0])
  }

  /** The count field with its extension never contains a space. */
  lemma CountFieldHasNoSpace(count: nat)
    ensures forall i :: 0 <= i < |NatToString(count) + ".json"| ==> (NatToString(count) + ".json")[i] != ' '
  {
    var n := NatToString(count);
    var c := n + ".json";
    forall i | 0 <= i < |c|
      ensures c[i] != ' '
    {
      if i < |n| {
        assert c[i] == n[i];
      } else {
        assert c[i] in ".json";
      }
    }
  }

  /** Neither field of a shard name contains the `' - '` the parser cuts at. */
  lemma SplitShardName(bucket: int, count: nat)
    ensures Split(ShardName(bucket, count), " - ") == [IntToString(bucket), NatToString(count) + ".json"]
  {
    var a := IntToString(bucket);
    var c := NatToString(count) + ".json";
    assert ShardName(bucket, count) == a + " - " + c;
    SplitAfter(a, " - ", c);
    CountFieldHasNoSpace(count);
    SplitWithout(c, " - ");
  }

  /** The count field ends at the first `'.'`, where the extension starts. */
  lemma SplitCountField(count: nat)
    ensures Split(NatToString(count) + ".json", ".")[0] == NatToString(count)
  {
    var n := NatToString(count);
    assert n + ".json" == n + "." + "json";
    SplitAfter(n, ".", "json");
  }

  /** Encoding then parsing a shard name gives back its bucket and count. */
  lemma ParseShardName(bucket: int, count: nat)
    ensures ParseBucket(ShardName(bucket, count)) == Some(bucket)
    ensures ParseCount(ShardName(bucket, count)) == Some(count)
  {
    SplitShardName(bucket, count);
    SplitCountField(count);
    assert IntToString(bucket) + "" == IntToString(bucket);
    ParseIntToString(bucket, "");
    assert IntToString(count) + "" == NatToString(count);
    ParseIntToString(count, "");
  }

  /**
   A file of a world directory, by the bucket and record count its name
   spells. Only names of the form the store writes are modelled:
   `SpelledParses` shows `parseInt` reads the pair back from the name, and
   `SpelledDistinct` that different pairs never share a name.
   */
  datatype FileName = FileName(bucket: int, count: nat)

  /** The name on disk, `<bucket> - <count>.json`. */
  function Spelled(name: FileName): string {
    ShardName(name.bucket, name.count)
  }

  /** The bucket a shard file covers. */
  function BucketOf(name: FileName): int {
    name.bucket
  }

  /** The record count a shard file's name claims. */
  function CountOf(name: FileName): nat {
    name.count
  }

  /** What the code parses out of a name on disk is the pair the name was written from. */
  lemma SpelledParses(name: FileName)
    ensures ParseBucket(Spelled(name)) == Some(BucketOf(name))
    ensures ParseCount(Spelled(name)) == Some(CountOf(name))
  {
    ParseShardName(name.bucket, name.count);
  }

  /** Two files share a name on disk exactly when they cover the same bucket with the same count. */
  lemma SpelledDistinct(a: FileName, b: FileName)
    ensures Spelled(a) == Spelled(b) <==> a == b
  {
    if Spelled(a) == Spelled(b) {
      SpelledParses(a);
      SpelledParses(b);
    }
  }
}
