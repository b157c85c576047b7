# Score store of the game server, in Dafny

The game server keeps one leaderboard per world. A submission `(world path, player address, score)` stores the player's score and answers the player's 1-based rank, where 1 is the highest score. Everything lives in `server/src/db/addScore.ts`, which has two layouts:

- **Individual files**, the layout the server runs. The default export validates its arguments and calls `useIndividualFiles`. That function keeps a world as one JSON list, highest score first, with one record per player address:
  - a new player is spliced in after the strictly higher scores;
  - a returning player's record is raised only when the new score is higher, and the list is then re-sorted.
- **Sharded files**, `useSplitFiles`. The default export never calls it. A world is a directory with one file per thousand of the score range, named `<bucket> - <count>.json`. A submission goes into its bucket's file, and that file is written again under a name whose count is the length of the grown list (line 214) before the old name is deleted. The answer is computed from the names in the directory listing.

The model treats each call as one atomic step from a file store to a file store:

- `LiveStore.Store` is a set of directories and a map from path to file content.
- `ShardedStore.World` is a map from shard name to content.
- File content is `Scores.Content`. It is a parsed list of records, `Unreadable` (the read failed or returned empty text, which the code treats as `[]`), or `Garbled` (text `JSON.parse` rejects, which makes the call's promise reject).
- A call's result is a `Step`: the store it leaves, plus either the rank it resolves to or a rejection.

The JavaScript library calls are modelled explicitly:

- `Array.prototype.sort` is a stable insertion sort (`Sorting.SortBy`).
- `find`, `findIndex`, `filter(...).length` and `splice` become `Sorting.FindKey`, `Scores.FindIndexBelow`, `Scores.CountAbove` and `Sorting.InsertAt`.
- `split`, `includes`, `parseInt` and number printing become `Text.Split`, `Text.Contains`, `Text.ParseInt` and `Text.IntToString`.

Modules:

| file | module | contents |
|---|---|---|
| common.dfy | Common | `Option`, and the `Step` a call takes |
| sorting.dfy | Sorting | splice, removal, stable sort, `find` |
| sums.dfy | Sums | sums of weights over a sequence |
| text.dfy | Text | `split`/`join`, `includes`, integer printing and `parseInt` |
| scores.dfy | Scores | score records, file content, counts and searches over highest-first lists |
| live_store.dfy | LiveStore | the default export and `useIndividualFiles` |
| shard_names.dfy | ShardNames | buckets and shard file names |
| sharded_store.dfy | ShardedStore | `useSplitFiles` as written, its invariant, and a corrected version |

Behaviour of `addScore.ts` that shapes the model:

- The default export calls only `useIndividualFiles` (line 22). Nothing calls `useSplitFiles` (lines 133-235); it is modelled as written.
- On the live path a new player is spliced in at the count of strictly higher scores (lines 103-110). It lands *before* existing equal scores, so a later equal submission outranks the earlier one.
- In a shard file the splice is at the first strictly lower score (lines 202-207). A new record lands *after* equal scores.
- A shard file that cannot be read, or reads as empty text, is parsed as `'[]'` (lines 197-200) and overwritten. Only text that `JSON.parse` rejects (line 191) rejects the call.
- A failed `readdir` is caught and taken as an empty listing (lines 148-151).
- `useSplitFiles` declares `scoresAboveInFile` at line 166 and again, inside the `else` block, at line 202. The answer at line 234 adds the outer one, which stays 0, to the counts summed at lines 228-232. See Findings.

## Model

| member | source | states |
|---|---|---|
| LiveStore.Rejected | server/src/db/addScore.ts:14 | The guard of the default export. AddScore states the answer is 0 with the store untouched exactly when it holds |
| LiveStore.WorldDir | server/src/db/addScore.ts:31 | `./data/<first path segment>`. UseIndividualFiles states it is the only directory the call adds |
| LiveStore.WorldFile | server/src/db/addScore.ts:46 | `./data/<dbPath>.json`. UseIndividualFiles states it is the only file the call changes |
| LiveStore.AddScore | server/src/db/addScore.ts:9-23 | The answer is 0 with the store untouched exactly when the address is empty, the score is 0 or the path contains `undefined`; any other answer is a rank of at least 1 |
| Text.Contains | server/src/db/addScore.ts:14 | `includes` is true exactly when the text occurs at some position |
| LiveStore.UseIndividualFiles | server/src/db/addScore.ts:25-131 | The world's directory is made and no file but the world file changes. The call rejects exactly when the world file is not JSON, and then writes nothing. Otherwise the world file ends up a readable list and the rank is at least 1 |
| LiveStore.MissingWorldFile | server/src/db/addScore.ts:44-55 | A world file that does not exist ends up holding exactly the new record, and the answer is 1 |
| LiveStore.UnreadableWorldFile | server/src/db/addScore.ts:56-65 | A world file that cannot be read, or reads as empty text, is overwritten with exactly the new record, and the answer is 1 |
| LiveStore.Merge | server/src/db/addScore.ts:68-118 | Merging into a parsed list always answers a rank of at least 1, changes only the world file, and leaves it a readable list |
| Scores.FindIp | server/src/db/addScore.ts:70-72 | `find` by address gives the first entry with that address, and nothing exactly when no entry has it |
| LiveStore.Raised | server/src/db/addScore.ts:80 | `existingRecord.score = scoreData.score` on the first entry with the address. RaiseExistingPermutes states that the written list is this list re-sorted, with exactly that one score replaced |
| LiveStore.RaiseExisting | server/src/db/addScore.ts:80-83 | Raising one entry and re-sorting keeps the list's length and leaves it highest-first |
| LiveStore.RaiseExistingPermutes | server/src/db/addScore.ts:80-83 | The re-sorted list is the old list with exactly that one entry's score replaced. Entries of equal score keep their relative order, because the sort is stable |
| Scores.SortDesc | server/src/db/addScore.ts:81-83 | Sorting by `b.score - a.score` gives a highest-first permutation of the list |
| Scores.SortDescStable | server/src/db/addScore.ts:81-83 | The sort keeps entries with equal scores in their original order |
| Scores.SortDescKeepsPlayersApart | server/src/db/addScore.ts:81-83 | Sorting a list with one entry per address keeps one entry per address |
| LiveStore.RaisedPlayerRank | server/src/db/addScore.ts:78-95 | A returning player with a higher score gets the raised, re-sorted list written. The answer is one plus the number of *other* entries strictly above the new score |
| LiveStore.KeptPlayerRank | server/src/db/addScore.ts:88-95 | A returning player whose stored score is at least the new one: nothing is written. The answer is one plus the entries strictly above the submitted score, which counts the player's own entry when it is higher |
| Scores.CountAboveSorted | server/src/db/addScore.ts:103-105 | In a highest-first list the entries strictly above a score are exactly the first `CountAbove` ones |
| Scores.CountAbovePermutation | server/src/db/addScore.ts:92-94 | The count of strictly higher scores does not depend on the order of the list |
| Scores.CountAboveRemove | server/src/db/addScore.ts:92-94 | Removing one entry lowers the count of strictly higher scores by one exactly when that entry is strictly higher |
| Scores.CountAbove | server/src/db/addScore.ts:103-105 | `filter(score > x).length`, also at lines 92-94: the entries strictly above `x`. CountAboveSorted, CountAbovePermutation and CountAboveRemove state what it counts |
| Sorting.InsertAt | server/src/db/addScore.ts:106-110 | `splice(k, 0, x)`, also at line 207: one longer, `x` at `k`, the elements before `k` in place and those after shifted by one, and the multiset grown by `x`. RemoveInsert takes it back out |
| LiveStore.InsertNew | server/src/db/addScore.ts:103-110 | The new player's record sits at index k, the number of strictly higher scores, and the list grows by one |
| LiveStore.InsertNewUndone | server/src/db/addScore.ts:106-110 | Removing index k from the spliced list gives the old list back; the contents grow by exactly the new record |
| LiveStore.InsertNewOrder | server/src/db/addScore.ts:103-110 | Splicing into a highest-first list keeps it highest-first. Everything before the new record is strictly higher, and everything after is at most equal, so the new player goes ahead of equal scores |
| Scores.InsertKeepsPlayersApart | server/src/db/addScore.ts:106-110 | Splicing in an address not yet present keeps one entry per address |
| LiveStore.NewPlayerRank | server/src/db/addScore.ts:103-130 | A player not yet in the list is spliced in at k, and the answer is k + 1, between 1 and the old length plus one |
| LiveStore.AddScoreKeepsWellKept | server/src/db/addScore.ts:25-131 | Every accepted submission keeps the world file a highest-first list with one entry per address. The answer lies between 1 and the new list's length plus one |
| LiveStore.ThreeSubmissions | server/src/db/addScore.ts:9-131 | 1200, 1800 and 1500 submitted in turn to an empty store rank 1, 1 and 2, and the world ends as 1800, 1500, 1200 |
| Text.JoinSplit | server/src/db/addScore.ts:31 | `split` loses nothing: joining its parts with the separator gives the text back |
| Sorting.SortBy | server/src/db/addScore.ts:152-157 | Sorting the listing gives a permutation of it, ascending by bucket |
| Sorting.SortByStable | server/src/db/addScore.ts:152-157 | Names with the same bucket keep their listing order |
| Sorting.FindKey | server/src/db/addScore.ts:167-171 | `find` by bucket gives a name with that bucket, and nothing exactly when no name has it |
| Sorting.FindKeyHeadsKeyClass | server/src/db/addScore.ts:167-171 | `find` returns the *first* match: the found element heads the list of elements with that key. FindIp states the same of the `find` by address at lines 70-72 |
| Sorting.FindKeyAfterSort | server/src/db/addScore.ts:152-171 | Finding in the sorted listing gives what finding in the unsorted listing gives |
| ShardNames.Bucket | server/src/db/addScore.ts:158-159 | The bucket is a multiple of 1000 with bucket ≤ score < bucket + 1000 |
| ShardNames.BucketUnique | server/src/db/addScore.ts:158-159 | It is the only such multiple |
| Text.Split | server/src/db/addScore.ts:155 | `split(' - ')`, also at lines 31, 162, 169 and 230: at least one part. JoinSplit states that joining the parts with the separator gives the text back, and SplitAfter and SplitWithout state where the cuts fall |
| Text.ParseInt | server/src/db/addScore.ts:155 | `parseInt`, also at lines 162, 169 and 230: it yields a number exactly when digits follow the optional sign. ParseIntToString states that it reads a printed integer back |
| Text.ParseIntToString | server/src/db/addScore.ts:155-156 | `parseInt` reads back a printed integer that is followed by a non-digit |
| Text.IntToString | server/src/db/addScore.ts:214 | The decimal printing of the numbers in the name templates, also at line 177: at least one character, all digits or `-`. ParseIntToString states that `parseInt` reads the printed number back |
| ShardNames.ShardName | server/src/db/addScore.ts:214 | The name template `<bucket> - <count>.json`, also at line 177. ParseShardName states that `parseInt` reads both fields back |
| ShardNames.ParseBucket | server/src/db/addScore.ts:155 | `parseInt(name.split(' - ')[0])`, also at lines 162 and 169. ParseShardName states it gives back the bucket a name was written with |
| ShardNames.ParseCount | server/src/db/addScore.ts:230 | `parseInt(name.split(' - ')[1].split('.')[0])`. ParseShardName states it gives back the count a name was written with |
| ShardNames.ParseShardName | server/src/db/addScore.ts:214 | The name `<bucket> - <count>.json` parses back, through `split(' - ')` and `split('.')`, to its bucket and its count |
| ShardNames.SpelledParses | server/src/db/addScore.ts:162 | The bucket and count the code parses out of a shard's name on disk are the ones the name was written from |
| ShardNames.SpelledDistinct | server/src/db/addScore.ts:177 | Two shard files share a name exactly when they have the same bucket and count |
| ShardedStore.Listed | server/src/db/addScore.ts:148-151 | A failed `readdir` is caught and taken as an empty listing. FailedListingSplitsBucket states what that does to a consistent directory |
| ShardedStore.Catalog | server/src/db/addScore.ts:145-157 | The sorted listing is a permutation of the listing, ascending by bucket |
| ShardedStore.Found | server/src/db/addScore.ts:167-171 | The file picked for a bucket is a listed name with that bucket, and nothing exactly when no listed name has it |
| Scores.FindIndexBelow | server/src/db/addScore.ts:202-206 | `findIndex(score < new)`, with -1 replaced by the length: everything before it scores at least the new score, and the entry there scores lower |
| Scores.FindIndexBelowSorted | server/src/db/addScore.ts:202-206 | In a highest-first list that position is the number of scores at least the new one |
| ShardedStore.ShardInsert | server/src/db/addScore.ts:202-207 | The grown file is one longer and holds the record at that position |
| ShardedStore.ShardInsertOrder | server/src/db/addScore.ts:202-207 | The record lands after every score at least its own and before every lower one; removing it gives the file back |
| ShardedStore.ShardInsertSorted | server/src/db/addScore.ts:202-207 | The grown file stays highest-first |
| ShardedStore.FoundFirstListed | server/src/db/addScore.ts:152-171 | The file picked for a bucket is the first name with that bucket in the order the listing gave, so when two files share a bucket the first listed one is grown |
| ShardedStore.Place | server/src/db/addScore.ts:172-225 | The directory write fails exactly when the bucket's file is not JSON |
| ShardedStore.UseSplitFiles | server/src/db/addScore.ts:133-235 | The answer is one plus the counts in the names of the listed files whose bucket is below the record's. A rejected call leaves the directory unchanged |
| ShardedStore.SplitRank | server/src/db/addScore.ts:228-234 | Summed in the sorted order the code uses, the counts below the record's bucket give the same answer as summed in the order the directory lists them |
| ShardedStore.RewriteShape | server/src/db/addScore.ts:208-225 | Writing the grown list under a new name and then deleting the old name leaves the new file, removes the old one, and changes no other name |
| ShardedStore.Rewrite | server/src/db/addScore.ts:208-225 | The write of the grown list under its length, then the deletion of the old name. RewriteShape states what the directory then holds |
| Sums.Sum | server/src/db/addScore.ts:228-232 | The `reduce` that adds a weight per file. SumPermutation states the total does not depend on the order of the files |
| ShardedStore.OtherBucketsUntouched | server/src/db/addScore.ts:172-225 | Files of every other bucket are neither added, removed nor changed |
| ShardedStore.GarbledShardRejects | server/src/db/addScore.ts:191-201 | The call rejects exactly when the bucket's file is not JSON |
| ShardedStore.NewBucketShard | server/src/db/addScore.ts:172-185 | A bucket without a file gets a new file named with count 1 and holding only the record; nothing else changes |
| ShardedStore.ExistingBucketShard | server/src/db/addScore.ts:186-225 | A consistent bucket file (as many records as its name says, highest first, all in its bucket) is rewritten under its count plus one, holding the grown list. The old name is gone, and the directory's names are otherwise the same |
| ShardedStore.UnreadableShard | server/src/db/addScore.ts:191-225 | An unreadable bucket file is replaced by a one-record file. When its own name already had count 1, the deletion removes the new file and the record is lost |
| ShardedStore.GrownShardHolds | server/src/db/addScore.ts:202-214 | A consistent file, grown by a record of its bucket, is consistent under its new name |
| ShardedStore.PlaceKeepsConsistent | server/src/db/addScore.ts:172-225 | In a consistent directory a submission always lands, and the directory stays consistent. Consistent means: each file holds a highest-first list of its bucket's scores, as many as its name says, and no two files share a bucket |
| ShardedStore.UseSplitFilesKeepsConsistent | server/src/db/addScore.ts:133-235 | When the directory listing succeeds, a call on a consistent directory resolves and leaves it consistent |
| ShardedStore.FailedListingSplitsBucket | server/src/db/addScore.ts:145-151 | When `readdir` fails, a 1500 into a consistent directory holding `1000 - 2.json` writes `1000 - 1.json` beside it, and the directory is no longer consistent |
| ShardedStore.FileWeights | server/src/db/addScore.ts:160-164 | In a consistent directory a file's bucket decides how many of its records score below the record's bucket, and how many score at least the record |
| Sums.SumPermutation | server/src/db/addScore.ts:228-232 | Summing name counts over the sorted listing gives what it gives over the listing |
| ShardedStore.Below | server/src/db/addScore.ts:160-164 | The `<` filter, with the name count each kept file adds at lines 229-230. FileWeights states how many records a consistent file then contributes, and WrittenRank the total |
| ShardedStore.WrittenRank | server/src/db/addScore.ts:228-234 | On a consistent directory the answer as written is one plus the number of stored records scoring below the record's bucket |
| ShardedStore.LowerBucketsCounted | server/src/db/addScore.ts:160-164 | For a 2500 over records of 500 and 1500 the code answers 3; the corrected version answers 1 |
| ShardedStore.InFilePositionDropped | server/src/db/addScore.ts:202 | For a 1200 into a bucket holding an 1800 the code answers 1; the corrected version answers 2 |
| ShardedStore.SingleFileWritten | server/src/db/addScore.ts:202 | In a directory holding only the record's bucket file the code answers 1, however many higher records that file holds |
| ShardedStore.UnreadableShardLost | server/src/db/addScore.ts:208-225 | For a 1500 into an unreadable `1000 - 1.json`, the code leaves an empty directory and still answers 1; the corrected version leaves the record in `1000 - 1.json` |
| ShardedStore.UseSplitFilesIntended | server/src/db/addScore.ts:133-235 | The corrected function rejects exactly when the code does, and then leaves the directory unchanged |
| ShardedStore.PlaceIntended | server/src/db/addScore.ts:208-225 | The corrected write fails exactly when the bucket's file is not JSON |
| ShardedStore.IntendedRankParts | server/src/db/addScore.ts:234 | The corrected answer is one plus the counts of the higher buckets plus the in-file position |
| ShardedStore.IntendedRankCounts | server/src/db/addScore.ts:228-234 | On a consistent directory the corrected answer is one plus the number of stored records scoring at least the new score |
| ShardedStore.IntendedKeepsRecord | server/src/db/addScore.ts:208-225 | After a corrected call that resolves, the bucket's file holds the record |

## Left out

- File system calls (`existsSync`, `mkdirSync`, `readFile`, `writeFile`, `unlink`, `readdir`) are a map from name to content. Failed writes and deletions are not modelled: every write succeeds. A failed `readdir` is the `None` listing, which the code turns into an empty one.
- Asynchrony and concurrency are not modelled. The writes at lines 84, 111 and 120-127 are not awaited; they are taken to finish before the next call. The write-then-delete window of the sharded layout, and races between concurrent submissions, are outside a sequential model.
- `JSON.stringify`/`JSON.parse` and the content of text that does not parse are not modelled. A file is a list of records, unreadable, or garbled.
- Logging (`c.log`) has no effect on the result.
- `mkdirSync` for the sharded layout (lines 137-142) is left out; its world is one directory's files.
- Paths are plain concatenation. `path.join` normalisation (`..`, repeated `/`) is not modelled.
- ShardNames.FileName: the directory holds only names of the form the code writes, `<bucket> - <count>.json`. Other names are not modelled. Their `parseInt` can yield `NaN` in the sort. A name without ` - ` whose leading number lies below the record's bucket (`500.json` before a 1500) passes the filter at lines 160-164. The `reduce` at line 230 then throws a `TypeError` on `split(' - ')[1]`, and the promise rejects after the write and unlink at lines 172-226 have already run.
- Text.ParseInt: reads an optional sign and the run of decimal digits that follows. Leading whitespace and `0x` prefixes are not modelled; the names it reads never have them.
- Text.IntToString: prints integers in plain decimal. The exponent form JavaScript uses from 1e21 up is not modelled.
- LiveStore.AddScore: the address and score are a string and an integer. `undefined` is folded into the empty string and 0. `NaN` and fractional scores are not modelled.
- ShardedStore.UseSplitFilesKeepsConsistent: promised only when `readdir` succeeds. A failed listing is taken as empty (lines 148-151), so a bucket that already has a file gets a second one; FailedListingSplitsBucket shows the directory is then no longer consistent.
- ShardedStore.WrittenRank, ShardedStore.IntendedRankCounts: stated for directories written only by this code (`Consistent`). For other directories only `UseSplitFiles`'s own contract applies.

## Findings

| source | as written | input that shows it | evidently intended | confidence | as-written member | corrected member |
|---|---|---|---|---|---|---|
| server/src/db/addScore.ts:160-164 | The sum keeps files whose bucket is *below* the record's | Files `0 - 1.json` holding 500 and `1000 - 1.json` holding 1500, then a 2500: answers 3 although no one scores higher | Count the files whose bucket is above the record's: answers 1 | not executed | ShardedStore.LowerBucketsCounted | ShardedStore.IntendedRankCounts |
| server/src/db/addScore.ts:202 | The inner `let scoresAboveInFile` shadows the one at line 166, so the in-file position never reaches the answer at line 234 | `1000 - 1.json` holding 1800, then a 1200: answers 1 although one record is higher | Add the in-file position: answers 2 | not executed | ShardedStore.InFilePositionDropped | ShardedStore.IntendedRankCounts |
| server/src/db/addScore.ts:208-225 | The grown file is written first and the old name deleted afterwards; when the two names coincide, the new file is deleted | An unreadable `1000 - 1.json`, then a 1500: writes `1000 - 1.json` and then deletes it, leaving no record, yet answers 1 | Delete the old name before writing the new one, so the record survives | not executed | ShardedStore.UnreadableShardLost | ShardedStore.IntendedKeepsRecord |
