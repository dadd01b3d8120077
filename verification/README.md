# Data-structure cores of skynetjit, modelled and proved in Dafny

The repository embeds five self-contained cores written in C: Redis' incrementally
rehashed hash table, a ranked skip list, a protobuf runtime, the Redis bitmap
commands, and the set commands with the blob and JSON string codecs. Each is
modelled here in the form the C code has — objects whose methods change their
fields, loops over arrays — and each method is proved against what it means on
plain mathematical values. The laws that span methods are lemmas about those
values, or methods that carry out a whole run.

`dafny verify dfyconfig.toml` checks everything. The files, in reading order:

* `Basics` (shared types), `Words` (machine words as bit sequences), `Modular` (wrap-around arithmetic);
* dictionary: `Cursor`, `DictTable`, `DictScan`, `RehashingDict`, `DictIterator`, `DictRuns`;
* skip list: `SkipOrder` (sorted sequences), `SkipShape` (towers), `SkipList` (the heap structure), `Zset` (the sorted set on top of it);
* protobuf: `PbTable`, `PbNames`, `Varint`, `WireSlice`, `WireBuffer`;
* bitmaps: `Bits`, `Popcount`, `Bitpos`, `Bitfield`, `BitfieldCommand`, `BitmapRange`, `Bitop`;
* sets and codecs: `SetAlgebra`, `SetCommands`, `SetRuns`, `Blob`, `ZsetBlob`, `Utf8`, `JsonString`, `StrbufGrowth`, `JsonCodec`.

The standards behind the codecs are the Protocol Buffers Encoding guide (sections
"Base 128 Varints", "Length-Delimited Records" and "Groups"), section 7 of RFC 8259,
section 3 of RFC 3629 and section 2.2 of RFC 2781.

## Where the code does less than its comments say

The proofs keep the code as it is. For each of these a lemma or a contract
names inputs that fail, and exactly when the promise is kept.

* `slGetRank` looks at the score only to find its way: it can answer a rank for an entry
  that is not there (`SkipList.RankOfAbsentEntry`), exactly when a member with the same bytes
  and a smaller score can be seen from the entry's place (`SkipList.RankOfAbsent`). Without
  such a member it is right (`SkipList.RankRight`), so it always is for the sorted set.
* `slFirstInRange` and `slLastInRange` are said to return NULL when nothing is in the range.
  When the range falls into a gap they answer an entry outside it (`SkipOrder.RangeInGap`);
  they are right exactly when the range holds an entry (`SkipOrder.RangeAnswers`). Their only
  caller checks again, and `SkipList.SkipList.ScoreRange` is right for every range.
* The number of ranks a range asks for is kept in an int. From 2^31 ranks on nothing is
  answered, as for the ranks 1 to 2^31 of three members (`Zset.WideRange`); otherwise a range
  answers its members (`Zset.RangeRight`). `rev_range` of the sorted set answers the lowest
  member when asked for ranks beyond the end (`Zset.Zset.RevRange`).
* `limit` with a count of -1 removes all members, and with a count below that as a rule only the
  last one, because ranks are taken modulo 2^32 and in either order (`Zset.Zset.Limit`).
* `pb_resizetable` enters entry 0 as if the key 0 had been set. So that key is found with a
  blank payload once the table has outgrown its first allocation, set or not: eight other keys
  are what it takes (`PbTable.PhantomZero`, `PbTable.Table.Lookup`). A table resized while it has unused
  entries loses the payload of the key 0 (`PbTable.Table.Resize`); the code only resizes full
  tables.
* The byte count of a `pb_Table` has 32 bits. The last growth that the size limit lets through
  can wrap it, and then allocates too little: entries of 24 bytes do so when 2^27 of them are
  full (`PbTable.GrowthWraps`). `PbTable.Table.Resize` tells this apart, and promises a growth
  only when the bytes fit.
* `pb_Buffer` accepts growth to some three billion bytes, but its size has 31 bits. An append is
  right exactly when it ends below 2^31 (`WireBuffer.Buffer.AddSlice`).
* `pb_skipvarint` accepts varints of any length, while all readers stop at ten bytes
  (`WireSlice.SkipsElevenBytes`, `WireSlice.SkipsAsRead`).
* A name's reference count has sixteen bits: the 65536th reference makes it 0, and the next
  release frees a name still in use (`PbNames.TakeReferences`, `PbNames.OneReferenceTooMany`). A
  release is right exactly when the count tells the last reference from the others
  (`PbNames.ReleasedMirror`, `PbNames.FewReferences`).
  Its length has sixteen bits too: a name of 65536 bytes or more is never found again, and
  passes for its own prefix (`PbNames.LongNamePasses`, `PbNames.NameTable.UncachedFinds`). A
  cache can then change the answer, exactly when such a name is live under another hash
  (`PbNames.NameTable.CacheInvisible`).
* `checkSignedBitfieldOverflow` takes a SET value below max - (2^63 - 1) for one that is too
  large, so OVERFLOW SAT stores the largest number instead of the smallest
  (`BitfieldCommand.SatStoresHighest`, `BitfieldCommand.SatStoresNearest`). With OVERFLOW WRAP
  both checks answer 1 on underflow, where the comment says -1. For 64 unsigned bits, which
  BITFIELD does not offer, most increments count as overflow (`Bitfield.CheckUnsigned`).
* BITCOUNT answers 0 for a range whose negative start lies after its negative end; BITPOS has no
  such test, and clips it like any other (`BitmapRange.UpsideDown`).
* The loaders reduce the largest possible record count to 32 bits before they compare, so some
  well-formed blobs of 2^32 and more smallest records would be refused: four records of
  2^32 - 4 bytes are (`Blob.RefusedBlob`, `Blob.LoadIff`). A LuaJIT string cannot be that long.
* `json_append_string` sizes its buffer once for the worst case, in the type int. The request
  covers it exactly for strings of at most 357913940 bytes (`JsonCodec.RequestCovers`); with one
  byte more nothing is asked for (`JsonCodec.RequestTooLong`), and a string of plain bytes that
  the buffer has no room for is written outside it (`JsonCodec.AppendJsonString`). Growth
  doubles an int: for a size no doubling reaches, the loop never ends
  (`JsonCodec.StrBuf.CalculateNewSize`). For a buffer that started with the default 1023 bytes
  those are the sizes above 2145386496 (`StrbufGrowth.DefaultReaches`).
* The JSON reader departs from section 7 of RFC 8259 in two ways: it accepts control characters
  that are not escaped (`JsonString.RawControl`), and refuses the escape of a surrogate on its
  own (`JsonString.ReaderDiffers`).

## Model

| member | source | states |
|---|---|---|
| Words.Rev | redislib-src/kernel/dict.c:1434-1444 | the loop of halving swaps returns the word with its bits in reverse order |
| Cursor.NextCursorPosition | redislib-src/kernel/dict.c:1588-1596 | setting the unmasked bits, reversing, adding one and reversing back moves the reversed cursor to the next bucket prefix, or to 0 after the last |
| Cursor.StepCovers | redislib-src/kernel/dict.c:1588-1596 | a cursor step goes strictly up or wraps to 0, and passes exactly the hashes of the cursor's bucket |
| Cursor.ExpansionStep | redislib-src/kernel/dict.c:1612-1628 | stepping through the larger table's expansions of a small bucket keeps the prefix and ends where the smaller table alone would have gone |
| DictScan.CallCovers | redislib-src/kernel/dict.c:1572-1633 | one call emits every key whose reversed hash lies between the cursor given and the cursor returned |
| DictScan.BehindCursor | redislib-src/kernel/dict.c:1572-1633 | at any point of a scan, every key present at all calls and behind the reversed cursor has been emitted |
| DictScan.ScanGuarantee | redislib-src/kernel/dict.c:1446-1528 | a scan from 0 back to 0 has emitted every key present at each of its calls, whatever tables and sizes the calls found |
| DictScan.CursorAdvances | redislib-src/kernel/dict.c:1572-1633 | the bit-reversal of every non-zero returned cursor is strictly larger than that of the cursor given |
| DictScan.ScanTerminates | redislib-src/kernel/dict.c:1572-1633 | a scan makes no more calls than there are cursors |
| RehashingDict.Dict.Scan | redislib-src/kernel/dict.c:1572-1633 | on the two tables of a dict in any state, the code emits and returns what the scan step means, and leaves the dict as it was |
| RehashingDict.Dict.Layout | redislib-src/kernel/dict.c:240-305 | each key is in exactly one table, in an existing bucket, in none of table 0 already moved, and in table 1 only while rehashing |
| RehashingDict.Dict.BucketMembers | redislib-src/kernel/dict.c:338-378 | a bucket holds exactly the keys its index masks to, each once |
| DictTable.BucketIsRemainder | redislib-src/kernel/dict.c:338-378 | masking a hash gives its remainder by the number of buckets |
| RehashingDict.NextExpIsLeast | redislib-src/kernel/dict.c:1736-1743 | the chosen table is the least power of two, from 4 up, with a bucket for each entry |
| RehashingDict.TooBigFrom | redislib-src/kernel/dict.c:240-258 | a size is too big exactly from more than 2^(width - 4) entries on |
| RehashingDict.MoveEntry | redislib-src/kernel/dict.c:338-378 | moving one entry, bare keys included, keeps both tables well formed and the counts right; when shrinking, masking the old index is masking the hash |
| RehashingDict.Dict.RehashBucket | redislib-src/kernel/dict.c:338-378 | empties one bucket of table 0, touches no other, and changes no key or value |
| RehashingDict.Dict.Rehash | redislib-src/kernel/dict.c:398-438 | moves n filled buckets or visits 10n empty ones, in order from rehashidx; when nothing is left table 1 replaces table 0; held back by policy it changes nothing; the map stays the same |
| RehashingDict.Dict.BucketRehash | redislib-src/kernel/dict.c:477-496 | moves just the bucket asked for, and completes the rehashing when it was the last |
| RehashingDict.Dict.RehashStepIfNeeded | redislib-src/kernel/dict.c:1721-1734 | moves the visited bucket when it still holds something, else advances rehashidx; never while paused |
| RehashingDict.Dict.HeldBackMeaning | redislib-src/kernel/dict.c:398-438 | by the numbers, when the policy holds rehashing back |
| RehashingDict.Dict.Resize | redislib-src/kernel/dict.c:240-305 | fails exactly on overflow or for the size there is already; else starts moving into a table of the chosen size, at once when there is nothing to move |
| RehashingDict.Dict.Expand | redislib-src/kernel/dict.c:307-318 | succeeds exactly when not rehashing, large enough and larger than now |
| RehashingDict.Dict.Shrink | redislib-src/kernel/dict.c:328-334 | succeeds exactly when not rehashing, large enough and smaller than now |
| RehashingDict.Dict.ExpandIfNeeded | redislib-src/kernel/dict.c:1647-1684 | starts growing exactly at the policy's load, unless paused or already rehashing |
| RehashingDict.Dict.ShrinkIfNeeded | redislib-src/kernel/dict.c:1689-1719 | starts shrinking exactly at the policy's load, which always succeeds |
| RehashingDict.Dict.FindLinkForInsert | redislib-src/kernel/dict.c:1749-1784 | finds the entry of a key, or the bucket it has to go to, in both tables |
| RehashingDict.Dict.InsertKeyAtLink | redislib-src/kernel/dict.c:548-581 | adds the key at the head of its bucket, bare when it is the only one of a no_value dict |
| RehashingDict.Dict.Add | redislib-src/kernel/dict.c:499-545 | adds exactly a key that was not there, and says so; afterwards the entries there before were fewer than the buckets, or rehashing is under way, unless growth is off or too big; while rehashing it moves the rehashing on |
| RehashingDict.Dict.Replace | redislib-src/kernel/dict.c:588-614 | sets the value of a key, and says whether it was new |
| RehashingDict.Dict.Find | redislib-src/kernel/dict.c:767-813 | answers the value of a key exactly when it is in the map, in any state of rehashing, which it moves on |
| RehashingDict.Dict.Delete | redislib-src/kernel/dict.c:628-679 | removes exactly the key, and says whether it was there; afterwards more than an eighth of the buckets is needed, or rehashing is under way, unless shrinking is off; while rehashing it moves the rehashing on |
| DictRuns.RunOps | redislib-src/kernel/dict.c:499-813 | any sequence of add, replace, find, delete, expand, shrink, rehash and policy steps answers and leaves what it would on a finite map |
| DictRuns.ScanWhile | redislib-src/kernel/dict.c:1446-1528 | with any operations on the dict between its calls a scan ends; it has then emitted every key that the finite map had at each call, and none that it had at none |
| DictScan.ScanSound | redislib-src/kernel/dict.c:1572-1633 | a key emitted by a call of a run was in the dict at that call |
| DictIterator.Iterator.Next | redislib-src/kernel/dict.c:1185-1221 | yields an entry that was pending and no longer is, or the end when none is; all others stay as they are |
| DictIterator.Iterator.DeleteYielded | redislib-src/kernel/dict.c:1185-1221 | the caller may delete the entry just returned, even if that starts a resize, without upsetting the iteration |
| DictIterator.Iterator.Meanwhile | redislib-src/kernel/dict.c:1185-1221 | additions, replacements, lookups, resizing either way, changes of policy and removal of the entry just returned, between two calls, leave every other entry pending or visited |
| DictIterator.IterateAll | redislib-src/kernel/dict.c:1145-1221 | a safe iteration with any such steps between its calls, from any state of the dict, yields every entry that was there; nothing comes twice but keys removed and brought in again, or brought in anew; the map ends as the steps say |
| SkipOrder.CompareAntisymmetric | luaclib-src/zset/skiplist.c:82-90 | comparing bytes and then lengths says equal exactly for equal strings, and is antisymmetric |
| SkipOrder.Lexicographic | luaclib-src/zset/skiplist.c:82-90 | a string comes first exactly when its first different byte is smaller, or it is a proper prefix |
| SkipOrder.SortedMeaning | luaclib-src/zset/skiplist.c:92-110 | the list is in order when scores ascend, and bytes do among equal scores |
| SkipOrder.RangeAnswers | luaclib-src/zset/skiplist.c:276-335 | the entry each range search answers is in the range exactly when some entry is |
| SkipOrder.EndsMeetIff | luaclib-src/zset/skiplist.c:278-294 | the ends meet a range exactly when some score is not below it and some is not above |
| SkipOrder.RangeInGap | luaclib-src/zset/skiplist.c:296-335 | a range inside the list's ends but without entries makes both searches answer an entry outside it |
| SkipOrder.BetweenIsStretch | luaclib-src/zset/lua-skiplist.c:133-165 | the members between two scores are one stretch of the list |
| SkipList.SkipList.Insert | luaclib-src/zset/skiplist.c:92-144 | for any tower height the full invariant is kept (order, sub-lists, spans, backward links, tail, level, length) and the contents become the sorted insertion |
| SkipList.SkipList.DeleteNode | luaclib-src/zset/skiplist.c:147-165 | unlinking a node on all levels keeps the invariant and removes just its entry |
| SkipList.SkipList.Delete | luaclib-src/zset/skiplist.c:168-192 | removes exactly the entry asked for, and says whether it was there |
| SkipList.SkipList.DeleteByRank | luaclib-src/zset/skiplist.c:196-226 | removes exactly the slice of ranks clipped to the list, calling back in order |
| SkipList.SkipList.GetRank | luaclib-src/zset/skiplist.c:228-250 | answers the position of the visible tower with the member's bytes, or 0 |
| SkipList.RankOfMember | luaclib-src/zset/skiplist.c:228-250 | an entry of the list gets its 1-based position |
| SkipList.RankOfAbsent | luaclib-src/zset/skiplist.c:228-250 | an entry that is not in the list gets a rank exactly when a member with its bytes and a smaller score can be seen from its place |
| SkipList.RankRight | luaclib-src/zset/skiplist.c:228-250 | for a query whose bytes no member has under a smaller score, the rank is found exactly when the entry is in the list, and is its position |
| SkipList.RankOfAbsentEntry | luaclib-src/zset/skiplist.c:228-250 | a query that is not in the list can get a rank |
| SkipList.SkipList.GetNodeByRank | luaclib-src/zset/skiplist.c:252-274 | answers the node at a rank, none beyond the ends |
| SkipList.SkipList.RankOfSelected | luaclib-src/zset/skiplist.c:228-274 | the entry at a rank has that rank |
| SkipList.SkipList.SelectRanked | luaclib-src/zset/skiplist.c:228-274 | the node at the rank of an entry is that entry's |
| SkipList.SkipList.IsInRange | luaclib-src/zset/skiplist.c:278-294 | tests the ends of the list against a range |
| SkipList.SkipList.FirstInRange | luaclib-src/zset/skiplist.c:297-315 | answers the first entry at or above the minimum when the ends meet the range |
| SkipList.SkipList.LastInRange | luaclib-src/zset/skiplist.c:318-335 | answers the last entry at or below the maximum when the ends meet the range |
| SkipList.SkipList.ScoreRange | luaclib-src/zset/lua-skiplist.c:133-165 | lists exactly the members between two scores, upwards or downwards |
| SkipList.SkipList.RankRange | luaclib-src/zset/lua-skiplist.c:107-131 | lists the members between two ranks, upwards or downwards; nothing when the first is outside the list, or from 2^31 ranks on |
| SkipOrder.RanksFromAt | luaclib-src/zset/lua-skiplist.c:107-131 | which member stands at each place of a range of ranks, and how many there are |
| Zset.PlaceIsRank | luaclib-src/zset/skiplist.c:228-250 | a member's place in the list is one more than the number of members with smaller score, or equal score and smaller bytes |
| Zset.OneList | luaclib-src/lua/zset.lua:6-25 | the table of scores alone decides what the list is |
| Zset.Zset.Add | luaclib-src/lua/zset.lua:6-17 | sets the score of a member, in the table and the list alike |
| Zset.Zset.Rem | luaclib-src/lua/zset.lua:19-25 | removes a member from both |
| Zset.Zset.Limit | luaclib-src/lua/zset.lua:35-43 | keeps exactly the members of the first ranks, and says how many went; says what negative counts do |
| Zset.Zset.RevLimit | luaclib-src/lua/zset.lua:45-55 | keeps exactly the members of the last ranks, none for a negative count |
| Zset.Zset.Rank | luaclib-src/lua/zset.lua:82-88 | answers the rank of a member, told from the table alone, and nothing for others |
| Zset.Zset.RevRank | luaclib-src/lua/zset.lua:74-80 | answers the rank from the end |
| Zset.Zset.RevRange | luaclib-src/lua/zset.lua:57-72 | lists the members of some ranks from the end, in either order; the lowest member for ranks beyond it |
| Zset.RangeRight | luaclib-src/lua/zset.lua:63-72 | a range answers its members exactly when it has fewer than 2^31 ranks or starts outside the list |
| Zset.RangeClamps | luaclib-src/lua/zset.lua:63-72 | ranks below 1 stand for 1, and ordinary ranks for themselves |
| Zset.WideRange | luaclib-src/lua/zset.lua:63-72 | of three members the ranks from 1 to 2^31 are none |
| Zset.Zset.RankThenRange | luaclib-src/lua/zset.lua:63-88 | a member is found again at its rank |
| Zset.RunZset | luaclib-src/lua/zset.lua:6-55 | any run of additions, removals and limits leaves the table they mean and its one sorted list, whatever tower heights are drawn |
| PbTable.JoinChained | luaclib-src/pb/pb.h:891-896 | a colliding key linked in behind its slot keeps every chain intact |
| PbTable.DisplaceChained | luaclib-src/pb/pb.h:886-890 | moving a guest out of a key's own slot keeps its chain, and gives the key a chain of its own |
| PbTable.FullCount | luaclib-src/pb/pb.h:880-884 | a table is full exactly when it holds one key less than entries |
| PbTable.Underfull | luaclib-src/pb/pb.h:915-920 | while a larger table is being refilled it is never full, so refilling does not grow it |
| PbTable.Table.NewKey | luaclib-src/pb/pb.h:872-901 | a new key gets a blank entry and nothing else is lost; it grows exactly when there was no room, and fails exactly when the size limit is reached or the byte count wraps |
| PbTable.Table.Resize | luaclib-src/pb/pb.h:903-924 | fails, or wraps the byte count, exactly for the sizes that say so; otherwise all keys keep their payloads, the key 0 exactly when every other entry is used; ends without nested growth |
| PbTable.Table.Get | luaclib-src/pb/pb.h:926-937 | finds a non-zero key exactly when it is in the table, and the key 0 when its flag is set |
| PbTable.Table.Set | luaclib-src/pb/pb.h:939-944 | the entry of a key, made when there is none |
| PbTable.Table.Put | luaclib-src/pb/pb.h:939-944 | setting a key and writing its payload updates the map the table stands for; it fails exactly for a new key in a full table that cannot grow |
| PbTable.Table.Lookup | luaclib-src/pb/pb.h:926-937 | a lookup sees the map; the key 0 also appears once the table has outgrown its first allocation |
| PbTable.PutAll | luaclib-src/pb/pb.h:866-944 | after any run of insertions the table stands for the last payload of each key; a put is refused exactly when its key is new and those before fill a table that cannot grow |
| PbTable.PhantomZero | luaclib-src/pb/pb.h:903-924 | after any insertions of other keys, the key 0 is found exactly when eight keys or more are in the table |
| PbTable.GrowthWraps | luaclib-src/pb/pb.h:903-912 | entries of 24 bytes: growing from 2^27 of them wraps the byte count |
| PbTable.DoubledFromMin | luaclib-src/pb/pb.h:903-908 | asked for twice the entries, the size found is that, exactly while the table is below the size limit |
| PbNames.MatchIsEquality | luaclib-src/pb/pb.h:1056-1068 | for names under 65536 bytes the table's test is equality, and nothing passes with a wrong hash |
| PbNames.NameTable.GetName | luaclib-src/pb/pb.h:1056-1068 | finds a live entry that passes the test exactly when there is one |
| PbNames.NameTable.Resize | luaclib-src/pb/pb.h:997-1020 | every live entry is in the chain its hash has in the larger table |
| PbNames.NameTable.NewName | luaclib-src/pb/pb.h:1078-1093 | equal short names share one entry, which gains one reference; a name of 65536 bytes or more always gets a new one; null exactly when the name is not found and a full table cannot grow |
| PbNames.NameTable.DelName | luaclib-src/pb/pb.h:1070-1076 | removes the entry exactly when its sixteen-bit count shows at most one reference |
| PbNames.NameTable.FindName | luaclib-src/pb/pb.h:1095-1114 | answers what the chains hold for the hash the cache has for the address, or else for the computed one |
| PbNames.NameTable.CacheInvisible | luaclib-src/pb/pb.h:1095-1114 | every cache leaves the answer as it is without one, exactly when no live name of 65536 bytes or more passes for the name under another hash |
| PbNames.NameTable.UncachedFinds | luaclib-src/pb/pb.h:1056-1068 | a name is found exactly when it is short and live or a longer one with its hash passes for it |
| PbNames.LongNamePasses | luaclib-src/pb/pb.h:1022-1068 | a name of 65536 + k bytes passes for its first k bytes and not for itself |
| PbNames.TakeReferences | luaclib-src/pb/pb.h:1070-1093 | a name can be given 65536 references |
| PbNames.OneReferenceTooMany | luaclib-src/pb/pb.h:1070-1076 | giving up one of 65536 references removes the name |
| PbNames.SixteenBits | luaclib-src/pb/pb.h:1070-1093 | the count is right below 65536 references and starts again at 0 there |
| PbNames.ReleasedMirror | luaclib-src/pb/pb.h:1070-1076 | a release keeps the table true to the references held exactly when the count tells the last one from the others |
| PbNames.FewReferences | luaclib-src/pb/pb.h:1070-1076 | which it does in every run that never has 65536 references to a name |
| PbNames.RunNames | luaclib-src/pb/pb.h:988-1114 | over any run whose counts tell, each operation is carried out exactly when the references held demand it, and an entry is live exactly while there are some, each counted right |
| Varint.RoundTrip | luaclib-src/pb/pb.h:690-717 | every number written is read back in full by the 64-bit rule and modulo 2^32 by the 32-bit one, whatever follows |
| Varint.RawWeights | luaclib-src/pb/pb.h:411-425 | each byte of a varint weighs 128 times the one before |
| Varint.GuideExample | luaclib-src/pb/pb.h:704-717 | 150 and 300 are written as in the encoding guide |
| Varint.EncodeShortest | luaclib-src/pb/pb.h:704-717 | no varint of the same number is shorter than the one written |
| WireSlice.Slice.ReadVarintSlow | luaclib-src/pb/pb.h:411-425 | value, length and failure of the byte-by-byte reader |
| WireSlice.Slice.ReadVarint32Fallback | luaclib-src/pb/pb.h:427-446 | the unrolled reader agrees modulo 2^32, and stays inside the buffer |
| WireSlice.Slice.ReadVarint64Fallback | luaclib-src/pb/pb.h:448-466 | the unrolled reader in three 28-bit parts agrees, and stays inside the buffer |
| WireSlice.Slice.ReadVarint32 | luaclib-src/pb/pb.h:475-485 | whichever reader is picked, the answer is the varint's value modulo 2^32 |
| WireSlice.Slice.ReadVarint64 | luaclib-src/pb/pb.h:487-493 | whichever reader is picked, the answer is the varint's value |
| WireSlice.Slice.ReadBytes | luaclib-src/pb/pb.h:533-545 | delimits exactly the body after its length, or leaves the cursor |
| WireSlice.Slice.SkipVarint | luaclib-src/pb/pb.h:583-589 | skips to the first byte without continuation bit, however far |
| WireSlice.Slice.SkipBytes | luaclib-src/pb/pb.h:591-601 | skips a length and its body, or leaves the cursor |
| WireSlice.Slice.SkipValue | luaclib-src/pb/pb.h:568-581 | skips what the grammar calls one value, or leaves the cursor; eight bytes for a tag that is 1 modulo 8, four for 5, none for 4, 6 and 7 |
| WireSlice.WireTypes | luaclib-src/pb/pb.h:568-581 | by the numbers of the encoding guide, what each wire type skips |
| WireSlice.GroupEndsAt4 | luaclib-src/pb/pb.h:547-566 | a group goes on field by field to the first tag that is 4 modulo 8, which has to be of its number |
| WireSlice.SmallGroup | luaclib-src/pb/pb.h:547-607 | a group of field 1 with an eight-byte field 2 in it is skipped |
| WireSlice.Slice.ReadGroup | luaclib-src/pb/pb.h:547-566 | delimits the contents of a group up to the matching end tag, or leaves the cursor |
| WireSlice.SkipsValue | luaclib-src/pb/pb.h:547-607 | every well-formed value, with any nesting of groups, is skipped to its end whatever follows |
| WireSlice.SkipsGroup | luaclib-src/pb/pb.h:547-566 | every well-formed group is skipped, and its contents end where its end tag starts |
| WireSlice.ParseFields | luaclib-src/pb/pb.h:547-566 | the bytes skipped as a group are well-formed fields and an end tag of the same number |
| WireSlice.SkipIffValue | luaclib-src/pb/pb.h:547-607 | skipping consumes n bytes exactly when the input starts with a well-formed value of n bytes |
| WireSlice.SkipsAsRead | luaclib-src/pb/pb.h:583-589 | a varint field is skipped as it would be read, exactly up to ten bytes |
| WireSlice.SkipsElevenBytes | luaclib-src/pb/pb.h:583-589 | eleven bytes that no reader takes are skipped |
| WireBuffer.Write32 | luaclib-src/pb/pb.h:690-702 | writes the varint of a 32-bit number in at most five bytes |
| WireBuffer.Write64 | luaclib-src/pb/pb.h:704-717 | writes the varint of a 64-bit number in at most ten bytes |
| WireBuffer.Buffer.PrepBuffSize | luaclib-src/pb/pb.h:719-735 | makes room and keeps the contents, or changes nothing; the room may be more than the 31-bit size can count |
| WireBuffer.Buffer.AddSlice | luaclib-src/pb/pb.h:737-744 | appends the bytes exactly when they end below 2^31, the size wrapping otherwise |
| WireBuffer.Buffer.AddVarint32 | luaclib-src/pb/pb.h:771-777 | appends the varint of a number exactly when it ends below 2^31 |
| WireBuffer.Buffer.AddLength | luaclib-src/pb/pb.h:746-762 | puts the length of what follows in front of it, over the bytes reserved, moving the rest, exactly when all ends below 2^31 |
| WireBuffer.Emit | luaclib-src/pb/pb.c:1616-1623 | writing bodies with reserved lengths that are filled in later gives the nested encoding, unless there is no room or it passes 2^31 bytes |
| WireBuffer.ReadBack | luaclib-src/pb/pb.h:533-545 | a body closed by its length is returned unchanged, whatever follows |
| WireBuffer.NestedReadBack | luaclib-src/pb/pb.h:533-545 | so is every body at every depth of nesting |
| Popcount.SwarLanes | redislib-src/kernel/bitops.c:111-138 | after the three steps each byte of a word holds the bit count of that byte |
| Popcount.Gather | redislib-src/kernel/bitops.c:139-146 | the sum of seven words never carries between bytes, and the multiplication gathers it |
| Popcount.RedisPopcount | redislib-src/kernel/bitops.c:68-153 | counts the set bits of any string at any alignment |
| Bits.CountBytes | redislib-src/kernel/bitops.c:68-153 | counting bytes by the table is counting bits one by one |
| Bitpos.RedisBitpos | redislib-src/kernel/bitops.c:393-478 | the first set or clear bit at any alignment; -1 only for no set bit, the length when all bits are set |
| BitmapRange.FirstMaskedCount | redislib-src/facade/bitmap.c:184-206 | the mask of the first byte counts just the bits before the range |
| BitmapRange.LastMaskedCount | redislib-src/facade/bitmap.c:184-206 | the mask of the last byte counts just the bits after the range |
| BitmapRange.BitCount | redislib-src/facade/bitmap.c:162-210 | the answer of the range, in any position of the bitmap in memory |
| BitmapRange.CountsOrdinary | redislib-src/facade/bitmap.c:162-210 | an ordinary range counts the bits from its start to its end, both included; one upside down or beyond the end counts none |
| BitmapRange.CountsIndices | redislib-src/facade/bitmap.c:172-183 | negative indices count from the end, those before the beginning are the first unit, an end beyond the last unit is the last |
| BitmapRange.Search | redislib-src/facade/bitmap.c:268-293 | masked first byte, whole bytes and masked last byte together find the first bit of the range |
| BitmapRange.BitPos | redislib-src/facade/bitmap.c:215-309 | the answer of the range, and for an empty bitmap the first clear bit |
| BitmapRange.FindsOrdinary | redislib-src/facade/bitmap.c:215-309 | the first such bit of an ordinary range, of the bitmap from a start, and of the whole bitmap, with what is answered when there is none |
| BitmapRange.FindsIndices | redislib-src/facade/bitmap.c:232-247 | the same for indices as for BITCOUNT |
| BitmapRange.UpsideDown | redislib-src/facade/bitmap.c:161-309 | a negative range upside down is empty for BITCOUNT, but for BITPOS not when both ends lie before the beginning |
| Bitop.ResultBits | redislib-src/facade/bitmap.c:371-511 | each bit computed is what its operator means, ONE being set in exactly one source |
| Bitop.WordPass | redislib-src/facade/bitmap.c:371-468 | the four-words-at-a-time pass gives the same bytes as the definition |
| Bitop.StaysSettled | redislib-src/facade/bitmap.c:471-505 | once the tail may leave its loop early no further source changes anything |
| Bitop.TailByte | redislib-src/facade/bitmap.c:471-505 | the byte tail with early exits gives the same byte |
| Bitop.BitOp | redislib-src/facade/bitmap.c:314-511 | for all eight operators and any sources the result has the longest length and the bits each operator means; wrong source counts are refused |
| Bitop.OperatorMeaning | redislib-src/facade/bitmap.c:371-511 | the eight operators in terms of the sources that have a bit: all, some, an odd number, not the first, the first alone, others alone, the first and another, exactly one |
| Bitfield.FieldRoundTrip | redislib-src/kernel/bitops.c:501-533 | getting what was set gives the value modulo the width |
| Bitfield.FieldBits | redislib-src/kernel/bitops.c:521-533 | the bits of a field's number are those of the bitmap, most significant first |
| Bitfield.SignedMeaning | redislib-src/kernel/bitops.c:535-555 | a signed field is in range and differs by 0 or 2^bits from its number |
| Bitfield.WrapMeaning | redislib-src/kernel/bitops.c:649-669 | wrapping gives the number in range that is the same modulo 2^bits |
| Bitfield.FieldApart | redislib-src/kernel/bitops.c:501-514 | a field that shares no bit keeps its value |
| Bitfield.SetUnsigned | redislib-src/kernel/bitops.c:501-514 | writes the low bits of a value, most significant first, and changes no other bit |
| Bitfield.SetSigned | redislib-src/kernel/bitops.c:516-519 | the same for the two's complement of a signed value |
| Bitfield.GetUnsigned | redislib-src/kernel/bitops.c:521-533 | reads the field's number |
| Bitfield.GetSigned | redislib-src/kernel/bitops.c:535-555 | reads the field in two's complement |
| Bitfield.CheckUnsigned | redislib-src/kernel/bitops.c:580-615 | up to 63 bits answers 0 exactly when value and sum fit, the limit wrapping modulo the width or clamping; says what 64 bits do instead |
| Bitfield.CheckSigned | redislib-src/kernel/bitops.c:617-670 | for a value in range answers 0 exactly when the sum fits; wraps in two's complement or clamps; tells when an out-of-range value is misjudged |
| Bitfield.WrapIsWrap | redislib-src/kernel/bitops.c:649-669 | the sign-propagating mask is two's-complement wrap-around |
| BitfieldCommand.SatStoresNearest | redislib-src/facade/bitmap.c:627-649 | a saturating SET of a signed field stores the nearest number exactly when the value is not below max - (2^63 - 1) or the field has 64 bits |
| BitfieldCommand.SatStoresHighest | redislib-src/kernel/bitops.c:617-642 | setting -2^63 in eight signed bits stores 127 |
| BitfieldCommand.WriteThenRead | redislib-src/facade/bitmap.c:624-673 | a write that is not refused stores a number of its type, which a read finds, and leaves all other fields |
| BitfieldCommand.CommandMeaning | redislib-src/facade/bitmap.c:624-694 | by the numbers, what SET, INCRBY and GET answer and store, for values that fit and under each overflow rule |
| BitfieldCommand.NeededIsLeast | redislib-src/facade/bitmap.c:618-624 | the bitmap is grown no further than the last field written |
| BitfieldCommand.CopiedField | redislib-src/facade/bitmap.c:674-693 | nine copied bytes are enough for any field, zeros standing beyond the end |
| BitfieldCommand.Bitmap.ExecSigned | redislib-src/facade/bitmap.c:627-649 | one SET or INCRBY on a signed field does what it means |
| BitfieldCommand.Bitmap.ExecUnsigned | redislib-src/facade/bitmap.c:650-673 | one SET or INCRBY on an unsigned field does what it means |
| BitfieldCommand.Bitmap.ExecGet | redislib-src/facade/bitmap.c:674-693 | a GET answers the field's number |
| BitfieldCommand.BitfieldGeneric | redislib-src/facade/bitmap.c:610-698 | the operations run in order on the grown bitmap, each reply telling what its operation saw and did; the read-only form refuses writes |
| SetAlgebra.InterGeneric | redislib-src/facade/set.c:818-883 | lists the intersection, each member once, after sorting; the CARD form answers its size without a limit, and the smaller of size and limit with one |
| SetAlgebra.DiffByLookup | redislib-src/facade/set.c:963-986 | algorithm 1 computes the difference |
| SetAlgebra.DiffByCollecting | redislib-src/facade/set.c:987-1008 | algorithm 2b answers the smaller of its size and the limit |
| SetAlgebra.DiffByRemoval | redislib-src/facade/set.c:1009-1030 | algorithm 2 computes the difference |
| SetAlgebra.UnionInto | redislib-src/facade/set.c:944-960 | the union, or as many of its members as the limit asks for |
| SetAlgebra.DiffGeneric | redislib-src/facade/set.c:892-1039 | whichever algorithm the cost estimate picks, and for missing or repeated operands, the answer is the difference |
| SetAlgebra.UnionDiffGeneric | redislib-src/facade/set.c:892-1050 | SUNION and SDIFF list the mathematical result once each; the CARD forms answer its size without a limit, and the smaller of size and limit with one |
| SetCommands.Handle.Add | redislib-src/facade/set.c:202-221 | the set gains the members, the reply counts the new ones |
| SetCommands.Handle.Remove | redislib-src/facade/set.c:228-259 | the set loses the members even when the loop stops early; an emptied set leaves no payload |
| SetCommands.Handle.PopOne | redislib-src/facade/set.c:412-424 | takes one member out, if there is one |
| SetCommands.Handle.Pop | redislib-src/facade/set.c:426-488 | reply and remainder part the old set, with as many popped as asked for or there are |
| SetCommands.Move | redislib-src/facade/set.c:368-398 | moves the member, keeping the union of both sets; the empty source and the same set change nothing |
| SetRuns.StepConserves | redislib-src/facade/set.c:202-505 | any one command hands out or keeps every member there was or it was given, unless it removes it by name, and makes none up |
| SetRuns.Conserved | redislib-src/facade/set.c:202-505 | after any run over any handles, what the sets hold and what was popped is what they held and what was added, less members removed by name |
| SetRuns.Accounted | redislib-src/facade/set.c:202-505 | the replies of a run account exactly for the number of members at its end, a move onto a set that has the member making one of two |
| SetRuns.RunSets | redislib-src/facade/set.c:142-505 | any run of SADD, SREM, SMOVE and SPOP keeps every handle empty-null or non-empty, answers as the sets demand, and conserves the members |
| Blob.LoadIff | redislib-src/facade/rl_common.c:385-425 | a loader accepts exactly the blobs of some records with nothing left over, whose count passes the check |
| Blob.LeAt | redislib-src/facade/rl_common.c:199-230 | numbers are written least significant byte first |
| Blob.NaNPatterns | redislib-src/facade/rl_common.c:292-297 | not numbers are exactly the patterns beyond the two infinities |
| Blob.ScoreOrder | redislib-src/facade/rl_common.c:292-313 | scores compare as numbers: negative patterns run backwards, both zeros are equal, the infinities are the ends |
| Blob.LessMeaning | redislib-src/facade/rl_common.c:317-327 | the order of a walk is by score, then by bytes |
| Blob.OneMemberBlob | redislib-src/facade/rl_common.c:356-376 | the bytes of the blob of a set of one member |
| Blob.CountIsOk | redislib-src/facade/rl_common.c:394-399 | the count check stands in no blob's way below 2^32 smallest records |
| Blob.RefusedBlob | redislib-src/facade/rl_common.c:394-399 | the blob of four members of 2^32 - 4 bytes is refused |
| Blob.OneSetListing | redislib-src/facade/rl_common.c:317-327 | a set has one sorted listing, whatever its iteration order, so it has one blob |
| Blob.SetRoundTrip | redislib-src/facade/rl_common.c:356-445 | loading a dumped set gives it back exactly when its sizes fit and the count passes |
| Blob.LoadSetBlob | redislib-src/facade/rl_common.c:385-445 | the two-pass loader returns the members of the records, or nothing |
| Blob.DumpSetBlob | redislib-src/facade/rl_common.c:329-376 | members gathered in any order are sorted and written as the set's blob |
| ZsetBlob.OneWalk | redislib-src/facade/rl_common.c:171-193 | a sorted set has one walk by score and bytes, so it has one blob |
| ZsetBlob.AcceptIff | redislib-src/facade/rl_common.c:256-314 | a blob is accepted exactly when it is some records, none with a NaN score, whose count passes the check |
| ZsetBlob.OneMemberLoads | redislib-src/facade/rl_common.c:256-314 | the blob of one member is loaded exactly when its score is a number, infinities included |
| ZsetBlob.OneMemberBytes | redislib-src/facade/rl_common.c:231-254 | the bytes of the blob of one member |
| ZsetBlob.AddedAgain | redislib-src/facade/rl_common.c:288-305 | a member added again takes the new score, but a zero keeps its sign |
| ZsetBlob.ZsetRoundTrip | redislib-src/facade/rl_common.c:231-314 | loading a dumped sorted set gives it back exactly when its sizes fit and the count passes |
| ZsetBlob.DumpZset | redislib-src/facade/rl_common.c:231-254 | writes the walk as the records' blob |
| ZsetBlob.LoadZsetBlob | redislib-src/facade/rl_common.c:256-314 | adds records as they are read, later ones winning unless equal as numbers, or gives nothing |
| Utf8.EncodeIsUtf8 | luaclib-src/cjson/lua_cjson.c:806-839 | exactly the scalar values are written as well-formed shortest-form UTF-8, which spells them |
| JsonString.RoundTrip | luaclib-src/cjson/lua_cjson.c:160-192 | reading the text written for any bytes gives them back, whatever follows |
| JsonString.Encoded | luaclib-src/cjson/lua_cjson.c:479-503 | the text of n bytes has at most 6n+2 bytes |
| JsonString.WrittenText | luaclib-src/cjson/lua_cjson.c:160-192 | how each byte is written, by its value |
| JsonString.EncodedText | luaclib-src/cjson/lua_cjson.c:479-503 | the text of a string is that of its bytes between quotes |
| JsonString.Scan | luaclib-src/cjson/lua_cjson.c:918-976 | the string read is shorter than the text consumed |
| JsonString.ScanIff | luaclib-src/cjson/lua_cjson.c:918-976 | reading succeeds exactly on the texts of the grammar, and gives what their items mean |
| JsonString.SimpleEscapes | luaclib-src/cjson/lua_cjson.c:450-462 | what each simple escape is read as, by its value; any other is refused |
| JsonString.PlainBytes | luaclib-src/cjson/lua_cjson.c:918-976 | a quote ends the string, a NUL is refused, other bytes stand for themselves |
| JsonString.HexDigits | luaclib-src/cjson/lua_cjson.c:772-782 | the hexadecimal digits, in either case, and nothing else |
| JsonString.HexNumber | luaclib-src/cjson/lua_cjson.c:785-805 | the weights of the four digits |
| JsonString.ReaderDiffers | luaclib-src/cjson/lua_cjson.c:918-976 | its items are those of section 7 of RFC 8259, with unescaped control characters and without lone surrogates |
| JsonString.RawControl | luaclib-src/cjson/lua_cjson.c:918-976 | an unescaped control character is read |
| JsonString.UnicodeEscape | luaclib-src/cjson/lua_cjson.c:852-908 | every character, as one escape or a surrogate pair, is read as its UTF-8 form |
| JsonCodec.RequestCovers | luaclib-src/cjson/lua_cjson.c:488-492 | the sizing request, computed in 32 bits, covers 6n + 2 bytes exactly for n up to 357913940 |
| JsonCodec.RequestTooLong | luaclib-src/cjson/lua_cjson.c:492 | one byte more and the request is negative |
| JsonCodec.StrBuf.CalculateNewSize | luaclib-src/cjson/strbuf.c:136-160 | the first doubling, in 32 bits, that is enough; exits for a length that is none, and is endless exactly when no doubling is enough |
| StrbufGrowth.DefaultReaches | luaclib-src/cjson/strbuf.c:150-156 | a buffer grown from 1023 bytes reaches exactly the sizes up to 2145386496 |
| JsonCodec.AppendJsonString | luaclib-src/cjson/lua_cjson.c:479-503 | appends the string's text; up to 357913940 bytes nothing is written outside the buffer, and it ends as its one growth does; beyond that, a plain string is written outside when it does not happen to fit |
| JsonCodec.Parser.DecodeHex4 | luaclib-src/cjson/lua_cjson.c:772-805 | four hexadecimal digits, or failure at the first that is none, never reading beyond the final NUL |
| JsonCodec.Parser.AppendUnicodeEscape | luaclib-src/cjson/lua_cjson.c:852-908 | takes one escape or surrogate pair, and appends its UTF-8 form within the room it frees |
| JsonCodec.Parser.NextStringToken | luaclib-src/cjson/lua_cjson.c:918-976 | reads what the grammar says, with unchecked appends that stay inside the buffer |

## Left out

- Rewriting of chain links in place: the dict's chains and the name table's chains are values held by their buckets, so relinking an entry replaces the chain; aliasing of chain nodes is not captured.
- The arrays `update` and `rank` of the skip list are local sequences, and a node's level array is a sequence field.
- The random level of slInsert is a parameter, any height from 1 to 32.
- Scores of the skip list are real numbers; infinite and NaN scores are not part of this model.
- Machine limits of list lengths and spans, which are unbounded here. Word width is a parameter of the dict, and narrower arithmetic is written out where it decides a result (varints, bit fields, SWAR sums, blob lengths, name lengths and counts, buffer sizes, table byte counts, JSON string sizes, ranks that a caller passes).
- Memory failure, except where a size limit of the code itself makes growth fail.
- RehashingDict.Dict.Add: requires a table or no pause of automatic resizing, because on a dict without any table dictFindLinkForInsert would read a table that is not there.
- RehashingDict.Dict.Replace: the same precondition, for the same reason.
- dictScan's callback only records the keys it is given; a callback that changes the dict is not modelled, nor is defragmentation.
- dict.c: force_full_rehash, metadata hooks, two-phase unlink, dictSetKeyAtLink, dictEmpty, unsafe iterators with fingerprints, random keys, statistics, timed rehashing.
- PbTable.Table.Resize: only when the size found is not below the present one, which is so for the two calls in pb.h; into a smaller table entries would be refilled while it grows, and a null entry would be used if that failed.
- WireBuffer.Emit: once the size of the buffer has wrapped the model stops and says so; what the encoder goes on to write is not modelled.
- JsonCodec.Parser.constructor: the text is shorter than 2^31 - 1 bytes, as every LuaJIT string is.
- JsonCodec.AppendJsonString: what happens after a write outside the buffer is not modelled; the string is shorter than 2^31 bytes.
- Deletion from pb_Table by zeroing keys, and the descriptor loader.
- pb_Buffer's bytes inside the structure: both kinds of buffer are an array.
- The hash of a name is taken on its bytes as pbN_calchash does; that the address of the bytes identifies them to the cache is not assumed.
- Zigzag numbers, fixed-width fields and floating point of protobuf.
- AVX2, AVX512, NEON and popcnt instructions in bitops.c; memory order of words only matters for popcount, where any order gives the same count.
- Bitfield.CheckUnsigned: with 64 bits and wrap-around its limit is left open, because the shift by 64 is undefined in C.
- SETBIT and GETBIT, parsing of command arguments, Lua stack handling and error texts.
- BitmapRange.BitCount: a start without an end is a syntax error before anything is counted, so it is a precondition here.
- Encodings of set payloads (intset, listpack, hashtable): a payload is its set of members, iterated in an arbitrary order and sampled at will.
- qsort is modelled as an insertion sort with the same comparison.
- SetRuns.RunSets: the handles share no payload, and SADD and SREM get at least one member, which the facade checks first.
- SRANDMEMBER and the distribution of random members.
- The double of a score is its bit pattern with IEEE order; arithmetic on scores is not needed.
- lua_createtable, which refuses to make room for very many ranks before any are listed.
- An entry of the dict's iterator is a value: a value replaced after its chain was saved is seen in the dict, not in the iterator.
- JSON numbers, objects and arrays, and the position and text of parse errors.
