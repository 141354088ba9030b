# RedisXSlot, verified

RedisXSlot is a Redis module that keeps, for each database, an index of all keys: one hash table for every
hash slot, and one skip list of the tagged keys, ordered by the CRC of their tag. The index serves slot-wise
scanning, deletion and migration of keys to another server. This project models that machinery in Dafny and
proves what it is for. `dafny verify dfyconfig.toml` checks everything.

The layers, each built on the ones before it:

- **The hash table** (`dep/dict.c`). `Words` and `Cursor` describe 64-bit words as bit sequences, the reversal
  of a word by mask-and-shift stages, and the scan order: a word's position is the value of its reversal, a
  bucket of a table is an interval of positions, and a bucket of a larger table is a part of one of a smaller
  table. `HashTable` and `DictSpec` say what one table, two tables and a migration between them are, as the keys
  of the chains. `DictScan` proves the scan guarantee over arbitrary runs and counts the calls, `DictRehash` says
  how much a call of the rehashing does, `DictGrowth` when sizes change and that growth keeps up with insertion. `Dictionary` is the code: linked entries updated in place, with methods that follow the C functions
  branch by branch. Each method is tied to `DictSpec` or `DictScan` and to a map.
- **The skip list** (`dep/skiplist.c`). `SkipItems` is the abstract value, a strictly sorted sequence of
  (score, member). `SkipLinks` says what every link and span must be at every level and how insertion and
  deletion keep them so. `SkipLists` is the code on nodes with forward links, spans and backward links.
- **The queue** (`dep/list.c`): `LinkedLists`.
- **Codecs** (`dep/util.c`, `crc32.c`): `Decimal` prints and parses 64-bit integers, `Crc32` is the table-driven
  checksum against the bit-serial CRC of section 8 of RFC 1952.
- **The index** (`redisxslot.c`, `module.c`). `Slots` finds the tag, the CRC and the slot of a key. `SlotIndexes`
  is the index of one database over real tables and a real skip list: adding, deleting and flushing keep it in
  agreement with a plain set of keys, and a walk of the skip list collects a tag group. `Scanning` is `SLOTSSCAN`
  over whole runs. `Notifications` is the index of all databases driven by keyspace events, with the static
  variables that hold the first half of a rename or a move.
- **Migration** (`redisxslot.c`, `module.c`). `Wire` is the argument vector and the splitting into commands,
  `Migration` the two servers and the sending of objects when every step may fail, `Pool` the sending from a
  thread pool, and `KeyMigration` the whole of it: dump, send, delete, and try again.
- **Emptying slots** (`redisxslot.c`). `Draining` is `SLOTSDEL` and slot migration, over the index of a database
  and the two servers at once.

The hash function, the random level of a skip-list node, the choice of a random key, and the failure of a
call to another server are arbitrary. Members are compared by the bytewise order of `RedisModule_StringCompare`.
A proof method hides definitions that it does not need with `hide`, which only takes facts away.

Where the code and its own words differ, or the code does not keep a promise, the code is followed:

- A migrated key is restored under its C string, so that a key with a zero byte arrives as the part before it and is
  then deleted here (`KeyMigration.ZeroByteLost`). A time to live is restored as it was read, and zero means none, so
  that a key with less than a millisecond left becomes one that does not expire (`KeyMigration.ExpiryLost`). Into a
  server that holds none of the keys, all keys arrive with value and time to live exactly when none has a zero byte or
  no time left (`KeyMigration.ArrivalExact`), and nothing is lost exactly then (`KeyMigration.LossExact`). Migrating
  keys and draining a slot lose nothing at any moment under that condition, whatever fails.
- The index is told of deletions and expirations, not of evictions (module.c:1002-1010), so that it can name keys that
  the server does not hold. The commands leave it to the delete event to take a key out, and `UNLINK` of such a key fires none:
  `SLOTSDEL` then reports success, and the key stays (`Draining.StaleKeyStays`). With nothing passed over, `SLOTSDEL`
  empties its slots exactly when the server holds all their keys and no slot holds a positive multiple of 2^32
  keys, which look like none as an `int` (`Draining.DelSlotKeys`). A slot with a key that the server does not hold is never
  drained by migration either (`Draining.Drain`).
- `SLOTSSCAN` may make ten times as many calls as keys are asked for, exactly as long as that number is a `long`
  (`Scanning.RoundsExact`); for greater counts it may stop earlier, and the cursor it returns is still right.
- The dump of keys leaves a hole for each key that is not there, but the objects sent are the first ones. They have
  no hole exactly when the keys that are there come first (`KeyMigration.NoHoles`, `KeyMigration.HoleFirst`).
- `zslIsInRange` is described as telling whether a part of the list is in the range. It can say yes when no
  item is (`SkipItems.QuickTestTooWide`); `SkipItems.MeetsExactly` gives the exact condition, and the callers
  make the second comparison.
- `slots_num` masks the CRC with the number of slots minus one. That is the remainder for every CRC exactly
  when the number of slots is a power of two (`Slots.SlotIsRemainder`); for every other number of slots some
  CRC lands in a different slot, though always in an existing one.
- `m_dictAdd` reports failure for a present key only, except that doubling a full table of 2^63 or more
  entries overflows `unsigned long`; `Dictionary.Dict.Add` states both cases as an if-and-only-if.

## Model

| member | source | states |
|---|---|---|
| Words.Reverse | dep/dict.c:756-764 | the mask-and-shift loop is true bit reversal of all 64 bits |
| Words.ExchangeReverses | dep/dict.c:758-762 | one stage of the loop swaps neighbouring blocks of bits, so that blocks of twice the size being in reverse order makes blocks of the size be |
| Words.NextMask | dep/dict.c:758-760 | the mask computed in each round selects every other block of the halved size |
| Words.Bucket | dep/dict.c:859-876 | `v & sizemask` for a table of size 2^k is the value of the low k bits, below the size |
| Cursor.BucketInterval | dep/dict.c:859-926 | two words select the same bucket of a table exactly when their positions in the scan order lie in the same interval |
| Cursor.NextPos | dep/dict.c:866-872 | setting the unmasked bits and incrementing the reversed cursor moves to the start of the next interval, or to zero after the last one |
| Cursor.Nested | dep/dict.c:888-926 | the interval of a bucket of a larger table lies within that of the bucket of a smaller table that the same word selects |
| Cursor.NextInLarger | dep/dict.c:904-926 | the loop test on the bits between the two masks says exactly whether the larger table has a further bucket inside the same bucket of the smaller |
| HashTable.PushPlaces | dep/dict.c:297-323 | linking a key at the head of the chain its hash selects keeps every key in its own bucket, adds just that key and counts it |
| HashTable.UnlinkRemoves | dep/dict.c:368-406 | unlinking a key from its chain removes just that key, keeps the placement and counts it |
| HashTable.MoveChainMoves | dep/dict.c:207-218 | moving a chain to the other table places each of its keys by its hash there, keeps the keys already there and counts all |
| HashTable.NextPowerIsSize | dep/dict.c:956-966 | the table size is a power of two, at least 4, not below the request when that is possible, and less than twice a larger request |
| DictSpec.MoveBucketMoves | dep/dict.c:205-221 | moving one bucket conserves all keys: each is in exactly one of the tables, at the bucket its hash selects |
| DictSpec.SkipLands | dep/dict.c:200-204 | the walk passes only empty buckets, one visit each, and ends within the table at a bucket in use unless the visits run out first |
| DictSpec.RoundKeeps | dep/dict.c:194-221 | a round of rehashing keeps keys, counts and emptiness below the migration index, and moves the index forward |
| DictSpec.RehashLoopKeeps | dep/dict.c:194-221 | any number of rounds does, and they advance the index by at least one |
| DictSpec.RehashKeeps | dep/dict.c:189-234 | rehashing keeps the invariant, the keys and the size at every stage, with the tables swapped after the last bucket |
| DictGrowth.RehashAdvances | dep/dict.c:189-234 | a call for at least one step that reports more work has moved the migration index forward, so that calls finish the migration |
| DictSpec.StepKeeps | dep/dict.c:264-267 | the step inside every operation keeps keys and size, and does nothing while an iterator is active |
| DictRehash.RehashExact | dep/dict.c:189-234 | a call for n steps during a migration has come past exactly n buckets in use, or past 10n empty ones, and leaves the others as they were; it reports nothing more to do exactly when the rest of the old table has at most n buckets in use and fewer than 10n empty ones before the last of them |
| DictRehash.StepExact | dep/dict.c:264-267 | the step inside every operation is a call for one step, unless an iterator is active |
| DictRehash.FindSteps | dep/dict.c:485-506 | a lookup makes one step in a dictionary with entries, and none in an empty one |
| DictRehash.DeleteSteps | dep/dict.c:368-406 | so does a deletion |
| DictRehash.AddSteps | dep/dict.c:297-323 | an insertion makes one step, and starts another migration only when that was the last |
| DictSpec.ExpandKeeps | dep/dict.c:148-178 | an expansion keeps the invariant and the keys, and fails without change when refused |
| DictSpec.ResizeKeeps | dep/dict.c:136-145 | so does shrinking to fit |
| DictGrowth.ResizeExact | dep/dict.c:136-145 | shrinking succeeds exactly when resizing is enabled, no migration is under way, the number of entries is an `int`, and the table does not have the smallest size for it already; it then starts the migration to that size |
| DictSpec.ExpandIfNeededKeeps | dep/dict.c:934-953 | the expansion inside an insertion keeps all keys and fails only when doubling overflows |
| DictGrowth.GrowthExact | dep/dict.c:934-953 | four buckets where there are none; a migration to the smallest size for twice the entries exactly when there is one entry for each bucket and resizing is enabled, or more than five for each; nothing else |
| DictSpec.PrepareKeeps | dep/dict.c:302-309 | after the rehashing step and the possible expansion the keys are the same, and there is a table to insert into |
| DictSpec.LinkAdds | dep/dict.c:310-321 | the new key goes to the table that is being filled, exactly that key is added, and the invariant holds |
| DictSpec.AddRawAdds | dep/dict.c:297-323 | an insertion adds exactly the key when it succeeds and changes no key when it fails |
| DictSpec.AddRawFails | dep/dict.c:270-323 | it succeeds exactly when the key is absent and no doubling overflows |
| DictSpec.DeleteRemoves | dep/dict.c:368-406 | a deletion succeeds exactly when the key is present, and removes just that key |
| DictSpec.SizeCountsKeys | dep/dict.c:450-476 | `used` of both tables together is the number of keys at every stage of a migration |
| DictScan.WalkLargerCovers | dep/dict.c:904-926 | the walk over the larger table emits exactly the rest of the interval of the smaller bucket |
| DictScan.ScanCovers | dep/dict.c:850-929 | one call emits every key whose reversed hash lies from the reversed cursor to the end of the bucket interval of the smaller table, only keys of that bucket, none twice, and returns zero or a cursor further on |
| DictScan.ScanMissesOnlyLater | dep/dict.c:850-929 | a present key from the cursor on that a call does not emit lies from the returned cursor on |
| DictScan.ScanComplete | dep/dict.c:850-929 | over every run from cursor 0 to cursor 0, with any insertions, deletions, lookups, rehashing steps, growths, shrinks and clearings between the calls, every key present at each call is emitted |
| DictScan.ScanSound | dep/dict.c:850-929 | a run emits only keys that were present at one of its calls |
| DictScan.ScanEnds | dep/dict.c:850-929 | every run ends, whatever resizes happen |
| DictScan.ScanCalls | dep/dict.c:850-929 | with no operation in between a scan from cursor 0 ends after exactly as many calls as the smaller (or only) table has buckets, and has emitted every key exactly once; in an empty dictionary every call emits nothing and returns 0 |
| DictGrowth.ExpandBalanced | dep/dict.c:934-953 | an insertion finds room: at most one entry per bucket, or as many as the migration has made room for |
| DictGrowth.GrowthKeepsUp | dep/dict.c:934-953 | in every run that grows only by insertions, with resizing enabled and no iterators, there are at most as many entries as buckets; while migrating, the target is twice the source and holds room for all |
| Dictionary.Dict.constructor | dep/dict.c:116-132 | a new dictionary is empty |
| Dictionary.Dict.NextPowerOf | dep/dict.c:956-966 | the doubling loop computes the size that the specification gives |
| Dictionary.Dict.Expand | dep/dict.c:148-178 | installs the new table as the specification says and keeps the map |
| Dictionary.Dict.Resize | dep/dict.c:136-145 | shrinks as the specification says and keeps the map; the result says exactly when it does |
| Dictionary.Dict.MoveEntries | dep/dict.c:206-218 | the in-place loop moves a chain entry by entry to the heads of the chains of the other table |
| Dictionary.Dict.Rehash | dep/dict.c:189-234 | the linked tables after the loops are those of the specification, and the buckets passed are told without it; the map is unchanged, and the result says whether the migration goes on |
| Dictionary.Dict.RehashStep | dep/dict.c:264-267 | one step, unless an iterator is active; the map is unchanged |
| Dictionary.Dict.ExpandIfNeeded | dep/dict.c:934-953 | the growth decision and its result |
| Dictionary.Dict.SearchBoth | dep/dict.c:975-1001 | finds the entry of a key in whichever table holds it, with the value of the map; null exactly when the key is absent |
| Dictionary.Dict.Find | dep/dict.c:485-506 | the same after a rehashing step, and also when the dictionary is empty |
| Dictionary.Dict.AddRaw | dep/dict.c:297-323 | a new entry for an absent key, the existing entry for a present one, at every stage of a migration |
| Dictionary.Dict.Add | dep/dict.c:270-277 | succeeds exactly when the key is absent and no doubling overflows; the map gains that pair and nothing else |
| Dictionary.Dict.AddOrFind | dep/dict.c:359-363 | the entry of the key, new exactly when the key was absent |
| Dictionary.Dict.Replace | dep/dict.c:330-350 | the map is updated at the key, and the result says whether the key is new |
| Dictionary.Dict.RemoveKey | dep/dict.c:381-402 | unlinks the entry from the first table that holds it and keeps all other chains linked |
| Dictionary.Dict.GenericDelete | dep/dict.c:368-406 | returns the entry exactly when the key was present, and the map loses just that key |
| Dictionary.Dict.Empty | dep/dict.c:1003-1008 | the map becomes empty, without buckets, migration or iterators |
| Dictionary.Dict.GetRandomKey | dep/dict.c:618-658 | an entry of the map, null exactly when it is empty |
| Dictionary.Dict.Scan | dep/dict.c:850-929 | emits from the linked tables exactly what the scan of the specification emits, in its order, and returns its cursor; from an empty dictionary nothing, and 0 |
| Keys.KeyLessTotal | dep/skiplist.c:87-92 | the member order is total |
| SkipItems.PositionSplits | dep/skiplist.c:84-96 | the items passed by a search are exactly the first ones, those before the item searched |
| SkipItems.FoundAtPosition | dep/skiplist.c:180-192 | an item is in the list exactly when it is where the search ends |
| SkipItems.InsertSorted | dep/skiplist.c:75-132 | insertion at the place of a new item keeps the strict order |
| SkipItems.InsertAdds | dep/skiplist.c:75-132 | insertion adds exactly that item |
| SkipItems.RemoveTakes | dep/skiplist.c:165-195 | removal takes out exactly that item and keeps the order |
| SkipItems.RescoredInPlace | dep/skiplist.c:236-243 | when the new score lies strictly between the scores of the neighbours, changing it in place is removal and insertion |
| SkipItems.OutsideIsCut | dep/skiplist.c:340-367 | leaving out the items of a range that is a slice cuts the slice |
| SkipItems.OutsideExact | dep/skiplist.c:256-263 | an item is left out of a range exactly when its score is below or above both ends, or at an end that is excluded |
| SkipItems.RangeIsSlice | dep/skiplist.c:256-279 | the items of a score range are those between the ones below and the ones above |
| SkipItems.MeetsExactly | dep/skiplist.c:265-307 | some item is in the range exactly when the quick test passes and the first item not below the range is not above it |
| SkipItems.QuickTestTooWide | dep/skiplist.c:265-279 | the quick test can pass when no item is in the range |
| SkipLinks.TopLink | dep/skiplist.c:151-153 | the header has a link at the top level exactly when some node reaches it |
| SkipLinks.RaiseKeepsLinks | dep/skiplist.c:104-111 | raising the top level with the length as span of the header keeps every link right |
| SkipLinks.InsertKeepsLinks | dep/skiplist.c:113-125 | after an insertion of any height every link leads to the next node that reaches its level, and every span is the rank distance, also to the end |
| SkipLinks.PathLink | dep/skiplist.c:140-147 | a link of the search path leads to the next node exactly when that node reaches its level, and no span of the path is zero |
| SkipLinks.DeleteKeepsLinks | dep/skiplist.c:136-147 | after a deletion every link and every span is right |
| SkipLinks.DeleteKeepsPath | dep/skiplist.c:356-365 | the search path is still one after the deletion behind it, so that one path serves a whole range |
| SkipLinks.LowerKeepsLinks | dep/skiplist.c:153-154 | the top level can be lowered while the header has no link there |
| SkipLists.SkipList.constructor | dep/skiplist.c:21-36 | a new list is empty and valid |
| SkipLists.SkipList.Descend | dep/skiplist.c:82-96 | the search loop finds the last node to pass at every level and its rank |
| SkipLists.SkipList.RaiseLevel | dep/skiplist.c:103-111 | the new levels of the header span the whole list and the search path covers them |
| SkipLists.SkipList.SplitLinks | dep/skiplist.c:113-121 | each link of the path below the height of the new node is split at it, spans adding up |
| SkipLists.SkipList.Insert | dep/skiplist.c:75-132 | for every height the items gain the new one at its place, and links, spans, backward links, tail, length and top level are right |
| SkipLists.SkipList.DeleteNode | dep/skiplist.c:136-155 | the items lose just that one, all of the invariant holds, and the search path can be used again |
| SkipLists.SkipList.Delete | dep/skiplist.c:165-195 | tells whether the item was there and takes out exactly it |
| SkipLists.SkipList.UpdateScore | dep/skiplist.c:208-254 | the items are those after removal of the old and insertion of the new score, and the node is kept exactly when its item stays strictly between its neighbours |
| SkipLists.SkipList.IsInRange | dep/skiplist.c:265-279 | the quick test on the first and the last item |
| SkipLists.SkipList.FirstInRange | dep/skiplist.c:283-307 | the first node in the range, null exactly when there is none |
| SkipLists.SkipList.LastInRange | dep/skiplist.c:311-334 | the last node in the range, null exactly when there is none |
| SkipLists.SkipList.DeleteRangeByScore | dep/skiplist.c:340-367 | leaves exactly the items outside the range, returns how many were in it, keeps the invariant |
| SkipLists.SkipList.DeleteRangeByRank | dep/skiplist.c:371-397 | cuts exactly the slice of the ranks asked for, clipped to the list, returns its size, keeps the invariant |
| SkipLists.SkipList.GetElementByRank | dep/skiplist.c:399-415 | the node of the rank, null past the end, the header for rank 0 |
| LinkedLists.List.constructor | dep/list.c:51-62 | a new list is empty |
| LinkedLists.List.AddNodeHead | dep/list.c:96-113 | the sequence gains the value in front |
| LinkedLists.List.AddNodeTail | dep/list.c:121-138 | the sequence gains the value at the end |
| LinkedLists.List.InsertNode | dep/list.c:140-168 | the sequence gains the value before or after the given node |
| LinkedLists.List.DelNode | dep/list.c:174-187 | the sequence loses the value of the given node |
| LinkedLists.List.Index | dep/list.c:319-333 | the node at the index, counted from the head or, when negative, from the tail; null outside |
| LinkedLists.List.Rotate | dep/list.c:336-350 | the last value becomes the first |
| LinkedLists.List.Join | dep/list.c:354-370 | the sequences are concatenated and the other list ends empty and valid |
| LinkedLists.List.Walk | dep/list.c:236-246 | following `next` and following `prev` meets the same values in opposite orders, `len` of them |
| Decimal.Digits10Exact | dep/util.c:213-235 | the branches count the decimal digits exactly, for every value |
| Decimal.Sdigits10Exact | dep/util.c:238-247 | so for signed values, the minus sign and LLONG_MIN included |
| Decimal.TwoDigits | dep/util.c:261-266 | the table of two-digit numbers is right in all its entries |
| Decimal.WriteDigits | dep/util.c:291-309 | the loop writes all digits backwards into exactly the places meant for them |
| Decimal.Ll2string | dep/util.c:260-314 | the buffer holds the decimal form and a zero byte when both fit, and is untouched with result 0 when they do not |
| Decimal.String2ll | dep/util.c:328-398 | accepts exactly the decimal forms of 64-bit integers, with their values; every overflow is refused |
| Decimal.ParsePrint | dep/util.c:328-398 | parsing a printed number gives it back, for every 64-bit value |
| Decimal.PrintParse | dep/util.c:328-398 | an accepted string is exactly what printing its value gives |
| Crc32.TabInit | crc32.c:7-20 | the table holds the eightfold shift of every byte |
| Crc32.TableStep | crc32.c:30 | a table step takes in a byte as eight bit-serial steps do, least significant bit first |
| Crc32.Update | crc32.c:26-33 | the loop computes the bit-serial reflected CRC with its complements |
| Crc32.Checksum | crc32.c:35-37 | the checksum is the CRC of section 8 of RFC 1952 for every byte string |
| Crc32.UpdateCat | crc32.c:26-33 | updating over one string and then another is updating over both |
| Crc32.CheckValue | crc32.c:35-37 | the CRC of the nine digits 123456789 is 0xcbf43926 |
| Slots.SlotsTag | redisxslot.c:192-209 | finds the tag: between the first opening brace of the C string and the next closing one |
| Slots.TagBetween | redisxslot.c:192-209 | `a{t}b` has the tag `t` whenever the braces are the first ones |
| Slots.TagSplits | redisxslot.c:192-209 | a key with a tag has it between its first opening brace and the next closing one |
| Slots.SlotsNum | redisxslot.c:169-186 | slot, CRC and tag flag of a key; the CRC is that of the bytes between the first byte 123 and the next byte 125 before any zero byte, or of all bytes before it when there is no such pair, and the flag says which |
| Slots.TextUnique | redisxslot.c:192-209 | these bytes and the flag are determined by the key |
| Slots.UntaggedCrc | redisxslot.c:173-179 | a key without zero bytes and closed braces has the CRC of the whole key |
| Slots.TaggedCrc | redisxslot.c:173-179 | a key with a zero-free tag has the CRC of the tag, whatever follows |
| Slots.BitAndBits | redisxslot.c:185 | the slot has exactly the bits that the CRC and the number of slots minus one share |
| Slots.SameTagSameSlot | redisxslot.c:169-186 | keys with the same tag share CRC and slot |
| Slots.SlotBelowSize | redisxslot.c:185 | the slot is below the number of slots, for every number |
| Slots.SlotIsRemainder | redisxslot.c:185 | the slot is the CRC modulo the number of slots for every CRC exactly when that number, up to 65536, is a power of two |
| SlotIndexes.TableAdds | redisxslot.c:1282-1297 | adding a key to the table its slot selects adds it to the set that the tables agree with |
| SlotIndexes.TableDrops | redisxslot.c:1308-1321 | deleting it there removes it from the set |
| SlotIndexes.ListAdds | redisxslot.c:1299-1305 | a new tagged key is new to the skip list, and inserting (crc, key) keeps the agreement; an untagged one needs nothing |
| SlotIndexes.ListDrops | redisxslot.c:1323-1329 | deleting (crc, key) keeps the agreement |
| SlotIndexes.AgreementDetermines | redisxslot.c:1282-1330 | tables that agree determine the plain set |
| SlotIndexes.AddTo | redisxslot.c:1291-1295 | `m_dictAdd` on a slot table adds the pair exactly when the key is new |
| SlotIndexes.DeleteFrom | redisxslot.c:1317-1318 | `m_dictDelete` on a slot table removes exactly the key |
| SlotIndexes.ScanSteps | dep/dict.c:850-929 | a scan call on a table of the index emits every key between the two cursors |
| SlotIndexes.NewDbInfo | redisxslot.c:110-124 | the index of a database starts empty and in agreement |
| SlotIndexes.ShrinkIfSparse | module.c:699-717 | a table of more than four buckets, less than a tenth filled, starts to shrink exactly when resizing is possible; any other is left alone |
| SlotIndexes.RehashForAWhile | module.c:725-734 | a migration that is not over after the given number of rounds has come past a hundred buckets in each; without one nothing changes |
| SlotIndexes.DbInfo.Add | redisxslot.c:1282-1306 | tables and skip list agree with the set plus the key |
| SlotIndexes.DbInfo.Del | redisxslot.c:1308-1330 | tables and skip list agree with the set minus the key |
| SlotIndexes.DbInfo.Flush | module.c:829-842 | all tables and the skip list end empty |
| SlotIndexes.DbInfo.RandomKey | redisxslot.c:1063-1070 | some key of the slot, none exactly when the slot is empty |
| SlotIndexes.DbInfo.ScanSlot | redisxslot.c:1210-1217 | a scan call emits only keys of the slot and every one between the two cursors, exactly as the scan of its table does; from an empty slot nothing, and cursor 0 |
| SlotIndexes.GroupMembers | redisxslot.c:1121-1126 | in an agreeing skip list the nodes with one score are the tagged keys with that CRC, ascending |
| SlotIndexes.CollectGroup | redisxslot.c:1117-1127 | the walk from the first node in the range while the score stays queues exactly those members |
| SlotIndexes.TakeAll | redisxslot.c:1129-1147 | the queue moves into the array in its order, and ends empty |
| SlotIndexes.DbInfo.TagGroup | redisxslot.c:1089-1147 | for a tagged key the keys collected are exactly the tagged keys with the same CRC, each once and in member order, all in its slot |
| SlotIndexes.DbInfo.TendSlot | module.c:699-734 | shrinking a sparse table and rehashing it for a while leaves the keys of the index as they are, and a migration that is not over has come a hundred buckets a round further |
| Scanning.ScansJoin | redisxslot.c:1190-1198 | successive scan calls cover together what lies between the first cursor and the last |
| Scanning.RoundsExact | redisxslot.c:1192 | the number of calls it may make is ten times the count exactly as long as that is a `long` |
| Scanning.ScanKeys | redisxslot.c:1185-1200 | all keys of the slot between the given and the returned cursor are emitted; the scan goes on until the slot is through, enough keys are there, or as many calls were made as it may make, and no further: before the last call there were fewer; an empty slot takes one call and returns 0 |
| Scanning.NextCall | redisxslot.c:1185-1200 | one more call, after keys came and went and tables were resized, emits all keys up to its cursor that were there at each call so far |
| Scanning.ScanAll | redisxslot.c:1185-1200 | from cursor 0 to cursor 0, with any operations on the index between the calls, every key of the slot present at each call is emitted and none that was present at no call; each call moves the cursor on |
| Draining.ScanClears | redisxslot.c:1210-1234 | scanning and deleting what was emitted leaves before the new cursor no key of the slot but excused ones, and the same for the whole slot when the cursor is zero |
| Draining.StaleStay | redisxslot.c:825-848 | deletions neither take a key that the server does not hold out of the index nor make one |
| Draining.StaleKeyStays | redisxslot.c:1202-1239 | one such key: `SLOTSDEL` of its slot leaves the slot as it is |
| Draining.LooksEmptyExact | redisxslot.c:1207-1210 | the size of a slot is zero as an `int` exactly for the multiples of 2^32 |
| Draining.NextRound | redisxslot.c:1202-1239 | one more slot: an overlooked slot is left alone, any other is cleared, and slots cleared before stay so |
| Draining.DeleteSlot | redisxslot.c:1208-1235 | the loop until the cursor is zero ends, although each deletion may advance a rehash; index and server lose the same keys, all of the slot; it fails exactly at the first deletion refused, and on success only keys whose deletion had no reply, and keys that the server does not hold, are left of it |
| Draining.DelSlotKeys | redisxslot.c:1202-1239 | index and server lose the same keys, all of the named slots; it fails exactly at the first deletion refused; what success leaves are keys whose deletion had no reply, keys that the server did not hold, and slots that look empty as an `int`; with nothing passed over the slots are empty exactly when the server held all their keys and no slot with keys looked empty |
| Draining.StepKeys | redisxslot.c:1060-1147 | a step finds a key of its slot, or the slot is empty, and takes that key or, for a tag step on a tagged key, all tagged keys with its CRC, each once |
| Draining.UnbrokenStays | redisxslot.c:1121-1151 | in each tag group the keys that the server holds stay first, whatever a step moves, so that no later step sends a hole |
| Draining.MigrateStep | redisxslot.c:1060-1178 | a step takes one key, or all tagged keys with its CRC; whether it succeeds or fails halfway, index and server lose the same keys; it fails exactly when some call did, and when none did and none was passed over, it moves all that the server held; at every moment each key that can be moved is here or there and other keys of the destination stay; keys moved without zero bytes are in the index of the destination |
| Draining.StepShrinks | redisxslot.c:1060-1178 | a step that moves a key strictly shrinks what of its slot the server holds, and no step touches another slot |
| Draining.DrainedMore | redisxslot.c:1060-1178 | a further attempt loses, at no moment, anything that earlier ones have moved or left |
| Draining.AllMoved | redisxslot.c:1060-1178 | an emptied slot had only keys that the server held, and under the same condition the destination holds and indexes them all |
| Draining.Drain | redisxslot.c:1060-1178 | more attempts than failures and keys of the slot at the server together empty it, and then the server held all its keys; when it did, attempts fail no more often than calls fail or are passed over; index and server lose the same keys, none of another slot; if no key of the slot has a zero byte or no time left, nothing is lost at any moment whatever fails, and an emptied slot is at the destination with values and times to live, and in the same slot of its index |
| Notifications.OneMoreKey | module.c:875-962 | an event adds at most one key to a database |
| Notifications.Index.Flushdb | module.c:817-859 | the start of a flush empties one database or all, its end changes nothing |
| Notifications.Index.NotifyTypeChange | module.c:875-886 | a type change adds the key |
| Notifications.Index.SaveHalf | module.c:901-918 | the static variables remember the halves |
| Notifications.Index.FireHalf | module.c:920-960 | a second half deletes the key from its old place and adds it to its new one |
| Notifications.Index.NotifyGeneric | module.c:888-962 | deletions and expirations take the key out at once, a rename acts at its second half from the last key of a first half, a move at its second half from the database of the last first half, and the static variables after it |
| Notifications.Index.Handle | module.c:817-962 | one event of any kind has its plain effect on the set of (db, key) |
| Notifications.Index.Run | module.c:817-962 | after every run of events, in which no second half of a rename comes without a first, all tables and skip lists agree with the plain set that the events describe: a key is indexed exactly when the last event that concerns it put it there |
| Notifications.RunsJoin | module.c:888-962 | the effect of a run is that of its parts one after the other |
| Notifications.LastEventDecides | module.c:817-962 | a key is indexed after a run exactly when some type change or second half put it there and no deletion, expiration, flush or leaving second half came after, or when it was there and none came at all |
| Notifications.RenameWhole | module.c:900-957 | a rename in one database takes its plain effect at the second half, whatever other events come between the halves and whatever halves came before |
| Notifications.MoveWhole | module.c:900-957 | so does a move, when no other move starts between its halves |
| Notifications.NewIndex | redisxslot.c:88-124 | the index of all databases starts valid, with its own objects for each database, and empty |
| Wire.ParseArgs | module.c:454-472 | parsing a sent argument vector gives the same objects, with the larger of zero and the time to live |
| Wire.ArgsParse | module.c:454-472 | every vector that parses is the one its objects would be sent as |
| Wire.ParseExact | module.c:454-472 | a vector parses exactly when each time to live does, negative ones included, and each three arguments are an object |
| Wire.ArgsSlice | redisxslot.c:372-387 | the arguments from three times the start to three times the end are those of that part of the objects |
| Wire.ChunksJoin | redisxslot.c:521-567 | the chunks concatenate to all objects and are at most as many |
| Wire.SplitUnique | redisxslot.c:521-567 | only one way of cutting leaves each chunk but the last above 1 MiB and none above it without its last object |
| Wire.SizeIsBytes | redisxslot.c:543-555 | the size summed up is the number of bytes of the arguments |
| Wire.ChunkBytes | redisxslot.c:531-541 | each command but the last has more than 1048576 bytes of arguments, and none has without its last object |
| Migration.RestoredAt | redisxslot.c:973-1011 | under every key stands what the last object restored under it brought, or what was there before |
| Migration.OrderIrrelevant | redisxslot.c:448-519 | the order in which objects arrive does not change the destination exactly when objects for the same key bring the same |
| Migration.RestoredWithin | redisxslot.c:448-519 | whatever part of the objects was sent, the destination holds what it held or an arrived object |
| Migration.RestoredAgain | redisxslot.c:973-1001 | restoring all objects after any of them have arrived, in any order and any number of times, gives what restoring them once gives |
| Migration.ReceivedIs | redisxslot.c:938-1001 | restoring objects changes the destination as above, and its index gains the keys without zero bytes and those it held whole before |
| Migration.PartlyFurther | redisxslot.c:1003-1011 | sending in steps, each keeping the source and bringing only some of the objects, does so as a whole |
| Migration.RestoreMulti | redisxslot.c:1003-1011 | the objects are restored in order up to the first one refused, and the result is an error exactly then |
| Migration.ParseAll | module.c:454-472 | the parsing loop reads the triples or refuses the vector |
| Migration.SlotsRestoreCmd | module.c:454-485 | nothing is restored unless all arguments parse |
| Migration.TtlText | redisxslot.c:545-547 | a time to live fits the buffer and is sent in decimal |
| Migration.SendPart | redisxslot.c:372-416 | a command that is answered without error has restored its whole part, any other a prefix of it; the result is an error exactly when a call or the connection failed |
| Migration.BatchSend | redisxslot.c:521-567 | the commands sent are the one split into chunks; success means that all objects arrived, failure that a prefix did and that a call or the connection failed |
| Pool.SplitAll | redisxslot.c:460-500 | the chunks of the pool are the same split |
| Pool.ChunkDone | redisxslot.c:448-519 | the chunks sent, in any order, and those that wait are together all objects, each as often as it was there |
| Pool.BatchSendWithThreadPool | redisxslot.c:448-519 | when no chunk fails, all objects have arrived in the order of some permutation, which is that of sending them one after the other when objects for the same key bring the same; a chunk that fails keeps no other back; at every moment the destination holds what it held or arrived objects |
| Pool.PoolIsBatch | redisxslot.c:448-519 | then store and index of the destination are those of sending one after the other |
| KeyMigration.DumpAll | redisxslot.c:803-823 | an object or a hole for each key, and the number of objects, or an error exactly when a dump failed |
| KeyMigration.NoHoles | redisxslot.c:803-823 | the first objects, as many as there are, have no hole exactly when the keys that are there come first |
| KeyMigration.HoleFirst | redisxslot.c:803-823 | of two keys of which only the second is there, one object is sent from a place that was never written |
| KeyMigration.ArrivalExact | redisxslot.c:973-1001 | keys without zero bytes and with time left arrive with their values and times to live; into a server that holds none of the keys, all arrive so exactly when every key is such a one |
| KeyMigration.LossExact | redisxslot.c:908-917 | then, with all keys deleted here, nothing is lost exactly when every key is such a one |
| KeyMigration.ZeroByteLost | redisxslot.c:973-985 | a key with a zero byte arrives as the part before it and is lost |
| KeyMigration.ExpiryLost | redisxslot.c:973-985 | a key with 0 ms left arrives as one that does not expire |
| KeyMigration.IndexedExact | redisxslot.c:938-970 | into a server that holds none of the keys, its index gains exactly those without zero bytes |
| KeyMigration.Mgrt | redisxslot.c:665-706 | with or without the pool, success means that all objects arrived in some order, and at no moment the destination has anything else new |
| KeyMigration.DelKeys | redisxslot.c:825-848 | the result counts the integer replies, also those for keys that are not there; it is an error exactly at the first deletion refused, and no key after it is touched; the keys with a delete event are those answered that were there; without error every other key had no reply; the destination is left alone |
| KeyMigration.SafeToDelete | redisxslot.c:908-913 | once all objects have arrived, deleting any of the keys here loses nothing, if they have no zero bytes and time left |
| KeyMigration.MigrateKeys | redisxslot.c:871-922 | with or without the pool: the result is the number of integer replies, or an error exactly when some call failed; when none failed and none was passed over, every key that was there is gone here, and at the destination if it can move; at every moment each key is held here or there, if none has a zero byte or no time left; a failure before the deletions leaves the source as it was; after full success into a server without the keys, nothing is lost exactly under that condition; the index of the destination gains the keys it is told of |
| KeyMigration.NulFreeCompatible | redisxslot.c:871-922 | objects of keys without zero bytes are restored under different keys, so that their order does not matter |
| KeyMigration.ArrivesOnce | redisxslot.c:871-922 | objects that arrive a second time leave the destination as if all had arrived once |
| KeyMigration.NeverLostComposes | redisxslot.c:871-922 | two attempts that are safe at every moment are so together |
| KeyMigration.MigrateWithRetry | redisxslot.c:871-922 | after any failure, halfway through sending or deleting, a successful attempt with the keys still here ends in the destination that the first attempt would have left, if objects for the same key bring the same; two failed calls at least are needed for an error; nothing is lost at any moment of keys without zero bytes and with time left |

## Left out

- Iterators, `m_dictGetSomeKeys`, fingerprints, statistics and the time-limited rehashing loop of `dep/dict.c`: not used by the index beyond what is modelled; the iterator count is kept because it stops rehashing steps.
- Freeing of memory, reference counts of strings and allocation failure.
- `unsigned long` words are bit sequences of length 64 with the operations written out; table sizes and counters are naturals with the overflow of doubling written out.
- Random choices (`rand`, `random`): any bucket, entry or level that the loops can end with; their distribution is not modelled.
- `m_dictGetRandomKey` does a rehashing step under a read lock of the slot table; each locked section is one step here, so no truly parallel access to a table is modelled.
- `unsigned int` rank counters of the skip list are unbounded.
- Notifications.Index.Run: assumes fewer than 2^63 keys in a database, so that no table doubling overflows.
- Notifications.Index.NotifyGeneric: the second half of a rename without a first half is not modelled, since the code then uses a null key.
- Draining.DelSlotKeys: the queue between scan and deletion is a sequence; the linked list is verified apart, and used by the tag walk. A slot number outside the tables, which `SLOTSDEL` does not check (module.c:427-438), is not modelled; the code then reads outside an array.
- Scanning.ScanKeys: nor is one for `SLOTSSCAN` (module.c:519-549).
- Draining.MigrateStep: a tag step needs the keys that the server holds first in each tag group, as otherwise the code sends objects that it never wrote. A negative slot number, which the commands do not check, is not modelled.
- Draining.Drain: the number of attempts is given, because the caller repeats the command from outside; with tag steps it needs what `Draining.MigrateStep` needs.
- The `left` count of tag-slot migration is not modelled; it is not written for untagged keys.
- KeyMigration.MigrateKeys: keys that are not there come last; otherwise the code sends objects that it never wrote.
- KeyMigration.MigrateWithRetry: the same.
- Migration.ReceivedIs: the index of the destination is the set of its keys; values of other types than the five that `notifyOne` looks for are not indexed by the code.
- KeyMigration.DumpAll: a `DUMP` or `PTTL` without any reply for a key that is there is not modelled; the code takes the key for one that is not there.
- Migration.World.RestoreOne: a failed restore is answered with an error reply. A `RESTORE` without any reply or with a null one, which the code counts as restored (redisxslot.c:985-992), is not modelled; nor is the asynchronous restore path, which answers with the integer -1 that the sender does not take for an error.
- Times to live do not run down during a migration.
- Other clients do not write the migrated keys during a migration.
- Pipelined sending, which answers chunk by chunk in the same way, connections and their cache, SELECT, timeouts and authentication.
- Pool.BatchSendWithThreadPool: chunks are sent one at a time in any order; a receiver handles one command after the other.
- The thread pools that dump keys and that restore objects at the receiver, which this version does not start; `Migration.OrderIrrelevant` says when the order of restoring does not matter.
- The periodic rehash sweep: its database index advances with every slot, so that it does not visit every pair of database and slot.
- `dep/siphash.c` is an arbitrary function; string matching, memory sizes and float conversions of `dep/util.c`, and CPU affinity.
