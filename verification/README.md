# Verified models of Databend's table, column and text code

Dafny models of the algorithmic core of Databend's common crates, with proofs of what that code
promises. Check everything with `dafny verify dfyconfig.toml`.

| files | what they model |
|---|---|
| `Bits`, `Decimals`, `Options`, `Sequences` | machine words as naturals with bitwise operators, decimal digits, optional values, sequences |
| `Routing`, `MapRuns` | a map kept in parts, and how a finite map answers a program of operations |
| `Table0`, `Hashtable` | the open-addressing table with in-place growth, and the general hash table with its separate zero entry |
| `PackedKeys`, `Memcmp`, `ShortString` | packed short strings, vectorised comparison, the five-table string map |
| `Partitioned`, `PartitionedSet` | the partitioned table over string maps, and the partitioned hash set with its merge |
| `Dictionary` | tuples of interned strings compared by reference |
| `HashJoinHeader`, `HashJoinBuild`, `HashJoinProbe`, `HashJoinString` | the lock-free hash-join build as a step system over interleavings, early filtering, chain walks and paged probing, for plain and for string keys |
| `BlockIndex` | the block index of merge-into |
| `Nested`, `NestedPages` | flattening, slicing and rebuilding nested columns, and writing them page by page |
| `IntervalText`, `IntervalUnits`, `IntervalRoundTrip`, `IntervalCode`, `IntervalParser`, `IntervalDisplay` | the interval printer and parser |
| `ToChar`, `ToCharLaws` | the `to_char` picture machine |
| `Varint`, `Offsets` | varints with length-prefixed strings, and Arrow offsets |

Code that updates state in place is a class or an array method here; its contract ties the new state
to a mathematical map, sequence or text, and the laws are proved about that. Pure code is functions
and lemmas. Hash functions, the checksum instruction and the mixing of tuple hashes are parameters;
arenas are maps from addresses to the strings stored there.

Where code and expectation differ, the code is modelled and the difference is stated exactly:

- `grow` is correct whenever one slot is free (`len < capacity`); half full is not needed.
- `try_extend_from_self` and `try_extend_from_slice` of the offsets are documented to fail exactly on
  overflow. They compare with the other vector's last offset, so they also refuse extensions that fit
  (`Offsets.RefusedThoughFitting`). Their contracts give the exact condition: error and overflow coincide
  unless the room left after the covered length is below the other's first offset.
- `try_extend_from_lengths` writes before it checks. What it leaves behind is valid exactly when no length
  turns negative in the cast to the offset type and the cast lengths fit; so for lengths within the type
  every failure breaks the vector, while one length of 2^32 fails and leaves 32-bit offsets valid
  (`Offsets.WrittenIsValidIff`, `Offsets.FailureBreaks`, `Offsets.FailedExtensions`).
- A `to_char` picture that ends in a decimal point is one character short unless the value overflows
  it (`ToCharLaws.FixedWidth`, `ToCharLaws.TrailingDot`).
- `chunk_offsets` drops the pieces past every chunk bound (`BlockIndex.PieceDropped`); `BlockIndex.KeptIff`
  says when it keeps all.
- `apply_specifier` errors are ignored by the interval parser: `5 foo` parses as the zero interval
  (`IntervalUnits.UnknownUnitExample`). `IntervalUnits.SpecifierExact` gives exactly when a number with a
  unit counts, and by how much.
- A fraction before a unit is dropped: `1.5 day` is `1 day` (`IntervalUnits.FractionDropped`).
- The string hash of the joins must treat the empty key apart: the general string hash of the empty key is
  no 32-bit value (`HashJoinString.EmptyKeyNeedsItsOwnHash`).

## Model

| member | source | states |
|---|---|---|
| Table0.Table0.constructor | src/common/hashtable/src/table0.rs:86-98 | a new table is a valid, empty map whose capacity is a power of two of at least eight slots |
| Table0.Table0.Probe | src/common/hashtable/src/table0.rs:126-140 | linear probing with wrap-around ends at the key, at the first free slot with every earlier slot taken by other keys, or after the whole table |
| Table0.Table0.Get | src/common/hashtable/src/table0.rs:126-140 | finds a slot exactly when the key is in the map, and that slot holds its value |
| Table0.Table0.Insert | src/common/hashtable/src/table0.rs:205-224 | reports present exactly for keys of the map, overflow exactly for an absent key in a full table, and otherwise adds just that key |
| Table0.Table0.Reseat | src/common/hashtable/src/table0.rs:265-290 | one step of either growing loop moves an entry to the first free slot of its probe path, or leaves it |
| Table0.FirstPassStep | src/common/hashtable/src/table0.rs:265-290 | although a move leaves a hole, every step of the main pass keeps the entries, each key once, and the invariant that only entries that had wrapped around may still be unreachable |
| Table0.SecondPassStep | src/common/hashtable/src/table0.rs:291-316 | every step of the tail pass keeps the entries, each key once, and makes one more of the spilled ones reachable |
| Table0.Table0.MainPass | src/common/hashtable/src/table0.rs:265-290 | the main pass over the old slots keeps the map and establishes the tail pass's invariant |
| Table0.Table0.TailPass | src/common/hashtable/src/table0.rs:291-316 | the tail pass over the new slots ends with every entry reachable from its home |
| Table0.Table0.Grow | src/common/hashtable/src/table0.rs:259-317 | growing in place keeps the table valid and the map, hence every lookup, unchanged, for any table that is not full |
| Table0.Table0.CheckGrow | src/common/hashtable/src/table0.rs:249-257 | afterwards one more entry leaves the table at most half full, and the map is unchanged |
| Table0.Table0.Upsert | src/common/hashtable/src/table0.rs:193-224 | check, insert and write store the value exactly when the key was absent; the overflow panic is unreachable |
| Table0.Table0.Iter | src/common/hashtable/src/table0.rs:367-383 | yields every entry of the map and nothing else, `len` of them |
| Table0.MergeTables | src/common/hashtable/src/table0.rs:326-338 | merging sets yields the union of the keys |
| Hashtable.Hashtable.Len | src/common/hashtable/src/hashtable.rs:87-89 | the length is the size of the map, the zero entry included |
| Hashtable.Hashtable.Get | src/common/hashtable/src/hashtable.rs:95-109 | answers as the map does, for the zero key as for the others |
| Hashtable.Hashtable.Insert | src/common/hashtable/src/hashtable.rs:132-154 | present exactly when in the map, otherwise the map gains the entry |
| Hashtable.Hashtable.InsertWithHash | src/common/hashtable/src/hashtable.rs:314-335 | the same under a hash supplied by the caller |
| Hashtable.Hashtable.Keys | src/common/hashtable/src/hashtable.rs:161-165 | iteration visits every key of the map, as many as there are |
| Hashtable.MergeSets | src/common/hashtable/src/hashtable.rs:178-190 | the union of the two key sets, zero keys included |
| Hashtable.Run | src/common/hashtable/src/hashtable.rs:87-154 | every run of inserts, lookups and size queries, from any capacity, answers as a finite map |
| Hashtable.RunSet | src/common/hashtable/src/hashtable.rs:87-190 | every run of inserts, lookups, size queries and merges over sets, programs merged to any depth, answers as a finite set and ends with that set |
| PackedKeys.ReadLeIsValue | src/common/hashtable/src/utils.rs:94-102 | both branches of the unaligned read give the little-endian value of exactly the data bytes |
| PackedKeys.ReadStaysInPage | src/common/hashtable/src/utils.rs:94-102 | every byte read lies in the page of the data or in the data itself |
| PackedKeys.PackIsWords | src/common/hashtable/src/short_string_hashtable.rs:853-877 | the words built by reads are the string cut into little-endian words |
| PackedKeys.LastWordNonZero | src/common/hashtable/src/short_string_hashtable.rs:650-663 | a packed key is never the empty marker |
| PackedKeys.UnpackWords | src/common/hashtable/src/short_string_hashtable.rs:439-480 | packing can be undone for every key that does not end in a zero byte, so it is injective |
| PackedKeys.RecoverKey | src/common/hashtable/src/short_string_hashtable.rs:443-452 | the scan of the last word always stops and returns the unpacked key |
| PackedKeys.HashBytes | src/common/hashtable/src/traits.rs:326-347 | the byte-slice hash is the checksum folded over the packed words |
| PackedKeys.HashPacked | src/common/hashtable/src/traits.rs:369-380 | the packed-word hash is the same fold, so both hashes agree |
| Memcmp.MemcmpSse | src/common/hashtable/src/utils.rs:159-208 | decides equality of byte slices of all lengths, with every read inside the slices |
| Memcmp.CompareEnds | src/common/hashtable/src/utils.rs:168-185 | two overlapping words decide slices of one to two word lengths |
| ShortString.RouteOf | src/common/hashtable/src/short_string_hashtable.rs:835-882 | routing is total; a key goes to a packed table exactly when it has 1 to 24 bytes and no trailing zero |
| ShortString.DecodeEncode | src/common/hashtable/src/short_string_hashtable.rs:437-482 | the stored form of a key determines the key |
| ShortString.EncodedHash | src/common/hashtable/src/short_string_hashtable.rs:654-690 | whichever table a key goes to, its stored form hashes like its bytes and is not the empty marker |
| ShortString.EntryKey | src/common/hashtable/src/short_string_hashtable.rs:437-482 | `key()` recovers the original bytes |
| ShortString.EntryStands | src/common/hashtable/src/short_string_hashtable.rs:437-482 | every stored entry stands for one entry of the single map, in the table its key is routed to |
| ShortString.ShortStringHashtable.Get | src/common/hashtable/src/short_string_hashtable.rs:835-882 | the five tables answer as one map from byte strings |
| ShortString.ShortStringHashtable.Len | src/common/hashtable/src/short_string_hashtable.rs:127-133 | the five lengths add up to the size of that map |
| ShortString.ShortStringHashtable.Insert | src/common/hashtable/src/short_string_hashtable.rs:952-1070 | present exactly when in the map, otherwise the map gains the entry |
| ShortString.ShortStringHashtable.InsertWithHash | src/common/hashtable/src/short_string_hashtable.rs:1073-1196 | the same under a hash supplied by the caller |
| ShortString.Run | src/common/hashtable/src/short_string_hashtable.rs:127-1070 | every run of inserts, lookups and size queries answers as one map keyed by byte strings, wherever in memory each key is read from |
| Routing.AgreesStored | src/common/hashtable/src/partitioned_hashtable.rs:205-222 | storing a key in its own part stores it in the whole map |
| Routing.AgreesSize | src/common/hashtable/src/partitioned_hashtable.rs:147-149 | the sizes of the parts add up to the size of the map |
| Partitioned.BucketOf | src/common/hashtable/src/partitioned_hashtable.rs:77-83 | every hash has a bucket |
| Partitioned.HighBuckets | src/common/hashtable/src/partitioned_hashtable.rs:73-83 | for 32-bit checksums the buckets by high bits are consecutive ranges |
| Partitioned.PartitionedHashtable.constructor | src/common/hashtable/src/partitioned_hashtable.rs:48-51 | a partition of new buckets that share no object is a valid, empty map |
| Partitioned.PartitionedHashtable.Get | src/common/hashtable/src/partitioned_hashtable.rs:183-187 | answers as the single map the buckets stand for |
| Partitioned.PartitionedHashtable.Insert | src/common/hashtable/src/partitioned_hashtable.rs:205-222 | the hash computed once names bucket and probe chain; the whole partition stays valid and the single map gains the entry exactly when it was absent |
| Partitioned.PartitionedHashtable.Len | src/common/hashtable/src/partitioned_hashtable.rs:147-149 | the summed lengths are the size of the single map |
| Partitioned.Run | src/common/hashtable/src/partitioned_hashtable.rs:48-222 | every run answers as one map keyed by byte strings, however many buckets the keys are spread over |
| PartitionedSet.MergeBuckets | src/common/hashtable/src/partitioned_hashtable.rs:96-103 | merging bucket by bucket is the union of the sets |
| PartitionedSet.PartitionedHashSet.SetInsert | src/common/hashtable/src/partitioned_hashtable.rs:105-109 | the set gains the key; every other bucket is untouched |
| PartitionedSet.PartitionedHashSet.SetMerge | src/common/hashtable/src/partitioned_hashtable.rs:96-103 | the loop of bucket merges leaves a valid partition that stands for the union |
| PartitionedSet.PartitionedHashSet.Len | src/common/hashtable/src/partitioned_hashtable.rs:147-149 | the summed lengths are the size of the set |
| PartitionedSet.PartitionedHashSet.Keys | src/common/hashtable/src/partitioned_hashtable.rs:224-268 | chaining the iterators of the buckets visits every element of the set, as many as there are |
| PartitionedSet.Run | src/common/hashtable/src/partitioned_hashtable.rs:85-187 | every run of inserts, lookups, size queries and merges, programs merged to any depth, answers as one finite set |
| Partitioned.BucketIter.Next | src/common/hashtable/src/partitioned_hashtable.rs:253-268 | the next entry of the buckets in order, skipping exhausted ones |
| Partitioned.Drain | src/common/hashtable/src/partitioned_hashtable.rs:250-268 | draining yields all buckets' entries, concatenated |
| Dictionary.ReferencesDecide | src/common/hashtable/src/dictionary_string_hashtable.rs:410-424 | comparing interned tuples by reference is comparing them by contents |
| Dictionary.Interner.Intern | src/common/hashtable/src/string_hashtable.rs:543-584 | a string gets one reference for good; earlier names and references are untouched |
| Dictionary.RepresentsGrown | src/common/hashtable/src/dictionary_string_hashtable.rs:378-398 | the stored reference tuples stay valid while more strings are interned |
| Dictionary.DictionaryStringHashTable.Get | src/common/hashtable/src/dictionary_string_hashtable.rs:322-335 | answers as a map keyed by tuples of byte strings, also when a component was never interned |
| Dictionary.DictionaryStringHashTable.Insert | src/common/hashtable/src/dictionary_string_hashtable.rs:378-433 | present exactly when the tuple of contents is in the map, otherwise the map gains it |
| Dictionary.DictionaryStringHashTable.Len | src/common/hashtable/src/dictionary_string_hashtable.rs:307-309 | the length is the number of distinct tuples of contents |
| Dictionary.Run | src/common/hashtable/src/dictionary_string_hashtable.rs:307-433 | every run of inserts, lookups and size queries answers as a map keyed by tuples of byte strings |
| HashJoinHeader.TagIndexRange | src/common/hashtable/src/hashjoin_hashtable.rs:67-71 | the tag of a hash is one of the sixteen bits above the pointer |
| HashJoinHeader.PushedFilter | src/common/hashtable/src/hashjoin_hashtable.rs:73-94 | pushing an entry sets its tag and keeps those already in the header, and sets no other |
| HashJoinHeader.PushedPointer | src/common/hashtable/src/hashjoin_hashtable.rs:73-89 | removing the tags of a pushed header gives the entry's address |
| HashJoinBuild.PushInv | src/common/hashtable/src/hashjoin_hashtable.rs:132-154 | a successful compare-and-swap keeps the invariant of every bucket |
| HashJoinBuild.StepInv | src/common/hashtable/src/hashjoin_hashtable.rs:132-154 | so does every step of every writer, spurious failures included |
| HashJoinBuild.RunInv | src/common/hashtable/src/hashjoin_hashtable.rs:132-154 | the invariant holds in every state of every interleaving |
| HashJoinBuild.BuildIsComplete | src/common/hashtable/src/hashjoin_hashtable.rs:132-154 | once all writers are done each bucket's chain is acyclic, visits exactly the entries of that bucket once, and its header carries all their tags and no others |
| HashJoinBuild.CanFinish | src/common/hashtable/src/hashjoin_hashtable.rs:132-154 | from every reachable state the build can be completed |
| HashJoinProbe.BucketInRange | src/common/hashtable/src/hashjoin_hashtable.rs:116-130 | the shifted hash is always a bucket index |
| HashJoinProbe.EarlyFilteringProbe | src/common/hashtable/src/hashjoin_hashtable.rs:214-282 | the two selections are the passing and the other rows, in order; a passing row's hash becomes its chain pointer and the other cells are unchanged |
| HashJoinProbe.PickExact | src/common/hashtable/src/hashjoin_hashtable.rs:214-282 | a selection is increasing and holds exactly the rows with its flag |
| HashJoinProbe.PickSizes | src/common/hashtable/src/hashjoin_hashtable.rs:214-282 | the two selections together have one entry per row |
| HashJoinProbe.BuiltRowIsMatched | src/common/hashtable/src/hashjoin_hashtable.rs:67-282 | no false negatives: after every finished concurrent build a valid probe row whose key was built is in the matched selection |
| HashJoinProbe.NextProbe | src/common/hashtable/src/hashjoin_hashtable.rs:343-376 | one page copies the next matching row pointers in chain order and returns where to resume |
| HashJoinProbe.ProbeAllPages | src/common/hashtable/src/hashjoin_hashtable.rs:343-376 | resuming until zero yields exactly the matching row pointers of the chain, in order, none lost or repeated |
| HashJoinProbe.NextContains | src/common/hashtable/src/hashjoin_hashtable.rs:329-341 | true exactly when some entry of the chain matches |
| HashJoinProbe.NextMatchedPtr | src/common/hashtable/src/hashjoin_hashtable.rs:378-390 | the first matching entry, or zero when there is none |
| HashJoinProbe.JoinIsExact | src/common/hashtable/src/hashjoin_hashtable.rs:67-154 | after every finished concurrent build a built key passes the early filter and its chain holds exactly the entries with that key |
| HashJoinProbe.JoinRow | src/common/hashtable/src/hashjoin_hashtable.rs:214-376 | filter and paged probe of one key return exactly the row pointers of the entries with that key, each entry once |
| HashJoinString.HashString | src/common/hashtable/src/traits.rs:399-422 | the loop folds the checksum over the packed words; the empty key has its own hash |
| HashJoinString.StringBucketInRange | src/common/hashtable/src/traits.rs:399-422 | for a checksum below 2^32 every string hash names a bucket |
| HashJoinString.EmptyKeyNeedsItsOwnHash | src/common/hashtable/src/traits.rs:404-406 | without its own case the empty key would hash outside the range |
| HashJoinString.StringHitIsEquality | src/common/hashtable/src/hashjoin_string_hashtable.rs:282-356 | the comparison with the four-byte early prefix is equality of the strings |
| HashJoinString.StringNextProbe | src/common/hashtable/src/hashjoin_string_hashtable.rs:282-327 | one page of the string probe copies what full comparison of the keys would copy, and returns where to resume |
| HashJoinString.StringPages | src/common/hashtable/src/hashjoin_string_hashtable.rs:282-327 | paged probing by early prefix yields exactly the row pointers of the equal strings, in chain order |
| HashJoinString.StringMatchedPtr | src/common/hashtable/src/hashjoin_string_hashtable.rs:329-356 | the first entry whose string is equal, or zero |
| HashJoinString.StringJoinRow | src/common/hashtable/src/hashjoin_string_hashtable.rs:66-327 | after every finished concurrent build, hash, filter and paged probe of a string return exactly the row pointers of the entries with that string |
| BlockIndex.MergeIntoBlockInfoIndex.InsertBlockOffsets | src/common/hashtable/src/utils.rs:259-263 | blocks added in row order keep the layout |
| BlockIndex.MergeIntoBlockInfoIndex.SearchIdx | src/common/hashtable/src/utils.rs:304-316 | binary search finds the block that contains a row |
| BlockIndex.MergeIntoBlockInfoIndex.GetBlockInfo | src/common/hashtable/src/utils.rs:278-300 | the pieces cover exactly the rows of the interval whose block the interval does not cover entirely, in order, each with its block's prefix |
| BlockIndex.MergeIntoBlockInfoIndex.GatherMatchedAllBlocks | src/common/hashtable/src/utils.rs:318-365 | returns in order exactly the blocks with every row hit |
| BlockIndex.MergeIntoBlockInfoIndex.GatherAllPartialBlockOffsets | src/common/hashtable/src/utils.rs:367-392 | a row is in a piece exactly when it is not hit and its block has a hit; pieces are ordered and carry their block's prefix |
| BlockIndex.ChunkOffsets | src/common/hashtable/src/utils.rs:395-432 | terminates; non-empty groups with increasing chunk indexes, every piece under the first chunk whose bound exceeds its end, concatenating to a prefix of the input that ends only at a piece past every bound, and to all of it exactly when some bound exceeds the last end |
| BlockIndex.PieceDropped | src/common/hashtable/src/utils.rs:395-432 | a piece past the only bound is lost |
| BlockIndex.KeptIff | src/common/hashtable/src/utils.rs:395-432 | all pieces are kept exactly when some bound exceeds the last end |
| BlockIndex.WrapBack | src/common/hashtable/src/utils.rs:420-425 | the index that wraps below zero is restored by the increment after it |
| Nested.ToNested | src/common/native/src/nested.rs:156-195 | the walk that collects the paths appends them in depth-first order |
| Nested.ToLeaves | src/common/native/src/nested.rs:197-219 | the walk that collects the leaves appends them in depth-first order |
| Nested.WalksAlign | src/common/native/src/nested.rs:156-219 | the two walks, made independently, have the same length and pair every leaf with its own path |
| Nested.SliceNestColumn | src/common/native/src/nested.rs:118-154 | the in-place loop over a path is the path sliced level by level, with the leaf cut to the last window |
| Nested.SliceRows | src/common/native/src/nested.rs:118-154 | the rows of a sliced column are the slice of its rows |
| Nested.FlattenFits | src/common/native/src/nested.rs:156-219 | every leaf path of a flattened column can take every window within its rows |
| Nested.CreateList | src/common/native/src/nested.rs:73-87 | rebasing the sliced offsets rebuilds the list column of the window |
| Nested.CreateStruct | src/common/native/src/nested.rs:267-282 | the rebuilt struct has the validity and fields of the window |
| Nested.ReadBack | src/common/native/src/read/batch_read.rs:141-190 | reading the sliced paths of a column, at any depth, succeeds and rebuilds the sliced column and the paths above it |
| Nested.SliceRoundTrip | src/common/native/src/nested.rs:118-282 | pair up the two walks, slice every path, rebuild: exactly rows offset..offset+length of the original |
| NestedPages.CutLeaf | src/common/native/src/write/common.rs:59-68 | the loop over a leaf cuts it and its path at every page window |
| NestedPages.EncodeColumn | src/common/native/src/write/common.rs:45-74 | one run of pages per leaf; reading them page by page gives back the rows of the column |
| NestedPages.PagesRoundTrip | src/common/native/src/write/common.rs:59-74 | the rows of all pages from any page on, concatenated, are the rows from its offset on |
| IntervalCode.Format | src/common/io/src/interval.rs:89-135 | the printer's writes, zero stripping included, fit in 69 bytes and leave exactly the printed text |
| IntervalCode.FormatMicros | src/common/io/src/interval.rs:75-87 | six digits with the trailing zeros taken back, and nothing before them |
| IntervalParser.ReadNumber | src/common/io/src/interval.rs:237-262 | the digit loop scans as specified, with its error and its overflow |
| IntervalParser.ReadTime | src/common/io/src/interval.rs:308-334 | so does the clock parser |
| IntervalParser.FromString | src/common/io/src/interval.rs:142-235 | the position-based parser computes the specified result on every text |
| IntervalUnits.PartExact | src/common/io/src/interval.rs:404-564 | a number with a unit adds number times scale exactly when product and sum are in range |
| IntervalUnits.SpecifierExact | src/common/io/src/interval.rs:371-564 | the interval changes exactly for a known unit, a non-zero number and a result in range; the fraction never counts |
| IntervalUnits.BareExact | src/common/io/src/interval.rs:404-425 | a bare number with its fraction adds microseconds exactly when the sum is in range |
| IntervalUnits.UnknownUnit | src/common/io/src/interval.rs:142-235 | a number with an unknown unit parses as the zero interval |
| IntervalUnits.UnknownUnitExample | src/common/io/src/interval.rs:142-235 | `5 foo` parses as the zero interval |
| IntervalUnits.FractionDropped | src/common/io/src/interval.rs:142-262 | a fraction before a unit does not change the result |
| IntervalRoundTrip.UnitsBack | src/common/io/src/interval.rs:142-235 | parsing printed units applies exactly their effects |
| IntervalRoundTrip.ClockBack | src/common/io/src/interval.rs:237-334 | a printed clock reads back as its microseconds, stripped zeros included |
| IntervalRoundTrip.RoundTrip | src/common/io/src/interval.rs:89-334 | parsing the printed text returns the interval, for all months, days and micros but the minimal one |
| IntervalDisplay.DisplayThenParse | src/common/io/src/interval.rs:32-334 | the code of the printer followed by the code of the parser returns the interval |
| ToChar.NumDesc.Prepare | src/common/io/src/number.rs:175-252 | counts the places before and after the point and the first zero place, and refuses a second point |
| ToChar.ParseFormat | src/common/io/src/number.rs:509-547 | accepts exactly the pictures with at most one point and describes them |
| ToChar.NumProc.NumpartToChar | src/common/io/src/number.rs:596-708 | one call of the state machine appends the sign if its turn has come and the character of its place |
| ToChar.ProcessI64 | src/common/io/src/number.rs:786-960 | the machine's output is the picture filled in call by call |
| ToCharLaws.FixedWidth | src/common/io/src/number.rs:786-960 | the output has one character per token and one for the sign exactly when the point, if any, has a place behind it or the value overflows |
| ToCharLaws.FixedPicture | src/common/io/src/number.rs:376-428 | for those pictures a place shows `#` exactly when the value has more digits than the picture has places before the point |
| ToCharLaws.ReadBack | src/common/io/src/number.rs:596-708 | a value that fits can be read back from the text: its digits before the point and its sign |
| ToCharLaws.TrailingDot | src/common/io/src/number.rs:633-671 | a picture ending in a point loses a character |
| Varint.PutUvarint | src/common/io/src/binary_write.rs:89-100 | writes the encoding to the front of the buffer and nothing else |
| Varint.WriteUvarint | src/common/io/src/binary_write.rs:66-71 | the ten-byte scratch buffer always suffices |
| Varint.Reader.ReadUvarint | src/common/io/src/binary_read.rs:107-126 | the or-and-shift loop decodes seven bits per byte, with end of input and the overflowing tenth byte |
| Varint.DecodeEncode | src/common/io/src/binary_read.rs:107-126 | decoding an encoded value with anything after it gives the value and its encoded length |
| Varint.UvarintRoundTrip | src/common/io/src/binary_write.rs:66-100 | reading what was written returns the value and consumes exactly the one to ten bytes |
| Varint.StringRoundTrip | src/common/io/src/binary_write.rs:59-64 | a written string reads back, whatever follows it |
| Offsets.Offsets.TryPush | src/common/column/src/offset.rs:127-153 | fails exactly when the new last offset exceeds the type, otherwise appends the length |
| Offsets.Offsets.Pop | src/common/column/src/offset.rs:219-226 | removes the last length; the first offset stays |
| Offsets.Offsets.ExtendConstant | src/common/column/src/offset.rs:230-237 | appends empty lengths |
| Offsets.Offsets.TryExtendFromLengths | src/common/column/src/offset.rs:253-279 | succeeds exactly when the total fits, and then appends exactly the lengths; the vector left behind is valid exactly when the cast lengths fit, and for lengths within the type exactly on success |
| Offsets.WrappedIsPartial | src/common/column/src/offset.rs:262-279 | the single check after the loop suffices: no partial sum has wrapped |
| Offsets.WrittenIsValidIff | src/common/column/src/offset.rs:253-279 | what the loop writes is a valid vector exactly when no length turns negative in the cast and the cast lengths fit |
| Offsets.FailureBreaks | src/common/column/src/offset.rs:253-279 | for lengths within the type, what the loop writes is valid exactly when the total fits |
| Offsets.FailedExtensions | src/common/column/src/offset.rs:253-279 | a failed extension that breaks the vector, and one that leaves it valid |
| Offsets.Offsets.TryExtendFromSelf | src/common/column/src/offset.rs:282-298 | appends the other's lengths unless the sum of the last offsets exceeds the type; error and overflow coincide exactly unless the room left is below the other's first offset |
| Offsets.Offsets.TryExtendFromSlice | src/common/column/src/offset.rs:302-327 | the same for a slice of offsets; an empty slice always succeeds |
| Offsets.RefusedThoughFitting | src/common/column/src/offset.rs:279-290 | a call that refuses offsets that would fit |
| Offsets.TryCheckOffsets | src/common/column/src/offset.rs:336-363 | accepts exactly the non-empty, non-negative, non-decreasing vectors |
| Offsets.ToI32 | src/common/column/src/offset.rs:554-568 | checking the last offset decides whether every offset fits, and then no cast changes a value |
| Offsets.Run | src/common/column/src/offset.rs:127-327 | every run of pushes, pops and extensions that succeed keeps the offsets valid, with exactly the lengths the operations leave |

## Left out

- Clearing tables, `key_size` accounting, heap-size accounting and drop glue.
- The checksum and `ahash` arithmetic, and the hash path without SSE 4.2.
- Direct-indexed, one-byte-key, stack and lookup tables, and the slot iterators.
- Mutable references to values: an insert takes the value the caller would write into the new entry.
- Raw memory and allocators; pages and their readability are modelled only for `read_le`.
- Entry addresses of the hash join are distinct, non-zero and below 2^48, and probing starts after all inserts; relaxed memory orderings are not modelled.
- The plain `probe` and the matched-only early-filtering probe of the hash join, which repeat the modelled one.
- Partitioned tables over dictionary tables, and `create` on buckets that already hold entries.
- Dictionary.Interner.Intern: the empty string is taken to have one static address.
- `chunk_offsets` and the gather methods are for blocks that are contiguous from row 0 with distinct prefixes, hits of 0 and 1, and ordered pieces; a failing `assert!` is a precondition.
- Compression, page encodings and file layout of the native format; `create_map`; `encode_chunk` needs a positive page size.
- Reading the interval as bytes of other encodings; `i64::MIN` micros; the effect of unchecked additions that overflow in the clock parser, which are reported as `Overflow`.
- `to_char` for floating point, `FM`, `EEEE`, `RN`, `V`, sign and locale words, and quoted literals.
- UTF-8 validation of strings read back, and varints with more than ten bytes.
- Storage operators, services and everything else outside these crates.
