# LSM-Database: a verified model of the table format, the cursors and the engine state

This project models the sequential core of a small log-structured merge-tree
storage engine written in Rust. It covers the following parts:

- **Block cursor.** It decodes one entry of a data block: a big-endian `u16`
  key length, the key, a `u16` value length, then the value. It runs a
  lower-bound binary search over the block's offset array.
- **Sorted-table format.** Each block is described by a meta: its offset,
  first key and last key. The metas are encoded in slice order, one after
  another. A file is `data ++ metas ++ u32 meta offset`. Opening a table
  reads the trailer and decodes the metas. Reading a block takes the byte
  range between two consecutive offsets.
- **Table builder.** It fills blocks, finishes each one and records where
  it starts, then lays out the file.
- **Table cursor.** It seeks across blocks: it finds the owning block,
  searches inside it, and moves on to the first entry of the next block
  when the key lies past the end.
- **Merge iterator heap order.** Keys ascending, then source index
  ascending, reversed for Rust's max-heap.
- **User-facing iterators.** One hides tombstones (entries whose value is
  empty). The other refuses to move after an error.
- **Memtable and engine.** The memtable is a map plus a size counter. The
  engine reads newest first, writes, deletes, and freezes the active
  memtable when it grows too large.

Keys, values and files are `seq<u8>`. Byte strings are compared
lexicographically, and a proper prefix is smaller. Where the Rust code
panics on something its caller controls (an index out of range, `assert!`,
`debug_assert!`), the model has a `requires`. Where a panic or a failed read
is driven by the bytes of a file, the model returns an error value:
`IoError` for a read past the end, and `Panic` where the Rust code would
abort.

## Layout

| module | file | models |
|---|---|---|
| `Wrappers` | wrappers.dfy | `Option`, `Result`, the error kinds |
| `Bytes` | bytes.dfy | `u8`/`u16`/`u32`, big-endian `put`/`get`, lexicographic order |
| `Blocks` | blocks.dfy | the `Block` datatype, entry layout, small stand-ins for the block builder and block codec |
| `BlockIter` | block_iterator.dfy | `BlockIterator` (src/block/iterator.rs) |
| `Table` | table.dfy | `BlockMeta` codec, `FileObject::read`, `SsTable::open`, `create_meta_only`, `read_block` (src/table.rs) |
| `TableBuilder` | table_builder.dfy | `SsTableBuilder` (src/table/builder.rs) |
| `TableIter` | table_iterator.dfy | `SsTableIterator` positioning (src/table/iterator.rs) |
| `MergeOrder` | merge_iterator.dfy | `HeapWrapper` ordering (src/iterator/merge_iterator.rs) |
| `LsmIter` | lsm_iterator.dfy | `LsmIterator`, `FusedIterator` (src/lsm_iterator.rs) |
| `MemTables` | mem_table.dfy | `MemTable` (src/mem_table.rs) |
| `LsmStorage` | lsm_storage.dfy | `LsmStorageState`, `LsmStorageInner` (src/lsm_storage.rs) |

Some types live outside the files this model covers. block.rs is not part of
this model. `Block` is modelled as `data: seq<u8>` plus `offsets: seq<u16>`,
with the entry layout that the block cursor decodes. `BlockBuilder`,
`Block::encode` and `Block::decode` are small stand-ins, and the builder
always accepts an entry when it is empty. `find_block_idx` and
`num_of_blocks` are not in the modelled files either. The first is the last
block whose first key is at most the key, or block 0. The second is the
number of metas.

Classes follow the Rust structs whose fields change in place:

- `BlockIterator` carries a ghost field `at`: the entry whose bytes the
  cursor holds, or `Count(block)` when it holds none.
- `SsTableBuilder` carries the ghost list of encoded blocks that make up
  `data`.
- The engine's state is an immutable `LsmStorageState` value that holds
  references to `MemTable` objects. Freezing replaces that value whole.

One quirk is modelled exactly as written. The block cursor's `idx` changes
only in `next`. So after `seek_to_key`, `next` moves to entry `idx + 1` and
not to the entry after the one the seek found.

Two definitions do not match their use, and the model follows the use in
both. `MemTable::create` takes no arguments and returns nothing where it is
defined (src/mem_table.rs:20-22), yet `freeze_memtable` calls it with an id
and keeps the result as a memtable (src/lsm_storage.rs:125). The model
follows that call: an empty map, size 0 and the given id. `MemTable::put`
takes `&mut self` (src/mem_table.rs:28), yet `put` and `delete` call it on
the memtable shared behind a read guard (src/lsm_storage.rs:88, 99), which
cannot lend it mutably. The model follows those calls: `MemTable.Put`
updates the shared memtable object in place, and every holder of it sees
the change.

The lock around the engine's state is modelled as a ghost count of live
guards. This is enough to show that `put`, as written, blocks forever when
it freezes the memtable (see "## Findings").

## Model

| member | source | states |
|---|---|---|
| BlockIter.BlockIterator.constructor | src/block/iterator.rs:14-21 | A new cursor has an empty key, value range (0, 0) and `idx` 0, and stands on no entry, so it is invalid. |
| BlockIter.BlockIterator.SeekToOffset | src/block/iterator.rs:23-37 | The key is the `key_len` bytes after the big-endian `u16` at the offset. The value range is `[off + 2 + key_len + 2, that + value_len)`. |
| BlockIter.BlockIterator.SeekTo | src/block/iterator.rs:39-47 | An index in range decodes that entry. Any other index clears the key and sets the range to (0, 0), and the cursor then stands on no entry. |
| BlockIter.BlockIterator.IsValid | src/block/iterator.rs:49-51 | Valid exactly when the cursor holds a decoded entry whose key is non-empty. |
| BlockIter.BlockIterator.SeekToFirst | src/block/iterator.rs:53-55 | The cursor stands on entry 0, or on nothing if the block is empty. |
| BlockIter.BlockIterator.CreateAndSeekToFirst | src/block/iterator.rs:57-61 | A fresh cursor on entry 0 with `idx` 0. |
| BlockIter.BlockIterator.Probe | src/block/iterator.rs:67-74 | One probe decodes entry `mid`, and its comparison with the key is that entry's outcome. |
| BlockIter.Search | src/block/iterator.rs:64-75 | The search result stays within `[low, high]`. The interval strictly shrinks on every probe, so the search terminates. |
| BlockIter.BlockIterator.SeekToKey | src/block/iterator.rs:63-77 | The loop keeps `0 <= low <= high <= count` and the search's answer fixed. The cursor ends on `SeekIndex(block, key)`, and `idx` is untouched. |
| BlockIter.SearchFindsLowerBound | src/block/iterator.rs:63-77 | On strictly ascending keys, the binary search gives the same index as a linear scan for the first key not below the target. |
| BlockIter.SeekLandsOnLowerBound | src/block/iterator.rs:63-77 | On a sorted block, every key before the landing index is below the key. The key at the landing index, if any, is at least the key. An exact match is landed on. |
| BlockIter.BlockIterator.CreateAndSeekToKey | src/block/iterator.rs:79-83 | A fresh cursor at `SeekIndex(block, key)` with `idx` 0. |
| BlockIter.BlockIterator.Key | src/block/iterator.rs:85-88 | Requires a valid cursor. Returns the current entry's non-empty key. |
| BlockIter.BlockIterator.Value | src/block/iterator.rs:90-93 | Requires a valid cursor. Returns exactly `data[value_range.0 .. value_range.1]` of the current entry. |
| BlockIter.BlockIterator.Next | src/block/iterator.rs:95-98 | `idx` goes up by one, whatever the seeks did. The cursor decodes that entry, or becomes invalid past the last one. |
| BlockIter.ScanKeys | src/block/iterator.rs:57-98 | Starting from `create_and_seek_to_first` and calling `next` until invalid visits every key of a well-formed block in order. |
| Table.EncodeMeta | src/table.rs:42-48 | One meta takes `4 + 2 + |first_key| + 2 + |last_key|` bytes. |
| Table.EncodeMetasSnoc | src/table.rs:42-48 | The metas are written in slice order. Each meta's bytes follow those of the metas before it. |
| Table.EncodedLength | src/table.rs:25-49 | The bytes written equal the size estimated up front, so the final `assert_eq!` never fails. |
| Table.EncodeBlockMeta | src/table.rs:24-50 | Only appends. The bytes already in the buffer are unchanged, and exactly the estimated number of bytes follows them. |
| Table.DecodeMeta | src/table.rs:55-59 | A successful read of one meta consumes at least 8 bytes and stays within the buffer. |
| Table.DecodeBlockMeta | src/table.rs:52-67 | The loop returns exactly the recursive decoding of the buffer from position 0. |
| Table.DecodeEncodedMeta | src/table.rs:43-59 | With a 32-bit offset and 16-bit key lengths, one encoded meta decodes back to itself, at any position in any surrounding bytes. |
| Table.DecodeEncodedMetas | src/table.rs:42-66 | Decoding the encoding of a meta list after any prefix gives back the list, in order. |
| Table.MetasRoundTrip | src/table.rs:42-66 | `decode_block_meta(encode_block_meta(metas)) == metas` when offsets are below 2^32 and key lengths below 2^16. |
| Table.EncodeDecodedMeta | src/table.rs:55-59 | A decoded meta's lengths fit their `u16` fields and its offset its `u32`, so re-encoding the meta gives back exactly the bytes it was read from. |
| Table.DecodeConsumesAll | src/table.rs:53-66 | An empty buffer decodes to no metas. A successful decode from a position re-encodes to every byte from that position on, so no trailing fragment is left over. |
| Table.Read | src/table.rs:73-80 | A read succeeds exactly when the file has contents and the range lies inside them, and then returns exactly those bytes. |
| Table.Open | src/table.rs:119-134 | The meta offset is the big-endian `u32` in the last 4 bytes. The metas are decoded from exactly `[offset, size - 4)`. There is at least one meta. The first key is the first meta's first key, and the last key is the last meta's last key. |
| Table.CreateMetaOnly | src/table.rs:137-147 | A table with no blocks, meta offset 0, no file contents, the given size, id and key range. |
| Table.ReadBlock | src/table.rs:152-161 | A block read succeeds only if its span `[offset[idx], offset[idx+1] or meta offset)` does not run backwards. |
| Table.SpansTile | src/table.rs:152-159 | Take offsets that start at 0, never decrease and end at or before the meta section. Then the block spans tile `[0, meta offset)`: each ends where the next begins, and the last ends at the meta offset. |
| TableBuilder.ReadBuiltBlock | src/table.rs:152-161 | On a file laid out from the builder's blocks, the span `read_block` computes for block `i` is exactly that block's bytes, whether the next offset or the meta offset ends it. So the block read back is the decoding of block `i`, and a failed decode is a panic. |
| TableBuilder.SsTableBuilder.constructor | src/table/builder.rs:19-28 | A new builder has empty `first_key`, `last_key`, `data` and `block_meta`, and an empty block builder. |
| TableBuilder.SsTableBuilder.Add | src/table/builder.rs:30-49 | Afterwards `last_key` is the key just added. `first_key` is set when it was empty. When the block refuses the entry, the block is finished and the entry starts a new block, with `first_key` reset to the key. |
| TableBuilder.SsTableBuilder.FinishBlock | src/table/builder.rs:51-62 | Pushes exactly one meta whose offset is the data length before the block is appended. Data then grows by the encoded block. The keys are cleared and a fresh block builder is installed. |
| TableBuilder.LaidOutOffsets | src/table/builder.rs:54-61 | The first offset is 0. Consecutive meta offsets differ by the encoded length of the earlier block, so they never decrease. Every offset lies inside the data section. |
| TableBuilder.Layout | src/table/builder.rs:71-77 | The built file is data, then the encoded metas, then 4 bytes of trailer. |
| TableBuilder.SsTableBuilder.Build | src/table/builder.rs:65-88 | Finishes the last block. The returned table's file is data ++ metas ++ big-endian `u32` of the data length, and its `block_meta_offset` is that length. |
| TableBuilder.OpenLayout | src/table/builder.rs:71-77 | In the built layout, the last 4 bytes give back the meta offset and `[offset, len - 4)` decodes to the metas, so `open` rebuilds the same table. |
| TableBuilder.BuiltTableReopens | src/table/builder.rs:71-87 | A table fresh from `build` reopens to itself, and its block offsets are laid out so that the spans tile the data. |
| TableIter.FirstBlockIteratorPair | src/table/iterator.rs:17-21 | Returns block index 0 and a fresh cursor on block 0's first entry, or the read error. |
| TableIter.BlockIteratorAndSeekToKey | src/table/iterator.rs:23-42 | The result has three cases. It seeks inside the block `find_block_idx` picks. If that seek is invalid, the index advances by exactly one and, if a block remains, the cursor sits on its first entry. Otherwise the index is one past the picked block, which is at least `num_of_blocks`. |
| TableIter.SsTableIterator.CreateAndSeekToFirst | src/table/iterator.rs:44-52 | A fresh table cursor at block 0, first entry. |
| TableIter.SsTableIterator.SeekToFirst | src/table/iterator.rs:54-60 | Resets `block_idx` to 0 and replaces the block cursor. On a read error the cursor is left as it was. |
| TableIter.SsTableIterator.CreateAndSeekToKey | src/table/iterator.rs:62-69 | The fresh cursor's `block_idx` and block cursor are the seek position for the key. |
| TableIter.SsTableIterator.SeekToKey | src/table/iterator.rs:71-76 | Lands on the same position as `create_and_seek_to_key` for the same table and key. On a read error the cursor is left as it was. |
| TableIter.EarlierBlocksBelow | src/table/iterator.rs:25-27 | On a sorted table, every entry of a block before the picked one is below the key. |
| TableIter.SeekPositionOnSorted | src/table/iterator.rs:23-42 | On a sorted table, every block read succeeds, and the seek lands on the position the three-way case split describes. |
| TableIter.SeekPassesOnlySmaller | src/table/iterator.rs:23-42 | Every entry in table order before the seek position is below the key. |
| TableIter.SeekStopsNotBelow | src/table/iterator.rs:34-41 | Unless the seek ran off the last block, it stands on an entry whose key is at least the key. |
| TableIter.SeekFindsFirstNotBelow | src/table/iterator.rs:23-42 | On a sorted table, seeking stands on the first entry of the whole table whose key is at least the key, or one past the last block when every key is smaller. |
| MergeOrder.PartialCmp | src/iterator/merge_iterator.rs:17-23 | `partial_cmp` always returns `Some`, so `cmp` and `eq` never panic. |
| MergeOrder.HeapCmpMeaning | src/iterator/merge_iterator.rs:17-22 | One wrapper compares Greater than another exactly when its key is smaller, or the keys are equal and its index is smaller. Less is the mirror case. |
| MergeOrder.EqIff | src/iterator/merge_iterator.rs:8-10 | `eq` holds exactly when both key and index are equal. |
| MergeOrder.Antisymmetric | src/iterator/merge_iterator.rs:17-23 | `cmp(b, a)` is `cmp(a, b).reverse()`. |
| MergeOrder.Transitive | src/iterator/merge_iterator.rs:16-30 | Greater is transitive, so the order is a total order. |
| MergeOrder.HeapTopIsSmallest | src/iterator/merge_iterator.rs:16-30 | The max-heap's top has the smallest key, and the lowest index among the wrappers with that key. |
| LsmIter.Skip | src/lsm_iterator.rs:21-26 | Skipping moves only over tombstones. It stops at the first live entry or the end, or at the tombstone where the inner `next` fails, with that error. |
| LsmIter.StepLive | src/lsm_iterator.rs:30-34 | After one inner step and a skip, success means the iterator stands on a live entry or the end. A failure carries the inner error. |
| LsmIter.LsmIterator.MoveToNonDelete | src/lsm_iterator.rs:21-26 | The loop ends where `Skip` says, and an inner error is passed on unchanged. |
| LsmIter.LsmIterator.New | src/lsm_iterator.rs:13-17 | On success the iterator is invalid or its value is non-empty, and what remains is every live entry from the start. An inner error is returned unchanged. |
| LsmIter.LsmIterator.Next | src/lsm_iterator.rs:30-34 | On success the iterator is invalid or its value is non-empty, and the entry it stood on has been consumed from the live entries. An inner error is returned unchanged. |
| LsmIter.SkipKeepsLive | src/lsm_iterator.rs:21-25 | A successful skip passes only tombstones, so the live entries ahead are the same before and after it. |
| LsmIter.LiveStep | src/lsm_iterator.rs:21-25 | A live entry heads the live entries from its position on, and a tombstone adds nothing to them. |
| LsmIter.LiveIsFilter | src/lsm_iterator.rs:21-25 | The exposed entries are exactly the inner entries with a non-empty value. None is invented and no live one is skipped. |
| LsmIter.LsmIterator.IsValid | src/lsm_iterator.rs:44-46 | Valid exactly when the merged iterator still stands on an entry. |
| LsmIter.LsmIterator.Key | src/lsm_iterator.rs:36-38 | The key of the merged iterator's current entry. |
| LsmIter.LsmIterator.Value | src/lsm_iterator.rs:40-42 | The value of the merged iterator's current entry. |
| LsmIter.FusedIterator.constructor | src/lsm_iterator.rs:55-60 | A new fused iterator is not errored. |
| LsmIter.FusedIterator.Next | src/lsm_iterator.rs:64-76 | Once errored it stays errored, and every `next` fails as tainted without touching the inner iterator. On an invalid inner iterator `next` is a no-op returning Ok. An inner error sets `has_errored` and is returned, after which `is_valid` is false. |
| LsmIter.FusedIterator.IsValid | src/lsm_iterator.rs:92-94 | Valid exactly when not tainted and the wrapped iterator stands on an entry. |
| LsmIter.FusedIterator.Key | src/lsm_iterator.rs:78-83 | The source panics on access while tainted or invalid, so this requires `is_valid`. Returns the wrapped iterator's current key. |
| LsmIter.FusedIterator.Value | src/lsm_iterator.rs:85-90 | The source panics on access while tainted or invalid, so this requires `is_valid`. Returns the wrapped iterator's current value. |
| MemTables.MemTable.Create | src/lsm_storage.rs:125 | A new memtable has an empty map, size 0 and the given id. |
| MemTables.MemTable.Get | src/mem_table.rs:24-26 | A key reads as `Some` exactly when the map holds it, and then as the stored value. A tombstone reads as `Some([])`, not as absence. |
| MemTables.MemTable.ApproximateSize | src/mem_table.rs:35-37 | Returns the running total that `put` raises by `|key| + |value|` on every call. |
| MemTables.MemTable.Put | src/mem_table.rs:28-33 | Afterwards `get(k)` is the new value and every other key reads as before. The size grows by exactly `|k| + |v|`, even when `k` was present. No entry is removed and the size never shrinks. |
| LsmStorage.FirstHolder | src/lsm_storage.rs:65-79 | The index of the first memtable, newest first, that holds the key: none before it does, and it does (or it is the end). |
| LsmStorage.LookupNewestFirst | src/lsm_storage.rs:61-80 | The active memtable answers when it holds the key, and a tombstone reads as `None`. Otherwise the frozen memtables are asked in order. With none left the answer is `None`. |
| LsmStorage.LsmStorageInner.Get | src/lsm_storage.rs:61-81 | Returns exactly the newest-first lookup over the active and then the frozen memtables. |
| LsmStorage.LookupAfterWrite | src/lsm_storage.rs:83-99 | Writing into the newest memtable makes the key read as the written value, or as `None` for a tombstone. Every other key reads as before. |
| LsmStorage.LookupBehindEmpty | src/lsm_storage.rs:123-136 | An empty memtable in front changes no lookup. |
| LsmStorage.LsmStorageInner.Put | src/lsm_storage.rs:83-92 | This is the corrected `put` (see "## Findings"): its read guard is dropped before `try_freeze_memtable`, as in `delete`. Requires a non-empty key and value. The written memtable maps the key to the value and its size grows by `|key| + |value|`. If that new size is over `target_sst_size`, the memtable is frozen: a fresh empty memtable under the old counter value becomes active, the written one goes in front of the frozen ones, and the counter goes up by one. Otherwise the state and the counter are unchanged. Either way the sorted tables are untouched, `get(key)` is the value, every other key reads as before, and the lock is free. |
| LsmStorage.PutAsWrittenHangsOnFreeze | src/lsm_storage.rs:83-92 | On an otherwise free lock, `put` as written never returns exactly when it freezes: `state.write()` (line 127) waits on the read guard `put` took at line 87. |
| LsmStorage.PutScopedReturns | src/lsm_storage.rs:94-104 | With the guard dropped before `try_freeze_memtable`, as `delete` does, a write returns whether or not it freezes, and leaves the lock free. |
| LsmStorage.LsmStorageInner.Delete | src/lsm_storage.rs:94-104 | Requires a non-empty key. The written memtable maps the key to the empty tombstone and its size grows by `|key|`. If that new size is over `target_sst_size`, the memtable is frozen exactly as in `put`; otherwise the state and the counter are unchanged. Either way the sorted tables are untouched, `get(key)` is `None` and every other key reads as before. |
| LsmStorage.LsmStorageInner.TryFreezeMemtable | src/lsm_storage.rs:106-121 | Freezes exactly when both the passed size and the size re-read under a read guard exceed `target_sst_size`. When it freezes, the new state is exactly what `FreezeMemtable` gives: a fresh empty memtable of size 0 whose id is the old counter, the old memtable at index 0 of the frozen list, the tables and levels unchanged, and the counter one higher. Otherwise the state and the counter are unchanged. No lookup changes. The lock is free again afterwards. |
| LsmStorage.LsmStorageInner.FreezeMemtable | src/lsm_storage.rs:123-139 | A fresh empty memtable with the next id becomes active. The old one is inserted at index 0 of the frozen list, whose rest keeps its order. The level fields are unchanged, and every lookup gives the same answer. |
| LsmStorage.LsmStorageInner.NextSstId | src/lsm_storage.rs:141-143 | Returns the old counter and increments it, so successive ids strictly increase. |

## Left out

- `FileObject::create` and `FileObject::open` (src/table.rs:86-102) are filesystem I/O and fsync. A file is its bytes plus a size. `build` returns the table over the bytes it laid out, and does not write them.
- `read_block_cache` and `BlockCache` (src/table.rs:163-178) use a foreign cache. A cached read is modelled as returning what `read_block` returns.
- `Mutex`, `Arc` and `AtomicUsize` are not modelled, and the `RwLock` on the state is only a ghost count of live guards. The engine is one sequential object, and the double check in `try_freeze_memtable` is kept as written. Races between threads are not modelled.
- The skip map inside `MemTable` is a Dafny `map`. Its ordering and `scan` are not modelled.
- `scan` (src/lsm_storage.rs:146-163) depends on `MemTable::scan` and `MergeIterator::create`, which are not defined in the modelled files. `MergeIterator` itself has no methods, so only its heap order is modelled. The heap is not.
- The `StorageIterator` impl of `SsTableIterator` (src/table/iterator.rs:79-100) is all `unimplemented!()`.
- Compaction, manifest, MVCC and most of the configuration are outside the modelled files. The model keeps only `target_sst_size`.
- src/main.rs only prints, and src/iterator.rs only declares the iterator trait.
- block.rs is not part of this model. The block builder, block codec, `find_block_idx` and `num_of_blocks` are stand-ins, as described above.
- LsmIter.EntryStream: the merged iterator under `LsmIterator` is a stand-in. It is a list of entries in merge order with a cursor, and its `next` fails, without moving, at one chosen position with one chosen error kind.
- LsmIter.FusedIterator: generic over any `StorageIterator` in the Rust code. It is modelled over `LsmIterator` only, which is how `scan` uses it.
- LsmStorage.LsmStorageInner.Get: the Rust `Result` is always `Ok`, so the model returns the `Option` inside it.
- LsmStorage.LsmStorageInner.Put: the Rust `Result` is always `Ok` and is not returned. The same holds for `Delete`, `TryFreezeMemtable`, `FreezeMemtable` and `MemTable::put`.
- MemTables.MemTable.Put: the `usize` counter is unbounded in the model. `fetch_add`'s wrap-around on overflow is not modelled, and neither is the wrap-around of the id counter in `NextSstId`.
- Table.MetasRoundTrip: holds only for offsets below 2^32 and key lengths below 2^16. Beyond those, the `as u32` and `as u16` casts, which the encoder models with explicit truncation, lose information.
- TableIter.BlockIteratorAndSeekToKey: the block cursor panics on a block whose entries run past its bytes. The model does not represent that panic. Instead it requires every block the table can read to be well-formed (`BlocksWellFormed`), and so do the other table-cursor methods. `TableSorted` implies this.
- BlockIter.BlockIterator.SeekToKey: `requires WellFormed(block)` rules out two panics rather than modelling them. One is an entry that runs past the block's bytes. The other is the `assert!(self.is_valid())` on a probe that decodes an empty key (src/block/iterator.rs:69). `SeekTo`, `SeekToOffset`, `SeekToFirst` and `Next` likewise require the entry they decode to fit inside the block.
- Table.Open: two subtractions that underflow are modelled as `Err(Panic)`, the debug-build overflow panic. One is `size - 4` on a file shorter than 4 bytes (src/table.rs:120). The other is `size - 4 - offset` for a meta offset past `size - 4`. A release build wraps instead, and the read then fails with an I/O error. Either way `open` fails, but the error differs.
- TableIter.SsTableIterator.CreateAndSeekToFirst: the Rust function takes an unused `&self` as well as the table. The model drops that receiver and makes the method static.

## Findings

| source | as written | input that shows it | evidently intended | confidence | as-written member | corrected member |
|---|---|---|---|---|---|---|
| src/lsm_storage.rs:83-92 | `put` keeps the read guard from line 87 alive until it returns. So when `try_freeze_memtable` decides to freeze, `freeze_memtable` calls `state.write()` (line 127), which waits on that guard, and the thread blocks forever. | `target_sst_size` 0, then `put(b"k", b"v")` on a fresh engine: both size checks see 2 > 0, and the freeze waits on `put`'s own guard. | Drop the guard before `try_freeze_memtable`, as `delete` does in its inner block (lines 96-102). A write then returns whether or not it freezes. | not executed | LsmStorage.PutAsWrittenHangsOnFreeze | LsmStorage.LsmStorageInner.Put |
