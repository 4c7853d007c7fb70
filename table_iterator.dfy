/** Positioning a cursor over a whole table (src/table/iterator.rs): find
    the block that may hold the key, seek inside it, and spill over to the
    first entry of the next block when the key lies past the block's end.
    The block cache is not modelled: a cached read returns what `read_block`
    returns. */
module TableIter {
  import opened Bytes
  import opened Wrappers
  import opened Blocks
  import opened BlockIter
  import opened Table

  /** Every block the table can read decodes to a well-formed block, so the
      block cursor's decoding and search never run off the data. */
  predicate BlocksWellFormed(t: SsTable)
  {
    forall i | 0 <= i < NumOfBlocks(t) :: ReadBlock(t, i).Ok? ==> WellFormed(ReadBlock(t, i).value)
  }

  /** Where a table cursor stands: the block index, the block read there and
      the entry the block cursor decoded (`Count(block)` when none). */
  datatype Position = Position(blockIdx: nat, block: Block, at: nat)

  /** What seeking to `key` does: the block `find_block_idx` picks, the
      binary search inside it, and, when that runs off the block's end, the
      first entry of the following block if there is one. */
  function SeekToKeyPosition(t: SsTable, key: Bytes): Result<Position>
    requires NumOfBlocks(t) > 0 && BlocksWellFormed(t)
  {
    var bi := FindBlockIdx(t, key);
    match ReadBlock(t, bi)
    case Err(e) => Err(e)
    case Ok(b) =>
      var at := SeekIndex(b, key);
      if at < Count(b) then Ok(Position(bi, b, at))
      else if bi + 1 < NumOfBlocks(t) then
        match ReadBlock(t, bi + 1)
        case Err(e) => Err(e)
        case Ok(next) => Ok(Position(bi + 1, next, 0))
      else Ok(Position(bi + 1, b, at))
  }

  /** The block cursor stands where `p` says, as a freshly created one. */
  ghost predicate At(it: BlockIterator, p: Position)
    reads it
  {
    it.Valid() && it.block == p.block && it.at == p.at && it.idx == 0
  }

  /** `create_first_block_iterator_and_seek_to_first_pair`: block 0, at its
      first entry. */
  method FirstBlockIteratorPair(t: SsTable) returns (r: Result<(nat, BlockIterator)>)
    requires NumOfBlocks(t) > 0 && BlocksWellFormed(t)
    ensures r.Err? ==> ReadBlock(t, 0) == Err(r.error)
    ensures r.Ok? ==> && ReadBlock(t, 0).Ok? && r.value.0 == 0 && fresh(r.value.1)
                      && At(r.value.1, Position(0, ReadBlock(t, 0).value, 0))
  {
    match ReadBlock(t, 0)
    case Err(e) => return Err(e);
    case Ok(first) =>
      var it := BlockIterator.CreateAndSeekToFirst(first);
      return Ok((0, it));
  }

  /** `create_block_iterator_and_seek_to_key`. */
  method BlockIteratorAndSeekToKey(t: SsTable, key: Bytes) returns (r: Result<(nat, BlockIterator)>)
    requires NumOfBlocks(t) > 0 && BlocksWellFormed(t)
    ensures SeekToKeyPosition(t, key).Err? ==> r == Err(SeekToKeyPosition(t, key).error)
    ensures SeekToKeyPosition(t, key).Ok? ==>
              && r.Ok? && fresh(r.value.1)
              && r.value.0 == SeekToKeyPosition(t, key).value.blockIdx
              && At(r.value.1, SeekToKeyPosition(t, key).value)
  {
    var blockIndex := FindBlockIdx(t, key);
    var block;
    match ReadBlock(t, blockIndex) {
      case Err(e) => return Err(e);
      case Ok(b) => block := b;
    }
    var blockIterator := BlockIterator.CreateAndSeekToKey(block, key);
    if !blockIterator.IsValid() {
      blockIndex := blockIndex + 1;
      if blockIndex < NumOfBlocks(t) {
        match ReadBlock(t, blockIndex) {
          case Err(e) => return Err(e);
          case Ok(next) => blockIterator := BlockIterator.CreateAndSeekToFirst(next);
        }
      }
    }
    return Ok((blockIndex, blockIterator));
  }

  class SsTableIterator {
    const table: SsTable
    var blockIter: BlockIterator
    var blockIdx: nat

    constructor (table: SsTable, blockIter: BlockIterator, blockIdx: nat)
      ensures this.table == table && this.blockIter == blockIter && this.blockIdx == blockIdx
    {
      this.table := table;
      this.blockIter := blockIter;
      this.blockIdx := blockIdx;
    }

    /** `create_and_seek_to_first`: a cursor on the first entry of block 0. */
    static method CreateAndSeekToFirst(t: SsTable) returns (r: Result<SsTableIterator>)
      requires NumOfBlocks(t) > 0 && BlocksWellFormed(t)
      ensures r.Err? ==> ReadBlock(t, 0) == Err(r.error)
      ensures r.Ok? ==> && ReadBlock(t, 0).Ok? && fresh(r.value) && fresh(r.value.blockIter)
                        && r.value.table == t && r.value.blockIdx == 0
                        && At(r.value.blockIter, Position(0, ReadBlock(t, 0).value, 0))
    {
      var pair := FirstBlockIteratorPair(t);
      match pair
      case Err(e) => return Err(e);
      case Ok((idx, it)) =>
        var iter := new SsTableIterator(t, it, idx);
        return Ok(iter);
    }

    /** `seek_to_first`: back to block 0's first entry; on a read error the
        cursor is left as it was. */
    method SeekToFirst() returns (r: Outcome)
      requires NumOfBlocks(table) > 0 && BlocksWellFormed(table)
      modifies this
      ensures r.Fail? ==> ReadBlock(table, 0) == Err(r.error)
                          && blockIdx == old(blockIdx) && blockIter == old(blockIter)
      ensures r.Pass? ==> && ReadBlock(table, 0).Ok? && blockIdx == 0 && fresh(blockIter)
                          && At(blockIter, Position(0, ReadBlock(table, 0).value, 0))
    {
      var pair := FirstBlockIteratorPair(table);
      match pair
      case Err(e) => return Fail(e);
      case Ok((idx, it)) =>
        blockIdx := idx;
        blockIter := it;
        return Pass;
    }

    /** `create_and_seek_to_key`: a cursor where `SeekToKeyPosition` says. */
    static method CreateAndSeekToKey(t: SsTable, key: Bytes) returns (r: Result<SsTableIterator>)
      requires NumOfBlocks(t) > 0 && BlocksWellFormed(t)
      ensures SeekToKeyPosition(t, key).Err? ==> r == Err(SeekToKeyPosition(t, key).error)
      ensures SeekToKeyPosition(t, key).Ok? ==>
                && r.Ok? && fresh(r.value) && fresh(r.value.blockIter) && r.value.table == t
                && r.value.blockIdx == SeekToKeyPosition(t, key).value.blockIdx
                && At(r.value.blockIter, SeekToKeyPosition(t, key).value)
    {
      var pair := BlockIteratorAndSeekToKey(t, key);
      match pair
      case Err(e) => return Err(e);
      case Ok((idx, it)) =>
        var iter := new SsTableIterator(t, it, idx);
        return Ok(iter);
    }

    /** `seek_to_key`: the same position `create_and_seek_to_key` gives for
        this table and key; on a read error the cursor is left as it was. */
    method SeekToKey(key: Bytes) returns (r: Outcome)
      requires NumOfBlocks(table) > 0 && BlocksWellFormed(table)
      modifies this
      ensures SeekToKeyPosition(table, key).Err? ==>
                && r == Fail(SeekToKeyPosition(table, key).error)
                && blockIdx == old(blockIdx) && blockIter == old(blockIter)
      ensures SeekToKeyPosition(table, key).Ok? ==>
                && r.Pass? && fresh(blockIter)
                && blockIdx == SeekToKeyPosition(table, key).value.blockIdx
                && At(blockIter, SeekToKeyPosition(table, key).value)
    {
      var pair := BlockIteratorAndSeekToKey(table, key);
      match pair
      case Err(e) => return Fail(e);
      case Ok((idx, it)) =>
        blockIter := it;
        blockIdx := idx;
        return Pass;
    }
  }

  /** `blocks` are what the table's blocks read back as: each non-empty with
      ascending keys, each meta recording its block's first key, and keys
      ascending from block to block, which is what the builder writes for
      ascending input. */
  ghost predicate TableSorted(t: SsTable, blocks: seq<Block>)
  {
    && |blocks| == NumOfBlocks(t)
    && (forall i | 0 <= i < |blocks| :: ReadBlock(t, i) == Ok(blocks[i]))
    && (forall i | 0 <= i < |blocks| ::
          && Sorted(blocks[i]) && Count(blocks[i]) > 0
          && t.blockMeta[i].firstKey == KeyAt(blocks[i], 0))
    && (forall i1, i2, j1, j2 {:trigger Lt(KeyAt(blocks[i1], j1), KeyAt(blocks[i2], j2))} |
          && 0 <= i1 < i2 < |blocks|
          && 0 <= j1 < Count(blocks[i1]) && 0 <= j2 < Count(blocks[i2]) ::
            Lt(KeyAt(blocks[i1], j1), KeyAt(blocks[i2], j2)))
  }

  /** Entry `j` of block `i` comes before position `p` in table order. */
  predicate Before(p: Position, i: nat, j: nat)
  {
    i < p.blockIdx || (i == p.blockIdx && j < p.at)
  }

  /** Every entry of a block before the one `find_block_idx` picks is below
      `key`: it is below the picked block's first key, which is at most `key`. */
  lemma EarlierBlocksBelow(t: SsTable, blocks: seq<Block>, key: Bytes)
    requires NumOfBlocks(t) > 0 && TableSorted(t, blocks)
    ensures forall i, j | 0 <= i < FindBlockIdx(t, key) && 0 <= j < Count(blocks[i]) ::
              Lt(KeyAt(blocks[i], j), key)
  {
    var bi := FindBlockIdx(t, key);
    forall i, j | 0 <= i < bi && 0 <= j < Count(blocks[i])
      ensures Lt(KeyAt(blocks[i], j), key)
    {
      LtLeTrans(KeyAt(blocks[i], j), KeyAt(blocks[bi], 0), key);
    }
  }

  lemma SortedBlocksWellFormed(t: SsTable, blocks: seq<Block>)
    requires TableSorted(t, blocks)
    ensures BlocksWellFormed(t)
  {
    forall i | 0 <= i < NumOfBlocks(t) && ReadBlock(t, i).Ok? ensures WellFormed(ReadBlock(t, i).value) {
      assert ReadBlock(t, i) == Ok(blocks[i]);
    }
  }

  /** Where the seek lands on a table whose blocks read back as `blocks`:
      in the block `find_block_idx` picks, or at the start of the next one
      when the key lies past that block's end. */
  function SortedSeek(t: SsTable, blocks: seq<Block>, key: Bytes): (p: Position)
    requires NumOfBlocks(t) > 0 && |blocks| == NumOfBlocks(t)
    requires forall i | 0 <= i < |blocks| :: WellFormed(blocks[i])
  {
    var bi := FindBlockIdx(t, key);
    var at := SeekIndex(blocks[bi], key);
    if at < Count(blocks[bi]) then Position(bi, blocks[bi], at)
    else if bi + 1 < |blocks| then Position(bi + 1, blocks[bi + 1], 0)
    else Position(bi + 1, blocks[bi], at)
  }

  /** On a sorted table the seek reads no block that fails, so it lands
      where `SortedSeek` says. */
  lemma SeekPositionOnSorted(t: SsTable, blocks: seq<Block>, key: Bytes)
    requires NumOfBlocks(t) > 0 && TableSorted(t, blocks)
    ensures BlocksWellFormed(t)
    ensures SeekToKeyPosition(t, key) == Ok(SortedSeek(t, blocks, key))
  {
    SortedBlocksWellFormed(t, blocks);
    var bi := FindBlockIdx(t, key);
    assert ReadBlock(t, bi) == Ok(blocks[bi]);
    if bi + 1 < |blocks| {
      assert ReadBlock(t, bi + 1) == Ok(blocks[bi + 1]);
    }
  }

  /** Every entry the seek passes over is below `key`. */
  lemma SeekPassesOnlySmaller(t: SsTable, blocks: seq<Block>, key: Bytes)
    requires NumOfBlocks(t) > 0 && TableSorted(t, blocks)
    ensures forall i, j | 0 <= i < |blocks| && 0 <= j < Count(blocks[i]) && Before(SortedSeek(t, blocks, key), i, j) ::
              Lt(KeyAt(blocks[i], j), key)
  {
    var bi := FindBlockIdx(t, key);
    var b := blocks[bi];
    SeekLandsOnLowerBound(b, key);
    EarlierBlocksBelow(t, blocks, key);
    var at := SeekIndex(b, key);
    var p := SortedSeek(t, blocks, key);
    assert p.blockIdx == bi ==> p.at == at;
    assert p.blockIdx == bi + 1 ==> at == Count(b);
    forall i, j | 0 <= i < |blocks| && 0 <= j < Count(blocks[i]) && Before(p, i, j)
      ensures Lt(KeyAt(blocks[i], j), key)
    {
      if i >= bi {
        assert i == bi && j < at;
      }
    }
  }

  /** Unless it ran off the table's end, the seek stands on an entry whose
      key is at least `key`. */
  lemma SeekStopsNotBelow(t: SsTable, blocks: seq<Block>, key: Bytes)
    requires NumOfBlocks(t) > 0 && TableSorted(t, blocks)
    ensures var p := SortedSeek(t, blocks, key);
            && p.blockIdx <= |blocks|
            && (p.blockIdx < |blocks| ==>
                  && p.block == blocks[p.blockIdx] && p.at < Count(p.block)
                  && Le(key, KeyAt(p.block, p.at)))
  {
    var bi := FindBlockIdx(t, key);
    assert Sorted(blocks[bi]);
    if bi + 1 < |blocks| {
      assert EntryAtFits(blocks[bi + 1], 0) && t.blockMeta[bi + 1].firstKey == KeyAt(blocks[bi + 1], 0);
    }
    StopsNotBelow(t, blocks, key);
  }

  /** The case analysis behind `SeekStopsNotBelow`, from just the facts about
      the picked block and the one after it. */
  lemma StopsNotBelow(t: SsTable, blocks: seq<Block>, key: Bytes)
    requires NumOfBlocks(t) > 0 && |blocks| == NumOfBlocks(t)
    requires forall i | 0 <= i < |blocks| :: WellFormed(blocks[i])
    requires Sorted(blocks[FindBlockIdx(t, key)])
    requires var bi := FindBlockIdx(t, key);
             bi + 1 < |blocks| ==>
               EntryAtFits(blocks[bi + 1], 0) && t.blockMeta[bi + 1].firstKey == KeyAt(blocks[bi + 1], 0)
    ensures var p := SortedSeek(t, blocks, key);
            && p.blockIdx <= |blocks|
            && (p.blockIdx < |blocks| ==>
                  && p.block == blocks[p.blockIdx] && p.at < Count(p.block)
                  && Le(key, KeyAt(p.block, p.at)))
  {
    var bi := FindBlockIdx(t, key);
    var b := blocks[bi];
    SeekLandsOnLowerBound(b, key);
    var at := SeekIndex(b, key);
    if at < Count(b) {
      assert SortedSeek(t, blocks, key) == Position(bi, b, at);
    } else if bi + 1 < |blocks| {
      // `find_block_idx` chose the last block starting at or below `key`, so
      // the next block starts above it.
      assert Lt(key, t.blockMeta[bi + 1].firstKey);
      assert SortedSeek(t, blocks, key) == Position(bi + 1, blocks[bi + 1], 0);
    }
  }

  /** On a sorted table, seeking to `key` stands on the first entry of the
      whole table whose key is at least `key`: every entry before it is
      smaller, and it exists unless every key is smaller, in which case the
      block index is one past the last block. */
  lemma SeekFindsFirstNotBelow(t: SsTable, blocks: seq<Block>, key: Bytes)
    requires NumOfBlocks(t) > 0 && TableSorted(t, blocks)
    ensures BlocksWellFormed(t)
    ensures SeekToKeyPosition(t, key).Ok?
    ensures var p := SeekToKeyPosition(t, key).value;
            && p.blockIdx <= |blocks|
            && (forall i, j | 0 <= i < |blocks| && 0 <= j < Count(blocks[i]) && Before(p, i, j) ::
                  Lt(KeyAt(blocks[i], j), key))
            && (p.blockIdx < |blocks| ==>
                  && p.block == blocks[p.blockIdx] && p.at < Count(p.block)
                  && Le(key, KeyAt(p.block, p.at)))
  {
    SeekPositionOnSorted(t, blocks, key);
    SeekPassesOnlySmaller(t, blocks, key);
    SeekStopsNotBelow(t, blocks, key);
  }
}
