/** A data block: entries stored back to back, each
    `[key_len: u16][key][value_len: u16][value]`, and one `u16` start offset per
    entry. block.rs is not part of this model; the entry layout is the one
    src/block/iterator.rs decodes, and the builder and the codec below are
    small stand-ins with the contracts the table code relies on. */
module Blocks {
  import opened Bytes
  import opened Wrappers

  datatype Block = Block(data: Bytes, offsets: seq<u16>)

  /** Number of entries. */
  function Count(b: Block): nat { |b.offsets| }

  /** The entry starting at `off` lies wholly inside `data`: every `get_u16`,
      slice and `advance` of the decoder stays in bounds. */
  predicate EntryFits(data: Bytes, off: nat)
  {
    && off + 2 <= |data|
    && off + 2 + GetU16(data, off) + 2 <= |data|
    && off + 2 + GetU16(data, off) + 2 + GetU16(data, off + 2 + GetU16(data, off)) <= |data|
  }

  function KeyLen(data: Bytes, off: nat): nat
    requires EntryFits(data, off)
  {
    GetU16(data, off)
  }

  /** The key bytes of the entry at `off`. */
  function EntryKey(data: Bytes, off: nat): (k: Bytes)
    requires EntryFits(data, off)
    ensures |k| == KeyLen(data, off)
  {
    data[off + 2 .. off + 2 + KeyLen(data, off)]
  }

  /** The half-open byte range of the entry's value. */
  function EntryValueRange(data: Bytes, off: nat): (r: (nat, nat))
    requires EntryFits(data, off)
    ensures r.0 <= r.1 <= |data|
  {
    var vstart := off + 2 + KeyLen(data, off) + 2;
    (vstart, vstart + GetU16(data, vstart - 2))
  }

  predicate EntryAtFits(b: Block, i: nat)
  {
    i < Count(b) && EntryFits(b.data, b.offsets[i])
  }

  function KeyAt(b: Block, i: nat): Bytes
    requires EntryAtFits(b, i)
  {
    EntryKey(b.data, b.offsets[i])
  }

  function ValueRangeAt(b: Block, i: nat): (nat, nat)
    requires EntryAtFits(b, i)
  {
    EntryValueRange(b.data, b.offsets[i])
  }

  function ValueAt(b: Block, i: nat): Bytes
    requires EntryAtFits(b, i)
  {
    var r := ValueRangeAt(b, i);
    b.data[r.0 .. r.1]
  }

  /** Every entry decodes and has a non-empty key (the builder refuses empty
      keys), which is what the binary search asserts of each probe. */
  predicate WellFormed(b: Block)
  {
    forall i | 0 <= i < Count(b) :: EntryAtFits(b, i) && KeyAt(b, i) != []
  }

  /** The keys of a well-formed block, in entry order. */
  function Keys(b: Block): (ks: seq<Bytes>)
    requires WellFormed(b)
    ensures |ks| == Count(b)
  {
    seq(Count(b), i requires 0 <= i < Count(b) => KeyAt(b, i))
  }

  /** Strictly ascending byte strings. */
  predicate Ascending(ks: seq<Bytes>)
  {
    forall i, j {:trigger Lt(ks[i], ks[j])} | 0 <= i < j < |ks| :: Lt(ks[i], ks[j])
  }

  /** Keys strictly ascending, the order the table builder adds them in. */
  predicate Sorted(b: Block)
  {
    WellFormed(b) && Ascending(Keys(b))
  }

  /** Bytes of one entry as the block builder lays it out. */
  function EncodeEntry(key: Bytes, value: Bytes): (r: Bytes)
    ensures |r| == 4 + |key| + |value|
  {
    PutU16(TruncU16(|key|)) + key + PutU16(TruncU16(|value|)) + value
  }

  /** The block builder: accumulates entries under a byte budget. */
  datatype BlockBuilder = BlockBuilder(blockSize: nat, data: Bytes, offsets: seq<u16>)
  {
    predicate IsEmpty() { offsets == [] }

    /** Bytes the finished block will take: entries, offsets, entry count. */
    function EstimatedSize(): nat { 2 + 2 * |offsets| + |data| }

    /** Adds the entry if it fits the budget; an empty builder always accepts,
        so one oversized entry still makes progress. */
    function Add(key: Bytes, value: Bytes): (r: (bool, BlockBuilder))
      ensures IsEmpty() ==> r.0
      ensures r.0 ==> (&& r.1.blockSize == blockSize
                       && r.1.offsets == offsets + [TruncU16(|data|)]
                       && r.1.data == data + EncodeEntry(key, value))
      ensures !r.0 ==> r.1 == this
    {
      if !IsEmpty() && EstimatedSize() + |key| + |value| + 6 > blockSize then
        (false, this)
      else
        (true, BlockBuilder(blockSize, data + EncodeEntry(key, value), offsets + [TruncU16(|data|)]))
    }

    function Build(): Block
    {
      Block(data, offsets)
    }
  }

  function NewBlockBuilder(blockSize: nat): (bb: BlockBuilder)
    ensures bb.IsEmpty() && bb.data == [] && bb.blockSize == blockSize
  {
    BlockBuilder(blockSize, [], [])
  }

  function PutU16s(xs: seq<u16>): (r: Bytes)
    ensures |r| == 2 * |xs|
  {
    if xs == [] then [] else PutU16(xs[0]) + PutU16s(xs[1..])
  }

  /** `Block::encode`: data, then the offsets, then the entry count. */
  function Encode(b: Block): (r: Bytes)
    ensures |r| == |b.data| + 2 * Count(b) + 2
  {
    b.data + PutU16s(b.offsets) + PutU16(TruncU16(Count(b)))
  }

  function GetU16s(s: Bytes, from: nat, n: nat): (r: seq<u16>)
    requires from + 2 * n <= |s|
    ensures |r| == n
    decreases n
  {
    if n == 0 then [] else [GetU16(s, from)] + GetU16s(s, from + 2, n - 1)
  }

  /** `Block::decode`; `None` where the bytes are too short for the count
      they end with. */
  function Decode(s: Bytes): Option<Block>
  {
    if |s| < 2 then None
    else
      var n := GetU16(s, |s| - 2);
      if 2 + 2 * n > |s| then None
      else
        var dataEnd := |s| - 2 - 2 * n;
        Some(Block(s[..dataEnd], GetU16s(s, dataEnd, n)))
  }
}
