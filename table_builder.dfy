/** Building a sorted table (src/table/builder.rs): entries go into the
    current block builder; a full block is encoded, appended to the data
    section and described by a `BlockMeta`; `build` lays out the file. */
module TableBuilder {
  import opened Bytes
  import opened Wrappers
  import opened Blocks
  import opened Table

  /** The encoded blocks one after another. */
  function Concat(blocks: seq<Bytes>): Bytes
  {
    if blocks == [] then [] else Concat(blocks[..|blocks| - 1]) + blocks[|blocks| - 1]
  }

  lemma ConcatSnoc(blocks: seq<Bytes>, b: Bytes)
    ensures Concat(blocks + [b]) == Concat(blocks) + b
  {
    assert (blocks + [b])[..|blocks|] == blocks;
  }

  /** Meta `i` records where block `i` starts: after the bytes of all the
      blocks before it. */
  predicate LaidOut(metas: seq<BlockMeta>, blocks: seq<Bytes>)
  {
    && |metas| == |blocks|
    && forall i | 0 <= i < |metas| :: metas[i].offset == |Concat(blocks[..i])|
  }

  /** Consequences of the bookkeeping: the first block starts at 0, each
      meta's offset is the previous one plus the previous block's encoded
      length (so offsets never decrease), and the last block starts inside the
      data section. */
  lemma LaidOutOffsets(metas: seq<BlockMeta>, blocks: seq<Bytes>)
    requires LaidOut(metas, blocks)
    ensures |metas| > 0 ==> metas[0].offset == 0
    ensures forall i | 0 <= i < |metas| - 1 :: metas[i + 1].offset == metas[i].offset + |blocks[i]|
    ensures forall i | 0 <= i < |metas| - 1 :: metas[i].offset <= metas[i + 1].offset
    ensures forall i | 0 <= i < |metas| :: metas[i].offset <= |Concat(blocks)|
  {
    forall i | 0 <= i < |metas| - 1
      ensures metas[i + 1].offset == metas[i].offset + |blocks[i]|
    {
      assert blocks[..i + 1] == blocks[..i] + [blocks[i]];
      ConcatSnoc(blocks[..i], blocks[i]);
    }
    forall i | 0 <= i < |metas| ensures metas[i].offset <= |Concat(blocks)| {
      ConcatPrefix(blocks, i);
    }
  }

  /** The bytes of the first `i` blocks are a prefix of the data section. */
  lemma {:induction false} ConcatPrefix(blocks: seq<Bytes>, i: nat)
    requires i <= |blocks|
    ensures |Concat(blocks[..i])| <= |Concat(blocks)|
    ensures Concat(blocks)[..|Concat(blocks[..i])|] == Concat(blocks[..i])
    decreases |blocks|
  {
    if i < |blocks| {
      var init := blocks[..|blocks| - 1];
      assert blocks[..i] == init[..i];
      ConcatPrefix(init, i);
      assert Concat(blocks) == Concat(init) + blocks[|blocks| - 1];
    } else {
      assert blocks[..i] == blocks;
    }
  }

  /** Block `i` of the data section sits at its recorded offset. */
  lemma BlockAtOffset(metas: seq<BlockMeta>, blocks: seq<Bytes>, i: nat)
    requires LaidOut(metas, blocks) && i < |blocks|
    ensures metas[i].offset + |blocks[i]| <= |Concat(blocks)|
    ensures Concat(blocks)[metas[i].offset .. metas[i].offset + |blocks[i]|] == blocks[i]
  {
    assert blocks[..i + 1] == blocks[..i] + [blocks[i]];
    ConcatSnoc(blocks[..i], blocks[i]);
    ConcatPrefix(blocks, i + 1);
    var whole, upTo := Concat(blocks), Concat(blocks[..i + 1]);
    var off := metas[i].offset;
    assert whole[off .. off + |blocks[i]|] == upTo[off .. off + |blocks[i]|] by {
      assert whole[..|upTo|] == upTo;
    }
  }

  /** The file `build` writes: the data section, the encoded metas, and the
      data section's length as a big-endian `u32`. */
  function Layout(data: Bytes, metas: seq<BlockMeta>): (file: Bytes)
    ensures |file| == |data| + |EncodeMetas(metas)| + 4
  {
    data + EncodeMetas(metas) + PutU32(TruncU32(|data|))
  }

  /** Opening the bytes that `build` lays out gives back the meta offset and
      the metas, with the table's key range taken from the first and last
      meta, as long as nothing was truncated on the way out. */
  lemma OpenLayout(data: Bytes, metas: seq<BlockMeta>, id: nat)
    requires metas != []
    requires forall i | 0 <= i < |metas| :: Encodable(metas[i])
    requires |data| < 0x1_0000_0000 && |EncodeMetas(metas)| < 0x1_0000_0000
    ensures Open(FileOf(Layout(data, metas)), id)
         == Ok(SsTable(FileOf(Layout(data, metas)), metas, |data|, id,
                       metas[0].firstKey, metas[|metas| - 1].lastKey))
  {
    var enc := EncodeMetas(metas);
    var trailer := PutU32(|data|);
    var file := Layout(data, metas);
    assert file[|file| - 4 .. |file|] == trailer;
    GetPutU32(|data|, [], []);
    assert [] + trailer + [] == trailer;
    SliceMiddle(data, enc, trailer);
    MetasRoundTrip(metas);
  }

  class SsTableBuilder {
    var builder: BlockBuilder
    var firstKey: Bytes
    var lastKey: Bytes
    var data: Bytes
    var blockMeta: seq<BlockMeta>
    const targetBlockSize: nat
    /** The encoded blocks whose bytes make up `data`, in order. */
    ghost var blocks: seq<Bytes>

    ghost predicate Valid()
      reads this
    {
      && builder.blockSize == targetBlockSize
      && data == Concat(blocks)
      && LaidOut(blockMeta, blocks)
    }

    /** `SsTableBuilder::new`: nothing added yet. */
    constructor (targetBlockSize: nat)
      ensures Valid() && this.targetBlockSize == targetBlockSize
      ensures builder == NewBlockBuilder(targetBlockSize)
      ensures firstKey == [] && lastKey == [] && data == [] && blockMeta == []
    {
      this.targetBlockSize := targetBlockSize;
      builder := NewBlockBuilder(targetBlockSize);
      firstKey := [];
      lastKey := [];
      data := [];
      blockMeta := [];
      blocks := [];
    }

    /** Encodes the current block, records its meta at the current end of
        the data section, appends its bytes and starts an empty block. */
    method FinishBlock()
      requires Valid()
      modifies this
      ensures Valid()
      ensures builder == NewBlockBuilder(targetBlockSize)
      ensures blockMeta == old(blockMeta) + [BlockMeta(|old(data)|, old(firstKey), old(lastKey))]
      ensures data == old(data) + Encode(old(builder).Build())
      ensures blocks == old(blocks) + [Encode(old(builder).Build())]
      ensures firstKey == [] && lastKey == []
    {
      var oldBuilder := builder;
      builder := NewBlockBuilder(targetBlockSize);
      var encodedBlock := Encode(oldBuilder.Build());
      blockMeta := blockMeta + [BlockMeta(|data|, firstKey, lastKey)];
      firstKey := [];
      lastKey := [];
      data := data + encodedBlock;
      ConcatSnoc(blocks, encodedBlock);
      forall i | 0 <= i < |blocks| ensures (blocks + [encodedBlock])[..i] == blocks[..i] { }
      assert (blocks + [encodedBlock])[..|blocks|] == blocks;
      blocks := blocks + [encodedBlock];
    }

    /** Adds an entry to the current block; when the block refuses it, the
        block is finished and the entry starts the next one (which always
        accepts it). */
    method Add(key: Bytes, value: Bytes)
      requires Valid()
      modifies this
      ensures Valid()
      ensures lastKey == key
      ensures var fk := if old(firstKey) == [] then key else old(firstKey);
              if old(builder).Add(key, value).0 then
                && firstKey == fk && builder == old(builder).Add(key, value).1
                && data == old(data) && blockMeta == old(blockMeta)
              else
                && firstKey == key
                && builder == NewBlockBuilder(targetBlockSize).Add(key, value).1
                && blockMeta == old(blockMeta) + [BlockMeta(|old(data)|, fk, old(lastKey))]
                && data == old(data) + Encode(old(builder).Build())
    {
      if firstKey == [] {
        firstKey := key;
      }
      var (accepted, next) := builder.Add(key, value);
      if accepted {
        builder := next;
        lastKey := key;
        return;
      }
      FinishBlock();
      var (retried, started) := builder.Add(key, value);
      assert retried;
      builder := started;
      firstKey := key;
      lastKey := key;
    }

    /** `build`: finishes the last block and lays out data, metas and the
        meta offset; the table it returns describes exactly that file. Writing
        the file to disk is not modelled. */
    method Build(id: nat) returns (t: SsTable)
      requires Valid()
      modifies this
      ensures Valid()
      ensures blockMeta == old(blockMeta) + [BlockMeta(|old(data)|, old(firstKey), old(lastKey))]
      ensures data == old(data) + Encode(old(builder).Build())
      ensures t == SsTable(FileOf(Layout(data, blockMeta)), blockMeta, |data|, id,
                           blockMeta[0].firstKey, blockMeta[|blockMeta| - 1].lastKey)
    {
      FinishBlock();
      var buf := data;
      var metaOffset := |buf|;
      buf := EncodeBlockMeta(blockMeta, buf);
      buf := buf + PutU32(TruncU32(metaOffset));
      var file := FileOf(buf);
      t := SsTable(file, blockMeta, metaOffset, id,
                   blockMeta[0].firstKey, blockMeta[|blockMeta| - 1].lastKey);
    }
  }

  /** On laid-out metas, the span `read_block` computes for block `i` is
      that block's bytes, whether the next offset or the meta offset ends it. */
  lemma BuiltBlockSpan(t: SsTable, blocks: seq<Bytes>, i: nat)
    requires LaidOut(t.blockMeta, blocks) && i < |blocks|
    requires t.blockMetaOffset == |Concat(blocks)|
    ensures BlockSpan(t, i) == (t.blockMeta[i].offset, t.blockMeta[i].offset + |blocks[i]|)
  {
    assert blocks[..i + 1] == blocks[..i] + [blocks[i]];
    ConcatSnoc(blocks[..i], blocks[i]);
    if i + 1 == |blocks| {
      assert blocks[..i + 1] == blocks;
    }
  }

  /** Reading block `i` back from the laid-out file reads exactly the bytes
      the builder appended for it, so the block read is the decoding of those
      bytes. */
  lemma ReadBuiltBlock(t: SsTable, blocks: seq<Bytes>, i: nat)
    requires LaidOut(t.blockMeta, blocks) && i < |blocks|
    requires |Concat(blocks)| < 0x1_0000_0000
    requires t.file == FileOf(Layout(Concat(blocks), t.blockMeta))
    requires t.blockMetaOffset == |Concat(blocks)|
    ensures BlockSpan(t, i) == (t.blockMeta[i].offset, t.blockMeta[i].offset + |blocks[i]|)
    ensures ReadBlock(t, i) == match Blocks.Decode(blocks[i])
                               case Some(b) => Ok(b)
                               case None => Err(Panic)
  {
    BuiltBlockSpan(t, blocks, i);
    BlockAtOffset(t.blockMeta, blocks, i);
    var data, off, len := Concat(blocks), t.blockMeta[i].offset, |blocks[i]|;
    assert Layout(data, t.blockMeta)[off .. off + len] == data[off .. off + len];
    assert Read(t.file, off, TruncU32(len)) == Ok(blocks[i]);
  }

  /** A table fresh from `build` can be opened again: the trailer gives back
      the meta offset and the meta section decodes to the builder's metas,
      provided keys are shorter than 64 KiB and the file is under 4 GiB. */
  lemma BuiltTableReopens(t: SsTable, blocks: seq<Bytes>)
    requires LaidOut(t.blockMeta, blocks) && t.blockMeta != []
    requires forall i | 0 <= i < |t.blockMeta| ::
               |t.blockMeta[i].firstKey| < 0x1_0000 && |t.blockMeta[i].lastKey| < 0x1_0000
    requires |Concat(blocks)| < 0x1_0000_0000 && |EncodeMetas(t.blockMeta)| < 0x1_0000_0000
    requires t == SsTable(FileOf(Layout(Concat(blocks), t.blockMeta)), t.blockMeta, |Concat(blocks)|, t.id,
                          t.blockMeta[0].firstKey, t.blockMeta[|t.blockMeta| - 1].lastKey)
    ensures Open(t.file, t.id) == Ok(t)
    ensures OffsetsLaidOut(t)
  {
    LaidOutOffsets(t.blockMeta, blocks);
    OpenLayout(Concat(blocks), t.blockMeta, t.id);
  }
}
