/** The sorted-table file format (src/table.rs): per-block metadata and its
    byte encoding, the file object, opening a table from its bytes and the
    byte range of each block. */
module Table {
  import opened Bytes
  import opened Wrappers
  import Blocks

  /** Where a block starts in the file, and its first and last key. */
  datatype BlockMeta = BlockMeta(offset: nat, firstKey: Bytes, lastKey: Bytes)

  /** Bytes one meta takes: u32 offset, u16 length, first key, u16 length,
      last key. */
  function MetaSize(m: BlockMeta): nat
  {
    4 + 2 + |m.firstKey| + 2 + |m.lastKey|
  }

  /** The size the encoder estimates before writing, summed in slice order. */
  function EstimatedSize(metas: seq<BlockMeta>): nat
  {
    if metas == [] then 0 else EstimatedSize(metas[..|metas| - 1]) + MetaSize(metas[|metas| - 1])
  }

  function EncodeMeta(m: BlockMeta): (r: Bytes)
    ensures |r| == MetaSize(m)
  {
    PutU32(TruncU32(m.offset)) + PutU16(TruncU16(|m.firstKey|)) + m.firstKey
      + PutU16(TruncU16(|m.lastKey|)) + m.lastKey
  }

  /** The metas' bytes, in slice order. */
  function EncodeMetas(metas: seq<BlockMeta>): Bytes
  {
    if metas == [] then [] else EncodeMeta(metas[0]) + EncodeMetas(metas[1..])
  }

  lemma EncodeMetasCons(m: BlockMeta, metas: seq<BlockMeta>)
    ensures EncodeMetas([m] + metas) == EncodeMeta(m) + EncodeMetas(metas)
  {
    assert ([m] + metas)[1..] == metas;
  }

  lemma {:induction false} EncodeMetasSnoc(metas: seq<BlockMeta>, m: BlockMeta)
    ensures EncodeMetas(metas + [m]) == EncodeMetas(metas) + EncodeMeta(m)
  {
    if metas == [] {
      assert metas + [m] == [m];
    } else {
      assert (metas + [m])[1..] == metas[1..] + [m];
      EncodeMetasSnoc(metas[1..], m);
    }
  }

  /** The length claim the encoder asserts: the bytes written are exactly
      the estimated size. */
  lemma {:induction false} EncodedLength(metas: seq<BlockMeta>)
    ensures |EncodeMetas(metas)| == EstimatedSize(metas)
    decreases |metas|
  {
    if metas != [] {
      var init := metas[..|metas| - 1];
      assert metas == init + [metas[|metas| - 1]];
      EncodeMetasSnoc(init, metas[|metas| - 1]);
      EncodedLength(init);
    }
  }

  /** `encode_block_meta`: appends the encoding of `metas` to `buf`. The
      final `assert_eq!` of the size estimate against the bytes written never
      fails. */
  method EncodeBlockMeta(metas: seq<BlockMeta>, buf: Bytes) returns (out: Bytes)
    ensures out == buf + EncodeMetas(metas)
    ensures |out| == |buf| + EstimatedSize(metas)
  {
    var estimatedSize := 0;
    for i := 0 to |metas|
      invariant estimatedSize == EstimatedSize(metas[..i])
    {
      assert metas[..i + 1][..i] == metas[..i];
      estimatedSize := estimatedSize + 4 + 2 + |metas[i].firstKey| + 2 + |metas[i].lastKey|;
    }
    assert metas[..|metas|] == metas;
    var originalLen := |buf|;
    out := buf;
    for i := 0 to |metas|
      invariant out == buf + EncodeMetas(metas[..i])
    {
      var m := metas[i];
      // offset, first key length, first key, last key length, last key
      out := out + EncodeMeta(m);
      assert metas[..i + 1] == metas[..i] + [m];
      EncodeMetasSnoc(metas[..i], m);
      AppendAssoc(buf, EncodeMetas(metas[..i]), EncodeMeta(m));
    }
    EncodedLength(metas);
    assert estimatedSize == |out| - originalLen;
  }

  /** One meta read at `pos`, with the position after it; `None` where a
      `get_u32`, `get_u16` or `copy_to_bytes` would run past the end (the
      Rust `Buf` panics there). */
  function DecodeMeta(buf: Bytes, pos: nat): (r: Option<(BlockMeta, nat)>)
    ensures r.Some? ==> pos + 8 <= r.value.1 <= |buf|
  {
    if pos + 4 + 2 > |buf| then None
    else
      var offset := GetU32(buf, pos);
      var firstLen := GetU16(buf, pos + 4);
      var firstEnd := pos + 6 + firstLen;
      if firstEnd + 2 > |buf| then None
      else
        var lastLen := GetU16(buf, firstEnd);
        var lastEnd := firstEnd + 2 + lastLen;
        if lastEnd > |buf| then None
        else Some((BlockMeta(offset, buf[pos + 6 .. firstEnd], buf[firstEnd + 2 .. lastEnd]), lastEnd))
  }

  /** `decode_block_meta` from `pos`: metas are read until no byte remains. */
  function DecodeMetas(buf: Bytes, pos: nat): Option<seq<BlockMeta>>
    decreases |buf| - pos
  {
    if pos >= |buf| then Some([])
    else
      match DecodeMeta(buf, pos)
      case None => None
      case Some((m, next)) =>
        match DecodeMetas(buf, next)
        case None => None
        case Some(rest) => Some([m] + rest)
  }

  function Prepend(acc: seq<BlockMeta>, r: Option<seq<BlockMeta>>): Option<seq<BlockMeta>>
  {
    match r
    case None => None
    case Some(rest) => Some(acc + rest)
  }

  lemma PrependStep(acc: seq<BlockMeta>, buf: Bytes, pos: nat, m: BlockMeta, next: nat)
    requires pos < |buf| && DecodeMeta(buf, pos) == Some((m, next))
    ensures Prepend(acc, DecodeMetas(buf, pos)) == Prepend(acc + [m], DecodeMetas(buf, next))
  {
    match DecodeMetas(buf, next)
    case None =>
    case Some(rest) => assert acc + ([m] + rest) == acc + [m] + rest;
  }

  /** `decode_block_meta`: reads metas until the buffer is used up; `None`
      where the Rust code would panic on a truncated buffer. */
  method DecodeBlockMeta(buf: Bytes) returns (r: Option<seq<BlockMeta>>)
    ensures r == DecodeMetas(buf, 0)
  {
    var metas: seq<BlockMeta> := [];
    var pos := 0;
    match DecodeMetas(buf, 0) {
      case None =>
      case Some(all) => assert [] + all == all;
    }
    while pos < |buf|
      invariant pos <= |buf|
      invariant DecodeMetas(buf, 0) == Prepend(metas, DecodeMetas(buf, pos))
      decreases |buf| - pos
    {
      // offset, first key, last key; `None` where `Buf` would panic
      match DecodeMeta(buf, pos) {
        case None => return None;
        case Some((m, next)) =>
          PrependStep(metas, buf, pos, m, next);
          metas := metas + [m];
          pos := next;
      }
    }
    assert metas + [] == metas;
    return Some(metas);
  }

  /** What the encoding can carry without truncation: a `u32` offset and
      `u16` key lengths. */
  predicate Encodable(m: BlockMeta)
  {
    m.offset < 0x1_0000_0000 && |m.firstKey| < 0x1_0000 && |m.lastKey| < 0x1_0000
  }

  /** The ways of cutting `pre + (a + b + c + d + e) + post` around each
      field of one encoded meta. */
  lemma Regroup(pre: Bytes, a: Bytes, b: Bytes, c: Bytes, d: Bytes, e: Bytes, post: Bytes)
    ensures var buf := pre + (a + b + c + d + e) + post;
            && buf == pre + a + (b + c + d + e + post)
            && buf == (pre + a) + b + (c + d + e + post)
            && buf == (pre + a + b) + c + (d + e + post)
            && buf == (pre + a + b + c) + d + (e + post)
            && buf == (pre + a + b + c + d) + e + post
  {
  }

  lemma SliceMiddle(pre: Bytes, x: Bytes, post: Bytes)
    ensures (pre + x + post)[|pre| .. |pre| + |x|] == x
  {
  }

  lemma DecodeEncodedMeta(pre: Bytes, m: BlockMeta, post: Bytes)
    requires Encodable(m)
    ensures DecodeMeta(pre + EncodeMeta(m) + post, |pre|) == Some((m, |pre| + MetaSize(m)))
  {
    var fl, ll := |m.firstKey|, |m.lastKey|;
    var a, b, c, d, e := PutU32(m.offset), PutU16(fl), m.firstKey, PutU16(ll), m.lastKey;
    Regroup(pre, a, b, c, d, e, post);
    GetPutU32(m.offset, pre, b + c + d + e + post);
    GetPutU16(fl, pre + a, c + d + e + post);
    SliceMiddle(pre + a + b, c, d + e + post);
    GetPutU16(ll, pre + a + b + c, e + post);
    SliceMiddle(pre + a + b + c + d, e, post);
  }

  lemma {:induction false} DecodeEncodedMetas(pre: Bytes, metas: seq<BlockMeta>)
    requires forall i | 0 <= i < |metas| :: Encodable(metas[i])
    ensures DecodeMetas(pre + EncodeMetas(metas), |pre|) == Some(metas)
    decreases |metas|
  {
    var buf := pre + EncodeMetas(metas);
    if metas == [] {
      assert buf == pre;
    } else {
      var m, rest := metas[0], EncodeMetas(metas[1..]);
      var pre' := pre + EncodeMeta(m);
      AppendAssoc(pre, EncodeMeta(m), rest);
      assert buf == pre' + rest;
      DecodeEncodedMeta(pre, m, rest);
      assert DecodeMeta(buf, |pre|) == Some((m, |pre'| as nat));
      DecodeEncodedMetas(pre', metas[1..]);
      assert DecodeMetas(buf, |pre'|) == Some(metas[1..]);
      assert [m] + metas[1..] == metas;
    }
  }

  lemma MetasRoundTrip(metas: seq<BlockMeta>)
    requires forall i | 0 <= i < |metas| :: Encodable(metas[i])
    ensures DecodeMetas(EncodeMetas(metas), 0) == Some(metas)
  {
    DecodeEncodedMetas([], metas);
    assert [] + EncodeMetas(metas) == EncodeMetas(metas);
  }

  /** One decoded meta encodes back to exactly the bytes it was read from:
      the lengths read fit their `u16` fields and the offset its `u32`, so
      no truncation happens on the way back. */
  lemma EncodeDecodedMeta(buf: Bytes, pos: nat)
    requires DecodeMeta(buf, pos).Some?
    ensures var (m, next) := DecodeMeta(buf, pos).value;
            Encodable(m) && EncodeMeta(m) == buf[pos .. next]
  {
    var (m, next) := DecodeMeta(buf, pos).value;
    var firstEnd := pos + 6 + |m.firstKey|;
    PutGetU32(buf, pos);
    PutGetU16(buf, pos + 4);
    PutGetU16(buf, firstEnd);
    assert buf[pos .. next] == buf[pos .. pos + 4] + buf[pos + 4 .. pos + 6] + buf[pos + 6 .. firstEnd]
                               + buf[firstEnd .. firstEnd + 2] + buf[firstEnd + 2 .. next];
  }

  /** An empty buffer decodes to no metas, and a decoded buffer was used up
      exactly: encoding the metas read from `pos` gives back every byte from
      `pos` on, so a trailing fragment shorter than one meta is refused. */
  lemma {:induction false} DecodeConsumesAll(buf: Bytes, pos: nat)
    requires pos <= |buf|
    ensures pos == |buf| ==> DecodeMetas(buf, pos) == Some([])
    ensures DecodeMetas(buf, pos).Some? ==> EncodeMetas(DecodeMetas(buf, pos).value) == buf[pos..]
    decreases |buf| - pos
  {
    if pos < |buf| && DecodeMetas(buf, pos).Some? {
      var (m, next) := DecodeMeta(buf, pos).value;
      DecodeConsumesAll(buf, next);
      ReencodeStep(buf, pos, m, next, DecodeMetas(buf, next).value);
    }
  }

  /** One step of `DecodeConsumesAll`: a meta decoded at `pos`, followed by
      metas that re-encode to the rest of the buffer. */
  lemma ReencodeStep(buf: Bytes, pos: nat, m: BlockMeta, next: nat, rest: seq<BlockMeta>)
    requires DecodeMeta(buf, pos) == Some((m, next))
    requires next <= |buf| && EncodeMetas(rest) == buf[next..]
    ensures EncodeMetas([m] + rest) == buf[pos..]
  {
    EncodeDecodedMeta(buf, pos);
    EncodeMetasCons(m, rest);
    assert buf[pos..] == buf[pos .. next] + buf[next..];
  }

  /** The file behind a table: its bytes (absent for a metadata-only table)
      and its size. */
  datatype FileObject = FileObject(contents: Option<Bytes>, size: nat)

  /** `FileObject::read`: `len` bytes at `offset`; a file without contents
      panics on `unwrap`, and a read past the end is an I/O error. */
  function Read(f: FileObject, offset: nat, len: nat): (r: Result<Bytes>)
    ensures r.Ok? <==> f.contents.Some? && offset + len <= |f.contents.value|
    ensures r.Ok? ==> r.value == f.contents.value[offset .. offset + len]
  {
    if f.contents.None? then Err(Panic)
    else if offset + len > |f.contents.value| then Err(IoError)
    else Ok(f.contents.value[offset .. offset + len])
  }

  /** The bytes of a file that was written and then opened. */
  function FileOf(data: Bytes): (f: FileObject)
    ensures f.contents == Some(data) && f.size == |data|
  {
    FileObject(Some(data), |data|)
  }

  datatype SsTable = SsTable(
    file: FileObject,
    blockMeta: seq<BlockMeta>,
    blockMetaOffset: nat,
    id: nat,
    firstKey: Bytes,
    lastKey: Bytes)

  /** `SsTable::open`: the last four bytes give where the metas start, the
      bytes from there up to the trailer are decoded, and the table's key
      range comes from the first and the last meta. */
  function Open(f: FileObject, id: nat): (r: Result<SsTable>)
    ensures r.Ok? ==> && f.size >= 4
                      && Read(f, f.size - 4, 4).Ok?
                      && r.value.blockMetaOffset == GetU32(Read(f, f.size - 4, 4).value, 0)
                      && r.value.blockMetaOffset <= f.size - 4
                      && Read(f, r.value.blockMetaOffset, TruncU32(f.size - 4 - r.value.blockMetaOffset)).Ok?
                      && DecodeMetas(Read(f, r.value.blockMetaOffset,
                                          TruncU32(f.size - 4 - r.value.blockMetaOffset)).value, 0)
                         == Some(r.value.blockMeta)
                      && r.value.blockMeta != []
                      && r.value.firstKey == r.value.blockMeta[0].firstKey
                      && r.value.lastKey == r.value.blockMeta[|r.value.blockMeta| - 1].lastKey
                      && r.value.file == f && r.value.id == id
  {
    if f.size < 4 then Err(Panic)
    else
      match Read(f, f.size - 4, 4)
      case Err(e) => Err(e)
      case Ok(raw) =>
        var metaOffset := GetU32(raw, 0);
        if metaOffset > f.size - 4 then Err(Panic)
        else
          match Read(f, metaOffset, TruncU32(f.size - 4 - metaOffset))
          case Err(e) => Err(e)
          case Ok(metasRaw) =>
            match DecodeMetas(metasRaw, 0)
            case None => Err(Panic)
            case Some(metas) =>
              if metas == [] then Err(Panic)
              else Ok(SsTable(f, metas, metaOffset, id, metas[0].firstKey, metas[|metas| - 1].lastKey))
  }

  /** `create_meta_only`: a table that knows only its key range and size;
      it has no blocks and no bytes to read. */
  function CreateMetaOnly(id: nat, fileSize: nat, firstKey: Bytes, lastKey: Bytes): (t: SsTable)
    ensures NumOfBlocks(t) == 0 && t.blockMetaOffset == 0
    ensures t.file.contents.None? && t.file.size == fileSize
    ensures t.id == id && t.firstKey == firstKey && t.lastKey == lastKey
  {
    SsTable(FileObject(None, fileSize), [], 0, id, firstKey, lastKey)
  }

  /** `num_of_blocks`, defined in block-index code outside this model; a
      stand-in: one block per meta. */
  function NumOfBlocks(t: SsTable): nat
  {
    |t.blockMeta|
  }

  /** `find_block_idx`, defined in block-index code outside this model; a
      stand-in: the last block whose first key is at most `key`, or block 0
      when `key` is below all of them. */
  function FindBlockIdx(t: SsTable, key: Bytes): (r: nat)
    ensures NumOfBlocks(t) > 0 ==> r < NumOfBlocks(t)
    ensures 0 < r ==> r < NumOfBlocks(t) && Le(t.blockMeta[r].firstKey, key)
    ensures forall j | r < j < NumOfBlocks(t) :: Lt(key, t.blockMeta[j].firstKey)
  {
    FindFrom(t.blockMeta, key, 0, 0)
  }

  function FindFrom(metas: seq<BlockMeta>, key: Bytes, i: nat, best: nat): (r: nat)
    requires best <= i <= |metas| && (|metas| > 0 ==> best < |metas|)
    requires 0 < best ==> Le(metas[best].firstKey, key)
    requires forall j | best < j < i :: Lt(key, metas[j].firstKey)
    ensures best <= r && (r == 0 || r < |metas|)
    ensures 0 < r ==> r < |metas| && Le(metas[r].firstKey, key)
    ensures forall j | r < j < |metas| :: Lt(key, metas[j].firstKey)
    decreases |metas| - i
  {
    if i == |metas| then best
    else if Le(metas[i].firstKey, key) then FindFrom(metas, key, i + 1, i)
    else
      NotLtIsLe(key, metas[i].firstKey);
      FindFrom(metas, key, i + 1, best)
  }

  /** The byte range `read_block` reads for block `idx`: from its own
      offset to the next block's, or to the meta section for the last one. */
  function BlockSpan(t: SsTable, idx: nat): (nat, nat)
    requires idx < NumOfBlocks(t)
  {
    var next := if idx + 1 < |t.blockMeta| then t.blockMeta[idx + 1].offset else t.blockMetaOffset;
    (t.blockMeta[idx].offset, next)
  }

  /** `read_block`: the bytes of the span, decoded as a block. A span that
      ends before it starts underflows (a panic); so does a block too short
      to decode. */
  function ReadBlock(t: SsTable, idx: nat): (r: Result<Blocks.Block>)
    requires idx < NumOfBlocks(t)
    ensures r.Ok? ==> BlockSpan(t, idx).0 <= BlockSpan(t, idx).1
  {
    var (offset, next) := BlockSpan(t, idx);
    if next < offset then Err(Panic)
    else
      match Read(t.file, offset, TruncU32(next - offset))
      case Err(e) => Err(e)
      case Ok(bytes) =>
        match Blocks.Decode(bytes)
        case None => Err(Panic)
        case Some(b) => Ok(b)
  }

  /** Block offsets that start at zero, never decrease and end at or before
      the meta section: what the builder produces. */
  predicate OffsetsLaidOut(t: SsTable)
  {
    && (|t.blockMeta| > 0 ==> t.blockMeta[0].offset == 0)
    && (forall i | 0 <= i < |t.blockMeta| - 1 :: t.blockMeta[i].offset <= t.blockMeta[i + 1].offset)
    && (|t.blockMeta| > 0 ==> t.blockMeta[|t.blockMeta| - 1].offset <= t.blockMetaOffset)
  }

  /** On such a table the block spans tile the data section [0, meta offset):
      the first starts at 0, each ends where the next starts, the last ends at
      the meta section, and none runs backwards. */
  lemma SpansTile(t: SsTable)
    requires OffsetsLaidOut(t) && NumOfBlocks(t) > 0
    ensures BlockSpan(t, 0).0 == 0
    ensures forall i | 0 <= i < NumOfBlocks(t) :: BlockSpan(t, i).0 <= BlockSpan(t, i).1
    ensures forall i | 0 <= i < NumOfBlocks(t) - 1 :: BlockSpan(t, i).1 == BlockSpan(t, i + 1).0
    ensures BlockSpan(t, NumOfBlocks(t) - 1).1 == t.blockMetaOffset
  {
  }
}
