/** The cursor over one block (src/block/iterator.rs). */
module BlockIter {
  import opened Bytes
  import opened Blocks

  /** Linear-scan reference for the binary search: the first index at or
      after `from` whose key is not below `k`, or `|ks|` if none is. */
  function FirstNotBelow(ks: seq<Bytes>, k: Bytes, from: nat): (r: nat)
    requires from <= |ks|
    ensures from <= r <= |ks|
    decreases |ks| - from
  {
    if from == |ks| then from
    else if Lt(ks[from], k) then FirstNotBelow(ks, k, from + 1)
    else from
  }

  /** `p` is the linear scan's answer exactly when every key before it is
      below `k` and the key at `p` (if any) is not. */
  lemma {:induction false} FirstNotBelowIs(ks: seq<Bytes>, k: Bytes, from: nat, p: nat)
    requires from <= p <= |ks|
    requires forall j | from <= j < p :: Lt(ks[j], k)
    requires p < |ks| ==> !Lt(ks[p], k)
    ensures FirstNotBelow(ks, k, from) == p
    decreases p - from
  {
    if from < p {
      FirstNotBelowIs(ks, k, from + 1, p);
    }
  }

  /** Every key the linear scan passes over is below `k`. */
  lemma {:induction false} PassedKeysBelow(ks: seq<Bytes>, k: Bytes, from: nat, j: nat)
    requires from <= |ks| && from <= j < FirstNotBelow(ks, k, from)
    ensures Lt(ks[j], k)
    decreases j - from
  {
    if j > from {
      PassedKeysBelow(ks, k, from + 1, j);
    }
  }

  /** The key the linear scan stops on, if any, is at least `k`. */
  lemma {:induction false} StopKeyNotBelow(ks: seq<Bytes>, k: Bytes, from: nat)
    requires from <= |ks|
    ensures FirstNotBelow(ks, k, from) < |ks| ==> Le(k, ks[FirstNotBelow(ks, k, from)])
    decreases |ks| - from
  {
    if from < |ks| {
      if Lt(ks[from], k) {
        StopKeyNotBelow(ks, k, from + 1);
      } else {
        NotLtIsLe(ks[from], k);
      }
    }
  }

  /** How each key compares with `k`, entry by entry: all the binary search
      ever learns about the block. */
  function Outcomes(ks: seq<Bytes>, k: Bytes): (cs: seq<Ordering>)
    ensures |cs| == |ks|
  {
    seq(|ks|, i requires 0 <= i < |ks| => Cmp(ks[i], k))
  }

  /** The binary search of `seek_to_key` as a function of the comparison
      outcomes: probe the middle of [low, high), go right past a smaller key,
      left onto a larger one, and stop on an equal one. */
  function Search(cs: seq<Ordering>, low: nat, high: nat): (r: nat)
    requires low <= high <= |cs|
    ensures low <= r <= high
    decreases high - low
  {
    if low >= high then low
    else
      var mid := low + (high - low) / 2;
      match cs[mid]
      case Less => Search(cs, mid + 1, high)
      case Greater => Search(cs, low, mid)
      case Equal => mid
  }

  /** Where `seek_to_key` lands in block `b` for key `k`. */
  function SeekIndex(b: Block, k: Bytes): (r: nat)
    requires WellFormed(b)
    ensures r <= Count(b)
  {
    Search(Outcomes(Keys(b), k), 0, Count(b))
  }

  /** On strictly ascending keys, the binary search started on [low, high)
      with every key left of `low` below `k` and every key from `high` on
      above it finds the first key that is at least `k`. */
  lemma {:induction false} SearchFindsLowerBound(ks: seq<Bytes>, k: Bytes, low: nat, high: nat)
    requires Ascending(ks) && low <= high <= |ks|
    requires forall j | 0 <= j < low :: Lt(ks[j], k)
    requires forall j | high <= j < |ks| :: Lt(k, ks[j])
    ensures Search(Outcomes(ks, k), low, high) == FirstNotBelow(ks, k, 0)
    decreases high - low, 1
  {
    if low >= high {
      if low < |ks| { CmpFlip(k, ks[low]); }
      FirstNotBelowIs(ks, k, 0, low);
    } else {
      var mid := low + (high - low) / 2;
      match Cmp(ks[mid], k)
      case Less => SearchGoesRight(ks, k, low, high);
      case Greater => SearchGoesLeft(ks, k, low, high);
      case Equal =>
        assert Outcomes(ks, k)[mid] == Equal;
        CmpEqualIff(ks[mid], k);
        LtIrreflexive(k);
        FirstNotBelowIs(ks, k, 0, mid);
    }
  }

  /** The probe found a smaller key: the search continues right of it. */
  lemma {:induction false} SearchGoesRight(ks: seq<Bytes>, k: Bytes, low: nat, high: nat)
    requires Ascending(ks) && low < high <= |ks|
    requires forall j | 0 <= j < low :: Lt(ks[j], k)
    requires forall j | high <= j < |ks| :: Lt(k, ks[j])
    requires Lt(ks[low + (high - low) / 2], k)
    ensures Search(Outcomes(ks, k), low, high) == FirstNotBelow(ks, k, 0)
    decreases high - low, 0
  {
    var mid := low + (high - low) / 2;
    assert Outcomes(ks, k)[mid] == Less;
    BelowUpTo(ks, k, mid);
    SearchFindsLowerBound(ks, k, mid + 1, high);
  }

  /** The probe found a larger key: the search continues left of it. */
  lemma {:induction false} SearchGoesLeft(ks: seq<Bytes>, k: Bytes, low: nat, high: nat)
    requires Ascending(ks) && low < high <= |ks|
    requires forall j | 0 <= j < low :: Lt(ks[j], k)
    requires forall j | high <= j < |ks| :: Lt(k, ks[j])
    requires Cmp(ks[low + (high - low) / 2], k) == Greater
    ensures Search(Outcomes(ks, k), low, high) == FirstNotBelow(ks, k, 0)
    decreases high - low, 0
  {
    var mid := low + (high - low) / 2;
    assert Outcomes(ks, k)[mid] == Greater;
    AboveFrom(ks, k, mid);
    SearchFindsLowerBound(ks, k, low, mid);
  }

  /** On ascending keys, a key below `k` has only keys below `k` before it. */
  lemma BelowUpTo(ks: seq<Bytes>, k: Bytes, mid: nat)
    requires Ascending(ks) && mid < |ks| && Lt(ks[mid], k)
    ensures forall j | 0 <= j <= mid :: Lt(ks[j], k)
  {
    forall j | 0 <= j < mid ensures Lt(ks[j], k) {
      LtTrans(ks[j], ks[mid], k);
    }
  }

  /** On ascending keys, a key above `k` has only keys above `k` after it. */
  lemma AboveFrom(ks: seq<Bytes>, k: Bytes, mid: nat)
    requires Ascending(ks) && mid < |ks| && Cmp(ks[mid], k) == Greater
    ensures forall j | mid <= j < |ks| :: Lt(k, ks[j])
  {
    CmpFlip(ks[mid], k);
    forall j | mid < j < |ks| ensures Lt(k, ks[j]) {
      LtTrans(k, ks[mid], ks[j]);
    }
  }

  /** `seek_to_key` on a block with ascending keys: the first entry whose
      key is at least `k` (the entry equal to `k` if there is one), or past
      the end when every key is below `k`. */
  lemma SeekLandsOnLowerBound(b: Block, k: Bytes)
    requires Sorted(b)
    ensures var at := SeekIndex(b, k);
            && (forall j | 0 <= j < at :: Lt(KeyAt(b, j), k))
            && (at < Count(b) ==> Le(k, KeyAt(b, at)))
            && (forall j | 0 <= j < Count(b) :: KeyAt(b, j) == k ==> at == j)
  {
    var ks := Keys(b);
    SearchFindsLowerBound(ks, k, 0, |ks|);
    var at := SeekIndex(b, k);
    forall j | 0 <= j < at ensures Lt(KeyAt(b, j), k) {
      PassedKeysBelow(ks, k, 0, j);
    }
    StopKeyNotBelow(ks, k, 0);
    forall j | 0 <= j < Count(b) && KeyAt(b, j) == k ensures at == j {
      LtIrreflexive(k);
      if at < j {
        LeLtTrans(k, ks[at], ks[j]);
      }
    }
  }

  class BlockIterator {
    const block: Block
    /** Key of the current entry; empty when the cursor is not on an entry. */
    var key: Bytes
    /** Byte range of the current value inside `block.data`. */
    var valueRange: (nat, nat)
    /** Entry index that `Next` advances; the seeks leave it alone. */
    var idx: nat
    /** Entry whose bytes `key` and `valueRange` were decoded from, or
        `Count(block)` when none was. */
    ghost var at: nat

    ghost predicate Valid()
      reads this
    {
      && at <= Count(block)
      && (at < Count(block) ==>
            EntryAtFits(block, at) && key == KeyAt(block, at) && valueRange == ValueRangeAt(block, at))
      && (at == Count(block) ==> key == [] && valueRange == (0, 0))
    }

    /** `BlockIterator::new`: positioned on nothing. */
    constructor (block: Block)
      ensures this.block == block && Valid()
      ensures key == [] && valueRange == (0, 0) && idx == 0 && at == Count(block)
    {
      this.block := block;
      key := [];
      valueRange := (0, 0);
      idx := 0;
      at := Count(block);
    }

    /** Decodes the entry that starts at byte `offset`. */
    method SeekToOffset(offset: nat)
      requires EntryFits(block.data, offset)
      modifies this`key, this`valueRange
      ensures key == EntryKey(block.data, offset)
      ensures valueRange == EntryValueRange(block.data, offset)
    {
      var keyLen := GetU16(block.data, offset);
      key := block.data[offset + 2 .. offset + 2 + keyLen];
      var valueLen := GetU16(block.data, offset + 2 + keyLen);
      var valueBegin := offset + 2 + keyLen + 2;
      valueRange := (valueBegin, valueBegin + valueLen);
    }

    /** Decodes entry `i`, or clears the cursor when `i` is past the last entry. */
    method SeekTo(i: nat)
      requires i < Count(block) ==> EntryAtFits(block, i)
      modifies this`key, this`valueRange, this`at
      ensures Valid()
      ensures at == if i < Count(block) then i else Count(block)
    {
      if i >= |block.offsets| {
        key := [];
        valueRange := (0, 0);
        at := Count(block);
        return;
      }
      SeekToOffset(block.offsets[i]);
      at := i;
    }

    /** `is_valid`: the cursor holds a decoded entry with a non-empty key. */
    function IsValid(): (v: bool)
      reads this
      requires Valid()
      ensures v <==> at < Count(block) && KeyAt(block, at) != []
    {
      key != []
    }

    method SeekToFirst()
      requires Count(block) > 0 ==> EntryAtFits(block, 0)
      modifies this`key, this`valueRange, this`at
      ensures Valid() && at == 0
    {
      SeekTo(0);
    }

    static method CreateAndSeekToFirst(block: Block) returns (it: BlockIterator)
      requires Count(block) > 0 ==> EntryAtFits(block, 0)
      ensures fresh(it) && it.block == block && it.Valid()
      ensures it.at == 0 && it.idx == 0
    {
      it := new BlockIterator(block);
      it.SeekToFirst();
    }

    /** One probe of the binary search: decode entry `mid` and compare its
        (necessarily non-empty) key with `k`. */
    method Probe(mid: nat, k: Bytes) returns (c: Ordering)
      requires WellFormed(block) && mid < Count(block)
      modifies this`key, this`valueRange, this`at
      ensures Valid() && at == mid && c == Outcomes(Keys(block), k)[mid]
    {
      SeekTo(mid);
      assert key != [];
      c := Cmp(key, k);
    }

    /** Binary search for the first entry whose key is at least `k`: the
        cursor ends where `SeekIndex` says, which on a block with ascending
        keys is where the linear scan stops; `idx` is left as it was. */
    method SeekToKey(k: Bytes)
      requires WellFormed(block)
      modifies this`key, this`valueRange, this`at
      ensures Valid() && at == SeekIndex(block, k)
    {
      ghost var cs := Outcomes(Keys(block), k);
      var low, high := 0, |block.offsets|;
      while low < high
        invariant 0 <= low <= high <= Count(block)
        invariant Search(cs, low, high) == Search(cs, 0, Count(block))
        decreases high - low
      {
        var mid := low + (high - low) / 2;
        var c := Probe(mid, k);
        if c == Less {
          low := mid + 1;
        } else if c == Greater {
          high := mid;
        } else {
          return;
        }
      }
      SeekTo(low);
    }

    static method CreateAndSeekToKey(block: Block, k: Bytes) returns (it: BlockIterator)
      requires WellFormed(block)
      ensures fresh(it) && it.block == block && it.Valid() && it.idx == 0
      ensures it.at == SeekIndex(block, k)
    {
      it := new BlockIterator(block);
      it.SeekToKey(k);
    }

    /** `key()`: only on a valid cursor. */
    method Key() returns (k: Bytes)
      requires Valid() && IsValid()
      ensures at < Count(block) && k == KeyAt(block, at) && k != []
    {
      k := key;
    }

    /** `value()`: the bytes of `valueRange`, only on a valid cursor. */
    method Value() returns (v: Bytes)
      requires Valid() && IsValid()
      ensures at < Count(block) && v == ValueAt(block, at)
    {
      v := block.data[valueRange.0 .. valueRange.1];
    }

    /** Advances `idx` and decodes that entry, whatever the seeks did. */
    method Next()
      requires idx + 1 < Count(block) ==> EntryAtFits(block, idx + 1)
      modifies this`key, this`valueRange, this`at, this`idx
      ensures Valid() && idx == old(idx) + 1
      ensures at == if idx < Count(block) then idx else Count(block)
    {
      idx := idx + 1;
      SeekTo(idx);
    }
  }

  /** A forward scan from the first entry, calling `Next` until the cursor is
      invalid, yields every key of a well-formed block in order. */
  method ScanKeys(block: Block) returns (keys: seq<Bytes>)
    requires WellFormed(block)
    ensures keys == Keys(block)
  {
    var it := BlockIterator.CreateAndSeekToFirst(block);
    keys := [];
    while it.IsValid()
      invariant it.Valid() && it.block == block
      invariant it.at == it.idx == |keys| <= Count(block)
      invariant forall i | 0 <= i < |keys| :: keys[i] == KeyAt(block, i)
      decreases Count(block) - it.idx
    {
      var k := it.Key();
      keys := keys + [k];
      it.Next();
    }
  }
}
