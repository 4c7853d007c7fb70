/** The merge iterator's heap order (src/iterator/merge_iterator.rs). A
    `HeapWrapper` pairs a source's index with that source's iterator; the
    heap only looks at the key the iterator stands on, so the model keeps the
    index and that key. Rust's `BinaryHeap` is a max-heap, and the order is
    reversed so that the greatest wrapper is the one with the smallest key,
    and among equal keys the one from the lowest-numbered source. */
module MergeOrder {
  import opened Bytes
  import opened Wrappers

  datatype HeapWrapper = HeapWrapper(idx: nat, key: Bytes)

  /** `usize::partial_cmp`, which never fails. */
  function CmpIdx(a: nat, b: nat): Ordering
  {
    if a < b then Less else if a > b then Greater else Equal
  }

  /** `partial_cmp`: keys first, indexes to break a tie, then reversed. The
      key comparison and the index comparison are both total, so the result
      is never `None`. */
  function PartialCmp(a: HeapWrapper, b: HeapWrapper): (r: Option<Ordering>)
    ensures r.Some?
  {
    var byKey: Option<Ordering> :=
      match Cmp(a.key, b.key)
      case Less => Some(Less)
      case Greater => Some(Greater)
      case Equal => Some(CmpIdx(a.idx, b.idx));
    match byKey
    case Some(o) => Some(o.Reverse())
    case None => None
  }

  /** `cmp`: `partial_cmp(..).unwrap()`, which cannot panic. */
  function HeapCmp(a: HeapWrapper, b: HeapWrapper): Ordering
  {
    PartialCmp(a, b).value
  }

  /** `eq`: `partial_cmp` says `Equal`. */
  predicate Eq(a: HeapWrapper, b: HeapWrapper)
  {
    PartialCmp(a, b).value == Equal
  }

  /** What the order means: `a` ranks above `b` exactly when its key is
      smaller, or the keys agree and its index is smaller; and the other way
      round for ranking below. */
  lemma HeapCmpMeaning(a: HeapWrapper, b: HeapWrapper)
    ensures HeapCmp(a, b) == Greater <==> Lt(a.key, b.key) || (a.key == b.key && a.idx < b.idx)
    ensures HeapCmp(a, b) == Less <==> Lt(b.key, a.key) || (a.key == b.key && a.idx > b.idx)
  {
    CmpEqualIff(a.key, b.key);
    CmpFlip(a.key, b.key);
  }

  /** `eq` holds exactly when both the key and the index agree. */
  lemma EqIff(a: HeapWrapper, b: HeapWrapper)
    ensures Eq(a, b) <==> a == b
  {
    CmpEqualIff(a.key, b.key);
  }

  /** Comparing the other way round gives the reversed answer. */
  lemma Antisymmetric(a: HeapWrapper, b: HeapWrapper)
    ensures HeapCmp(b, a) == HeapCmp(a, b).Reverse()
  {
    CmpFlip(a.key, b.key);
  }

  /** Ranking above is transitive, so the heap order is a total order. */
  lemma Transitive(a: HeapWrapper, b: HeapWrapper, c: HeapWrapper)
    requires HeapCmp(a, b) == Greater && HeapCmp(b, c) == Greater
    ensures HeapCmp(a, c) == Greater
  {
    HeapCmpMeaning(a, b);
    HeapCmpMeaning(b, c);
    HeapCmpMeaning(a, c);
    if Lt(a.key, b.key) && Lt(b.key, c.key) {
      LtTrans(a.key, b.key, c.key);
    }
  }

  /** What a max-heap pops first: a wrapper no other wrapper ranks above has
      the smallest key, and the lowest index among the wrappers with that
      key. */
  lemma HeapTopIsSmallest(ws: seq<HeapWrapper>, top: HeapWrapper)
    requires forall w | w in ws :: HeapCmp(top, w) != Less
    ensures forall w | w in ws :: Le(top.key, w.key)
    ensures forall w | w in ws && w.key == top.key :: top.idx <= w.idx
  {
    forall w | w in ws
      ensures Le(top.key, w.key) && (w.key == top.key ==> top.idx <= w.idx)
    {
      HeapCmpMeaning(top, w);
      NotLtIsLe(w.key, top.key);
    }
  }
}
