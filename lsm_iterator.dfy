/** The user-facing iterators (src/lsm_iterator.rs). `LsmIterator` hides
    deleted entries (an empty value is a tombstone) of the merged iterator it
    wraps; `FusedIterator` refuses to move once an inner `next` has failed.
    The merged iterator is not part of this model: it stands here as a stream
    of entries in merge order whose `next` fails at one chosen position. */
module LsmIter {
  import opened Bytes
  import opened Wrappers

  datatype Entry = Entry(key: Bytes, value: Bytes)

  /** Where the inner `next` fails, and with which error. */
  datatype Fault = Fault(at: nat, error: Error)

  predicate FailsAt(failAt: Option<Fault>, pos: nat)
  {
    failAt.Some? && failAt.value.at == pos
  }

  /** The inner iterator: `entries` in order and a cursor `pos`; `next`
      fails with the fault's error, without moving, while the cursor is at
      the fault's position. */
  class EntryStream {
    const entries: seq<Entry>
    const failAt: Option<Fault>
    var pos: nat

    predicate Valid()
      reads this
    {
      pos <= |entries|
    }

    constructor (entries: seq<Entry>, failAt: Option<Fault>)
      ensures Valid() && pos == 0
      ensures this.entries == entries && this.failAt == failAt
    {
      this.entries := entries;
      this.failAt := failAt;
      pos := 0;
    }

    predicate IsValid()
      reads this
    {
      pos < |entries|
    }

    function Key(): Bytes
      reads this
      requires IsValid()
    {
      entries[pos].key
    }

    function Value(): Bytes
      reads this
      requires IsValid()
    {
      entries[pos].value
    }

    method Next() returns (o: Outcome)
      requires Valid()
      modifies this
      ensures Valid()
      ensures (o, pos) == Advance(entries, failAt, old(pos))
    {
      if FailsAt(failAt, pos) {
        return Fail(failAt.value.error);
      }
      if pos < |entries| {
        pos := pos + 1;
      }
      o := Pass;
    }
  }

  /** One inner `next` from `pos`: an error where it fails, else one step
      forward (none past the end). */
  function Advance(s: seq<Entry>, failAt: Option<Fault>, pos: nat): (Outcome, nat)
  {
    if FailsAt(failAt, pos) then (Fail(failAt.value.error), pos)
    else if pos < |s| then (Pass, pos + 1)
    else (Pass, pos)
  }

  /** `move_to_non_delete` from `pos`: the first position at or after `pos`
      that holds a live entry or is the end, unless an inner `next` fails on
      a tombstone before it, in which case the error and where it struck. */
  function Skip(s: seq<Entry>, failAt: Option<Fault>, pos: nat): (r: (Outcome, nat))
    requires pos <= |s|
    ensures pos <= r.1 <= |s|
    ensures r.0.Pass? ==> r.1 == |s| || s[r.1].value != []
    ensures r.0.Fail? ==> FailsAt(failAt, r.1) && r.0 == Fail(failAt.value.error) && r.1 < |s| && s[r.1].value == []
    ensures forall i | pos <= i < r.1 :: s[i].value == [] && !FailsAt(failAt, i)
    decreases |s| - pos
  {
    if pos == |s| || s[pos].value != [] then (Pass, pos)
    else if FailsAt(failAt, pos) then (Fail(failAt.value.error), pos)
    else Skip(s, failAt, pos + 1)
  }

  /** `next` of the tombstone filter: one inner step, then skip tombstones. */
  function StepLive(s: seq<Entry>, failAt: Option<Fault>, pos: nat): (r: (Outcome, nat))
    requires pos <= |s|
    ensures r.1 <= |s|
    ensures r.0.Pass? ==> r.1 == |s| || s[r.1].value != []
    ensures r.0.Fail? ==> failAt.Some? && r.0 == Fail(failAt.value.error)
  {
    var (o, p) := Advance(s, failAt, pos);
    if o.Fail? then (o, p) else Skip(s, failAt, p)
  }

  /** The live entries of `s`, in order: tombstones removed. */
  function Live(s: seq<Entry>): seq<Entry>
  {
    if s == [] then []
    else if s[0].value == [] then Live(s[1..])
    else [s[0]] + Live(s[1..])
  }

  /** `Live` keeps exactly the entries with a non-empty value. */
  lemma {:induction false} LiveIsFilter(s: seq<Entry>)
    ensures forall e | e in Live(s) :: e in s && e.value != []
    ensures forall e | e in s && e.value != [] :: e in Live(s)
  {
    if s != [] {
      LiveIsFilter(s[1..]);
      assert s == [s[0]] + s[1..];
    }
  }

  /** One step of `Live` on a suffix. */
  lemma LiveStep(s: seq<Entry>, i: nat)
    requires i < |s|
    ensures Live(s[i..]) == (if s[i].value == [] then [] else [s[i]]) + Live(s[i + 1..])
  {
    assert s[i..][1..] == s[i + 1..];
  }

  /** A successful skip passes only tombstones, so nothing live is lost. */
  lemma {:induction false} SkipKeepsLive(s: seq<Entry>, failAt: Option<Fault>, pos: nat)
    requires pos <= |s| && Skip(s, failAt, pos).0.Pass?
    ensures Live(s[pos..]) == Live(s[Skip(s, failAt, pos).1..])
    decreases |s| - pos
  {
    if pos < |s| && s[pos].value == [] {
      assert Skip(s, failAt, pos) == Skip(s, failAt, pos + 1);
      LiveStep(s, pos);
      assert Live(s[pos..]) == Live(s[pos + 1..]);
      SkipKeepsLive(s, failAt, pos + 1);
    }
  }

  class LsmIterator {
    const inner: EntryStream

    constructor (inner: EntryStream)
      ensures this.inner == inner
    {
      this.inner := inner;
    }

    /** `is_valid`: the merged iterator still stands on an entry. */
    predicate IsValid(): (v: bool)
      reads inner
      ensures v <==> inner.pos < |inner.entries|
    {
      inner.IsValid()
    }

    /** `key`: the key of the merged iterator's current entry. */
    function Key(): (k: Bytes)
      reads inner
      requires IsValid()
      ensures k == inner.entries[inner.pos].key
    {
      inner.Key()
    }

    /** `value`: the value of the merged iterator's current entry. */
    function Value(): (v: Bytes)
      reads inner
      requires IsValid()
      ensures v == inner.entries[inner.pos].value
    {
      inner.Value()
    }

    /** What is still to be seen: the live entries from the cursor on. */
    function Remaining(): seq<Entry>
      reads inner
      requires inner.Valid()
    {
      Live(inner.entries[inner.pos..])
    }

    /** Advances the inner iterator past tombstones; an inner error is
        passed on unchanged. */
    method MoveToNonDelete() returns (o: Outcome)
      requires inner.Valid()
      modifies inner
      ensures inner.Valid()
      ensures (o, inner.pos) == Skip(inner.entries, inner.failAt, old(inner.pos))
    {
      o := Pass;
      while inner.IsValid() && inner.Value() == []
        invariant inner.Valid() && o == Pass
        invariant Skip(inner.entries, inner.failAt, inner.pos) == Skip(inner.entries, inner.failAt, old(inner.pos))
        decreases |inner.entries| - inner.pos
      {
        o := inner.Next();
        if o.Fail? {
          return;
        }
      }
    }

    /** `LsmIterator::new`: wraps the merged iterator and skips the
        tombstones at its head. On success the iterator stands on a live
        entry or is exhausted, and what remains is every live entry from
        where the inner iterator stood. */
    static method New(iter: EntryStream) returns (r: Result<LsmIterator>)
      requires iter.Valid()
      modifies iter
      ensures iter.Valid()
      ensures var (o, p) := Skip(iter.entries, iter.failAt, old(iter.pos));
              && iter.pos == p
              && (o.Fail? <==> r.Err?)
              && (r.Err? ==> r.error == o.error)
      ensures r.Ok? ==> && fresh(r.value) && r.value.inner == iter
                        && (!r.value.IsValid() || r.value.Value() != [])
                        && r.value.Remaining() == Live(iter.entries[old(iter.pos)..])
    {
      var it := new LsmIterator(iter);
      var o := it.MoveToNonDelete();
      if o.Fail? {
        return Err(o.error);
      }
      SkipKeepsLive(iter.entries, iter.failAt, old(iter.pos));
      r := Ok(it);
    }

    /** `next`: one inner step, then skip tombstones. On success the
        iterator stands on a live entry or is exhausted, and when it stood on
        a live entry before, that entry has been consumed from what remains:
        step by step the iterator yields exactly the live entries. */
    method Next() returns (o: Outcome)
      requires inner.Valid()
      modifies inner
      ensures inner.Valid()
      ensures (o, inner.pos) == StepLive(inner.entries, inner.failAt, old(inner.pos))
      ensures o.Pass? ==> !IsValid() || Value() != []
      ensures o.Pass? && old(IsValid()) && old(Value()) != [] ==>
                old(Remaining()) == [old(inner.entries[inner.pos])] + Remaining()
    {
      ghost var start := inner.pos;
      o := inner.Next();
      if o.Fail? {
        return;
      }
      ghost var stepped := inner.pos;
      o := MoveToNonDelete();
      if o.Pass? && start < |inner.entries| && inner.entries[start].value != [] {
        LiveStep(inner.entries, start);
        SkipKeepsLive(inner.entries, inner.failAt, stepped);
      }
    }
  }

  /** Guards an iterator that has failed once: every later `next` errors
      and it no longer reports a current entry. */
  class FusedIterator {
    const iter: LsmIterator
    var hasErrored: bool

    constructor (iter: LsmIterator)
      ensures this.iter == iter && !hasErrored
    {
      this.iter := iter;
      hasErrored := false;
    }

    /** `is_valid`: not tainted, and the wrapped iterator stands on an
        entry. */
    predicate IsValid(): (v: bool)
      reads this, iter.inner
      ensures v <==> !hasErrored && iter.inner.pos < |iter.inner.entries|
    {
      !hasErrored && iter.IsValid()
    }

    /** `key`, which panics unless the iterator is valid: the wrapped
        iterator's current key. */
    function Key(): (k: Bytes)
      reads this, iter.inner
      requires IsValid()
      ensures k == iter.inner.entries[iter.inner.pos].key
    {
      iter.Key()
    }

    /** `value`, which panics unless the iterator is valid: the wrapped
        iterator's current value. */
    function Value(): (v: Bytes)
      reads this, iter.inner
      requires IsValid()
      ensures v == iter.inner.entries[iter.inner.pos].value
    {
      iter.Value()
    }

    /** `next`: refuses once tainted, moves only a valid iterator, and taints
        itself when the inner `next` fails, passing that error on. */
    method Next() returns (o: Outcome)
      requires iter.inner.Valid()
      modifies this, iter.inner
      ensures iter.inner.Valid()
      ensures old(hasErrored) ==> o == Fail(Tainted) && hasErrored && unchanged(iter.inner)
      ensures !old(hasErrored) && !old(iter.IsValid()) ==>
                o == Pass && !hasErrored && unchanged(iter.inner)
      ensures !old(hasErrored) && old(iter.IsValid()) ==>
                && (o, iter.inner.pos) == StepLive(iter.inner.entries, iter.inner.failAt, old(iter.inner.pos))
                && hasErrored == o.Fail?
      ensures o.Fail? ==> hasErrored && !IsValid()
    {
      if hasErrored {
        return Fail(Tainted);
      }
      if iter.IsValid() {
        o := iter.Next();
        if o.Fail? {
          hasErrored := true;
          return;
        }
      }
      o := Pass;
    }
  }
}
