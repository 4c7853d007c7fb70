/** The storage engine's state and its write and read paths
    (src/lsm_storage.rs), taken sequentially: the locks, the shared pointers
    and the atomic counters become one object whose `state` is replaced
    whole, as the Rust code swaps in a new snapshot. Reads only consult the
    memtables, newest first; an empty value is a tombstone. */
module LsmStorage {
  import opened Bytes
  import opened Wrappers
  import opened Table
  import opened MemTables

  /** `LsmStorageState`: the active memtable, the frozen ones newest first,
      and the ids of the sorted tables per level. */
  datatype LsmStorageState = LsmStorageState(
    memtable: MemTable,
    immutMemtables: seq<MemTable>,
    l0Sstables: seq<nat>,
    levels: seq<(nat, seq<nat>)>,
    sstables: map<nat, SsTable>)

  /** The maps of the given memtables, in the same order. */
  function MapsOf(ts: seq<MemTable>): (ms: seq<map<Bytes, Bytes>>)
    reads ts
    ensures |ms| == |ts| && forall i | 0 <= i < |ts| :: ms[i] == ts[i].entries
  {
    if ts == [] then [] else [ts[0].entries] + MapsOf(ts[1..])
  }

  /** Index of the first map holding `key`, or `|maps|` when none does. */
  function FirstHolder(maps: seq<map<Bytes, Bytes>>, key: Bytes): (i: nat)
    ensures i <= |maps|
    ensures i < |maps| ==> key in maps[i]
    ensures forall j | 0 <= j < i :: key !in maps[j]
  {
    if maps == [] then 0
    else if key in maps[0] then 0
    else 1 + FirstHolder(maps[1..], key)
  }

  /** What `get` answers over the memtables' maps, newest first: the value
      in the first map that holds the key, `None` when that value is a
      tombstone or no map holds the key. */
  function Lookup(maps: seq<map<Bytes, Bytes>>, key: Bytes): Option<Bytes>
  {
    var i := FirstHolder(maps, key);
    if i == |maps| || maps[i][key] == [] then None else Some(maps[i][key])
  }

  /** The search order: the newest map decides when it holds the key, and
      otherwise the rest are searched in order. */
  lemma LookupNewestFirst(maps: seq<map<Bytes, Bytes>>, key: Bytes)
    ensures maps == [] ==> Lookup(maps, key) == None
    ensures maps != [] && key in maps[0] ==>
              Lookup(maps, key) == if maps[0][key] == [] then None else Some(maps[0][key])
    ensures maps != [] && key !in maps[0] ==> Lookup(maps, key) == Lookup(maps[1..], key)
  {
    if maps != [] && key !in maps[0] {
      var i := FirstHolder(maps[1..], key);
      assert FirstHolder(maps, key) == i + 1;
    }
  }

  /** The first holder is the index before which no map holds the key and
      at which one does (or the end). */
  lemma FirstHolderIs(maps: seq<map<Bytes, Bytes>>, key: Bytes, h: nat)
    requires h <= |maps| && (h < |maps| ==> key in maps[h])
    requires forall j | 0 <= j < h :: key !in maps[j]
    ensures FirstHolder(maps, key) == h
  {
  }

  /** Writing into the newest map: the key now reads as the written value
      (nothing, for a tombstone) and every other key reads as before. */
  lemma LookupAfterWrite(maps: seq<map<Bytes, Bytes>>, key: Bytes, value: Bytes)
    requires maps != []
    ensures Lookup([maps[0][key := value]] + maps[1..], key) == if value == [] then None else Some(value)
    ensures forall k | k != key :: Lookup([maps[0][key := value]] + maps[1..], k) == Lookup(maps, k)
  {
    var written := [maps[0][key := value]] + maps[1..];
    assert written[1..] == maps[1..];
    LookupNewestFirst(written, key);
    forall k | k != key
      ensures Lookup(written, k) == Lookup(maps, k)
    {
      LookupNewestFirst(written, k);
      LookupNewestFirst(maps, k);
    }
  }

  /** Putting an empty map in front changes no answer. */
  lemma LookupBehindEmpty(maps: seq<map<Bytes, Bytes>>)
    ensures forall key :: Lookup([map[]] + maps, key) == Lookup(maps, key)
  {
    assert ([map[]] + maps)[1..] == maps;
    forall key ensures Lookup([map[]] + maps, key) == Lookup(maps, key) {
      LookupNewestFirst([map[]] + maps, key);
    }
  }

  lemma MapsOfCons(t: MemTable, ts: seq<MemTable>)
    ensures MapsOf([t] + ts) == [t.entries] + MapsOf(ts)
  {
    assert ([t] + ts)[1..] == ts;
  }

  /** The reader-writer lock on `state`: how many read guards are alive,
      and whether the write guard is. */
  datatype LockState = LockState(readers: nat, writing: bool)

  const Unlocked := LockState(0, false)

  /** `state.read()`: granted unless the write guard is alive; `None` means
      the caller waits. */
  function AcquireRead(l: LockState): (r: Option<LockState>)
    ensures r.Some? <==> !l.writing
    ensures r.Some? ==> r.value.readers == l.readers + 1 && !r.value.writing
  {
    if l.writing then None else Some(l.(readers := l.readers + 1))
  }

  function ReleaseRead(l: LockState): (r: LockState)
    requires l.readers > 0
    ensures r.readers == l.readers - 1 && r.writing == l.writing
  {
    l.(readers := l.readers - 1)
  }

  /** `state.write()`: granted only while no guard of either kind is alive;
      `None` means the caller waits. */
  function AcquireWrite(l: LockState): (r: Option<LockState>)
    ensures r.Some? <==> l == Unlocked
    ensures r.Some? ==> r.value == LockState(0, true)
  {
    if l.readers == 0 && !l.writing then Some(l.(writing := true)) else None
  }

  /** The lock traffic of `freeze_memtable`: the write guard taken at line
      127 and dropped at the end of its block. */
  function FreezeLocks(l: LockState): (r: Option<LockState>)
    ensures r.Some? <==> l == Unlocked
    ensures r.Some? ==> r.value == l
  {
    match AcquireWrite(l)
    case None => None
    case Some(w) => Some(w.(writing := false))
  }

  /** The lock traffic of `try_freeze_memtable`: when it freezes, a read
      guard to re-read the size, dropped before `freeze_memtable` runs. */
  function TryFreezeLocks(l: LockState, freezes: bool): (r: Option<LockState>)
    ensures r.Some? ==> r.value == l
  {
    if !freezes then Some(l)
    else
      match AcquireRead(l)
      case None => None
      case Some(g) => FreezeLocks(ReleaseRead(g))
  }

  /** `put` as written: the read guard taken to write the memtable lives
      until `put` returns, so `try_freeze_memtable` runs while it is alive.
      `None`: the thread waits for a guard only it could drop. */
  function PutLocksAsWritten(l: LockState, freezes: bool): Option<LockState>
  {
    match AcquireRead(l)
    case None => None
    case Some(g) =>
      match TryFreezeLocks(g, freezes)
      case None => None
      case Some(after) => Some(ReleaseRead(after))
  }

  /** `delete`, and `put` with its guard scoped the same way: the guard is
      dropped before `try_freeze_memtable`. */
  function PutLocksScoped(l: LockState, freezes: bool): Option<LockState>
  {
    match AcquireRead(l)
    case None => None
    case Some(g) => TryFreezeLocks(ReleaseRead(g), freezes)
  }

  /** On a lock nobody else holds, `put` as written never returns exactly
      when it freezes the memtable: the write lock waits on `put`'s own read
      guard. */
  lemma PutAsWrittenHangsOnFreeze(freezes: bool)
    ensures PutLocksAsWritten(Unlocked, freezes).None? <==> freezes
    ensures !freezes ==> PutLocksAsWritten(Unlocked, freezes) == Some(Unlocked)
  {
    var g := AcquireRead(Unlocked).value;
    assert g == LockState(1, false);
    if freezes {
      assert AcquireRead(g).value == LockState(2, false);
      assert FreezeLocks(LockState(1, false)).None?;
    }
  }

  /** With the guard scoped, `put` returns whether or not it freezes, and
      leaves the lock free. */
  lemma PutScopedReturns(freezes: bool)
    ensures PutLocksScoped(Unlocked, freezes) == Some(Unlocked)
  {
    var g := AcquireRead(Unlocked).value;
    assert ReleaseRead(g) == Unlocked;
    if freezes {
      assert ReleaseRead(AcquireRead(Unlocked).value) == Unlocked;
    }
  }

  class LsmStorageInner {
    var state: LsmStorageState
    /** The next id to hand out. */
    var nextSstableId: nat
    /** `config.target_sst_size`: the memtable size that triggers a freeze. */
    const targetSstSize: nat
    /** The guards alive on the lock around `state`. */
    ghost var lock: LockState

    /** Between calls no guard is alive, so a freeze can take the write lock;
        the active memtable is never also one of the frozen ones, so writing
        to it leaves them alone. */
    ghost predicate Valid()
      reads this
    {
      lock == Unlocked && state.memtable !in state.immutMemtables
    }

    /** An engine over a given state (opening one from disk is not part of
        this model). */
    constructor (state: LsmStorageState, nextSstableId: nat, targetSstSize: nat)
      requires state.memtable !in state.immutMemtables
      ensures Valid()
      ensures this.state == state && this.nextSstableId == nextSstableId
      ensures this.targetSstSize == targetSstSize
    {
      this.state := state;
      this.nextSstableId := nextSstableId;
      this.targetSstSize := targetSstSize;
      lock := Unlocked;
    }

    /** The maps `get` consults, newest first. */
    function Maps(): (ms: seq<map<Bytes, Bytes>>)
      reads this, state.memtable, state.immutMemtables
      ensures |ms| == 1 + |state.immutMemtables|
    {
      [state.memtable.entries] + MapsOf(state.immutMemtables)
    }

    /** `get`: the active memtable first, then the frozen ones in order; a
        tombstone reads as absent. */
    method Get(key: Bytes) returns (r: Option<Bytes>)
      ensures r == Lookup(Maps(), key)
    {
      var snapshot := state;
      ghost var maps := Maps();
      var v := snapshot.memtable.Get(key);
      if v.Some? {
        FirstHolderIs(maps, key, 0);
        return if v.value == [] then None else Some(v.value);
      }
      var i := 0;
      while i < |snapshot.immutMemtables|
        invariant i <= |snapshot.immutMemtables| && Maps() == maps
        invariant forall j | 0 <= j <= i :: key !in maps[j]
      {
        var w := snapshot.immutMemtables[i].Get(key);
        if w.Some? {
          FirstHolderIs(maps, key, i + 1);
          return if w.value == [] then None else Some(w.value);
        }
        i := i + 1;
      }
      FirstHolderIs(maps, key, |maps|);
      r := None;
    }

    /** `next_sst_id`: hands out the counter's value and bumps it, so ids
        handed out one after another strictly increase. */
    method NextSstId() returns (id: nat)
      modifies this
      ensures id == old(nextSstableId) && nextSstableId == id + 1
      ensures state == old(state) && lock == old(lock)
    {
      id := nextSstableId;
      nextSstableId := nextSstableId + 1;
    }

    /** `freeze_memtable`: a fresh empty memtable, under a new id, becomes
        the active one and the old active one goes in front of the frozen
        ones; the sorted tables are untouched, and no read changes. */
    method FreezeMemtable()
      requires Valid()
      modifies this
      ensures Valid()
      ensures fresh(state.memtable) && state.memtable.entries == map[]
      ensures state.memtable.approximateSize == 0 && state.memtable.id == old(nextSstableId)
      ensures state == old(state).(memtable := state.memtable,
                                   immutMemtables := [old(state.memtable)] + old(state.immutMemtables))
      ensures nextSstableId == old(nextSstableId) + 1
      ensures Maps() == [map[]] + old(Maps())
      ensures forall k :: Lookup(Maps(), k) == old(Lookup(Maps(), k))
    {
      var newId := NextSstId();
      var newMemtable := new MemTable.Create(newId);
      lock := AcquireWrite(lock).value;
      var snapshot := state;
      var oldMemtable := snapshot.memtable;
      snapshot := snapshot.(memtable := newMemtable,
                            immutMemtables := [oldMemtable] + snapshot.immutMemtables);
      state := snapshot;
      lock := lock.(writing := false);
      assert MapsOf(old(state.immutMemtables)) == old(MapsOf(state.immutMemtables));
      MapsOfCons(oldMemtable, old(state.immutMemtables));
      LookupBehindEmpty(old(Maps()));
    }

    /** `try_freeze_memtable`: freezes only when the size the caller saw and
        the active memtable's size, read again under a read guard that is
        dropped before freezing, both exceed the target; otherwise nothing
        changes. */
    method TryFreezeMemtable(size: nat)
      requires Valid()
      modifies this
      ensures Valid()
      ensures var frozen := size > targetSstSize && old(state.memtable.approximateSize) > targetSstSize;
              && (frozen ==> && fresh(state.memtable) && state.memtable.entries == map[]
                             && state.memtable.approximateSize == 0
                             && state.memtable.id == old(nextSstableId)
                             && state == old(state).(memtable := state.memtable,
                                                     immutMemtables := [old(state.memtable)] + old(state.immutMemtables))
                             && nextSstableId == old(nextSstableId) + 1)
              && (!frozen ==> state == old(state) && nextSstableId == old(nextSstableId))
      ensures forall k :: Lookup(Maps(), k) == old(Lookup(Maps(), k))
    {
      if size > targetSstSize {
        lock := AcquireRead(lock).value;
        var activeSize := state.memtable.ApproximateSize();
        lock := ReleaseRead(lock);
        if activeSize > targetSstSize {
          FreezeMemtable();
        }
      }
    }

    /** `put`, which panics on an empty key or value: afterwards `get(key)`
        is `value` and every other key reads as before. The read guard is
        dropped before `try_freeze_memtable`, as `delete` does; the Rust
        `put` keeps it alive there and so never returns from a freeze (see
        `PutAsWrittenHangsOnFreeze`). */
    method Put(key: Bytes, value: Bytes)
      requires Valid() && key != [] && value != []
      modifies this, state.memtable
      ensures Valid()
      ensures Lookup(Maps(), key) == Some(value)
      ensures old(state).memtable.entries == old(state.memtable.entries)[key := value]
      ensures old(state).memtable.approximateSize == old(state.memtable.approximateSize) + |key| + |value|
      ensures var frozen := old(state.memtable.approximateSize) + |key| + |value| > targetSstSize;
              && (frozen ==> && fresh(state.memtable) && state.memtable.entries == map[]
                             && state.memtable.approximateSize == 0
                             && state.memtable.id == old(nextSstableId)
                             && state == old(state).(memtable := state.memtable,
                                                     immutMemtables := [old(state.memtable)] + old(state.immutMemtables))
                             && nextSstableId == old(nextSstableId) + 1)
              && (!frozen ==> state == old(state) && nextSstableId == old(nextSstableId))
      ensures forall k | k != key :: Lookup(Maps(), k) == old(Lookup(Maps(), k))
    {
      Write(key, value);
    }

    /** `delete`, which panics on an empty key: writes a tombstone, so
        afterwards `get(key)` is `None` and every other key reads as before. */
    method Delete(key: Bytes)
      requires Valid() && key != []
      modifies this, state.memtable
      ensures Valid()
      ensures Lookup(Maps(), key) == None
      ensures old(state).memtable.entries == old(state.memtable.entries)[key := []]
      ensures old(state).memtable.approximateSize == old(state.memtable.approximateSize) + |key|
      ensures var frozen := old(state.memtable.approximateSize) + |key| > targetSstSize;
              && (frozen ==> && fresh(state.memtable) && state.memtable.entries == map[]
                             && state.memtable.approximateSize == 0
                             && state.memtable.id == old(nextSstableId)
                             && state == old(state).(memtable := state.memtable,
                                                     immutMemtables := [old(state.memtable)] + old(state.immutMemtables))
                             && nextSstableId == old(nextSstableId) + 1)
              && (!frozen ==> state == old(state) && nextSstableId == old(nextSstableId))
      ensures forall k | k != key :: Lookup(Maps(), k) == old(Lookup(Maps(), k))
    {
      Write(key, []);
    }

    /** The path `put` and `delete` share: under a read guard, write into
        the active memtable and read its size; drop the guard; then freeze if
        that size is over the target. */
    method Write(key: Bytes, value: Bytes)
      requires Valid()
      modifies this, state.memtable
      ensures Valid()
      ensures Lookup(Maps(), key) == if value == [] then None else Some(value)
      ensures old(state).memtable.entries == old(state.memtable.entries)[key := value]
      ensures old(state).memtable.approximateSize == old(state.memtable.approximateSize) + |key| + |value|
      ensures var frozen := old(state.memtable.approximateSize) + |key| + |value| > targetSstSize;
              && (frozen ==> && fresh(state.memtable) && state.memtable.entries == map[]
                             && state.memtable.approximateSize == 0
                             && state.memtable.id == old(nextSstableId)
                             && state == old(state).(memtable := state.memtable,
                                                     immutMemtables := [old(state.memtable)] + old(state.immutMemtables))
                             && nextSstableId == old(nextSstableId) + 1)
              && (!frozen ==> state == old(state) && nextSstableId == old(nextSstableId))
      ensures forall k | k != key :: Lookup(Maps(), k) == old(Lookup(Maps(), k))
    {
      ghost var before := Maps();
      lock := AcquireRead(lock).value;
      state.memtable.Put(key, value);
      var size := state.memtable.ApproximateSize();
      lock := ReleaseRead(lock);
      assert MapsOf(state.immutMemtables) == old(MapsOf(state.immutMemtables));
      assert Maps() == [before[0][key := value]] + before[1..];
      LookupAfterWrite(before, key, value);
      TryFreezeMemtable(size);
    }
  }
}
