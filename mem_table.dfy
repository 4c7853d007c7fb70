/** The in-memory table (src/mem_table.rs): a sorted map from key to value
    (a skip map in the Rust code, a `map` here) and a running estimate of the
    bytes written to it. A tombstone is an entry whose value is empty. */
module MemTables {
  import opened Bytes
  import opened Wrappers

  class MemTable {
    var entries: map<Bytes, Bytes>
    const id: nat
    /** Sum of `|key| + |value|` over every `put`, overwritten keys included. */
    var approximateSize: nat

    /** `MemTable::create`: an empty table under the given id. */
    constructor Create(id: nat)
      ensures entries == map[] && approximateSize == 0 && this.id == id
    {
      entries := map[];
      this.id := id;
      approximateSize := 0;
    }

    /** `get`: the value stored under `key`, if any; a tombstone comes back
        as `Some([])`, not as absence. */
    function Get(key: Bytes): (r: Option<Bytes>)
      reads this
      ensures r.Some? <==> key in entries
      ensures r.Some? ==> r.value == entries[key]
    {
      if key in entries then Some(entries[key]) else None
    }

    /** `put`: stores `value` under `key`, replacing any earlier value, and
        adds `|key| + |value|` to the size estimate even when the key was
        already present. Afterwards `get(key)` is the new value, every other
        key reads as before, nothing was removed and the estimate did not
        shrink. */
    method Put(key: Bytes, value: Bytes)
      modifies this
      ensures entries == old(entries)[key := value]
      ensures approximateSize == old(approximateSize) + |key| + |value|
      ensures Get(key) == Some(value)
      ensures forall k | k != key :: Get(k) == old(Get(k))
      ensures old(entries).Keys <= entries.Keys && old(approximateSize) <= approximateSize
    {
      entries := entries[key := value];
      approximateSize := approximateSize + |key| + |value|;
    }

    /** `approximate_size`: the running total that `Put` raises. */
    function ApproximateSize(): (size: nat)
      reads this
      ensures size == approximateSize
    {
      approximateSize
    }
  }
}
