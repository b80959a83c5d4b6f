/**
 * The word store behind a bitset.  `BaseMapSource` is a Go map from word
 * index to word, so a store is a reference: two bitsets can share one, and
 * changes made through either are seen by both.  The store's contents are the
 * field `entries`; the interface methods `Get`, `Set`, `Delete`, `Len`, `New`,
 * `Clone` and `Iterate` are methods and functions over it.
 */
module Source {
  import opened Bits
  import opened Codec
  import opened Words

  class WordMap {
    /** The map's entries; an absent index is an absent word. */
    var entries: Store

    /** An empty map, as `map[int64]uint64{}` or `&BaseMapSource{}` makes one. */
    constructor ()
      ensures entries == map[]
    {
      entries := map[];
    }

    /** `Get`: the stored word and `true` when `key` is present, and `(0, false)` otherwise. */
    function Get(key: int64): (r: (bv64, bool))
      reads this
      ensures r.1 <==> key in entries
      ensures r.1 ==> r.0 == entries[key]
      ensures !r.1 ==> r.0 == 0
      ensures r.0 == Words.Get(entries, key)
    {
      if key in entries then (entries[key], true) else (0, false)
    }

    /** `Set`: inserts or overwrites the entry at `key` and touches no other. */
    method Set(key: int64, val: bv64)
      modifies this
      ensures entries == old(entries)[key := val]
    {
      entries := entries[key := val];
    }

    /** `Delete`: removes the entry at `key`; nothing happens when it is absent. */
    method Delete(key: int64)
      modifies this
      ensures entries == old(entries) - {key}
    {
      entries := entries - {key};
    }

    /** `Len`: the number of entries. */
    function Len(): (n: nat)
      reads this
      ensures n == |entries.Keys|
    {
      |entries|
    }

    /** `New`: a fresh, empty store of the same kind. */
    method New() returns (r: WordMap)
      ensures fresh(r) && r.entries == map[]
    {
      r := new WordMap();
    }

    /** `Clone`: a fresh store filled with every entry of this one by a `range` loop. */
    method Clone() returns (r: WordMap)
      ensures fresh(r) && r.entries == entries
    {
      r := New();
      var remaining := entries.Keys;
      while remaining != {}
        invariant remaining <= entries.Keys
        invariant fresh(r)
        invariant r.entries == Restrict(entries, entries.Keys - remaining)
        decreases remaining
      {
        var k :| k in remaining;
        r.Set(k, entries[k]);
        remaining := remaining - {k};
      }
      RestrictAll(entries, entries.Keys);
    }

    /**
     * `Iterate`: offers the entries to `fn` one at a time, in an order the
     * model leaves open, and stops right after the first `false`.  The result
     * lists the indices offered, in order.
     */
    method Iterate(fn: (int64, bv64) -> bool) returns (visited: seq<int64>)
      ensures forall i, j :: 0 <= i < j < |visited| ==> visited[i] != visited[j]
      ensures forall i :: 0 <= i < |visited| ==> visited[i] in entries
      ensures forall i :: 0 <= i < |visited| - 1 ==> fn(visited[i], entries[visited[i]])
      ensures |visited| == |entries| || (|visited| > 0 && !fn(visited[|visited| - 1], entries[visited[|visited| - 1]]))
      ensures (forall k :: k in entries ==> fn(k, entries[k])) ==> forall k :: k in entries <==> k in visited
    {
      visited := [];
      var remaining := entries.Keys;
      while remaining != {}
        invariant remaining <= entries.Keys
        invariant forall i, j :: 0 <= i < j < |visited| ==> visited[i] != visited[j]
        invariant forall k :: k in entries <==> k in visited || k in remaining
        invariant forall k :: k in visited ==> k !in remaining
        invariant |visited| + |remaining| == |entries|
        invariant forall i :: 0 <= i < |visited| ==> fn(visited[i], entries[visited[i]])
        decreases remaining
      {
        var k :| k in remaining;
        visited := visited + [k];
        if !fn(k, entries[k]) {
          return;
        }
        remaining := remaining - {k};
      }
    }

    /** The second loop of the in-place set operations: delete every listed index. */
    method DeleteAll(keys: seq<int64>)
      modifies this
      ensures entries == map k | k in old(entries) && k !in keys :: old(entries)[k]
    {
      var i := 0;
      while i < |keys|
        invariant 0 <= i <= |keys|
        invariant entries == map k | k in old(entries) && k !in keys[..i] :: old(entries)[k]
      {
        Delete(keys[i]);
        assert keys[..i + 1] == keys[..i] + [keys[i]];
        i := i + 1;
      }
      assert keys[..i] == keys;
    }
  }
}
