/**
 * The `BitSet` of bitset.go, written directly over a Go `map[int64]uint64`.
 * A Go map is a reference, so the map is a `Source.WordMap` object whose
 * `entries` the methods read and assign in place of Go's built-in indexing,
 * assignment and `delete`; a bitset built over a caller's map shares it with
 * the caller.  The operations and their results are those of the interface
 * version, and they are proved against the same functions of `Words`.
 */
module MapBitSet {
  import opened Bits
  import opened Codec
  import opened Words
  import opened Source
  import opened Iteration

  class BitSet {
    /** The field `set`: the map itself, held by reference. */
    var store: WordMap

    /** The composite literal `&BitSet{set: content}`. */
    constructor (content: WordMap)
      ensures store == content
    {
      store := content;
    }

    /** `From`: makes `context` the map, by reference. */
    method From(context: WordMap)
      modifies this
      ensures store == context
    {
      store := context;
    }

    /** `Clone`: a new bitset over a new map filled with every entry by a `range` loop. */
    method Clone() returns (r: BitSet)
      ensures fresh(r) && fresh(r.store)
      ensures r.store.entries == store.entries
    {
      var m := store.entries;
      var newSet := new WordMap();
      var remaining := m.Keys;
      while remaining != {}
        invariant remaining <= m.Keys
        invariant fresh(newSet)
        invariant newSet.entries == Restrict(m, m.Keys - remaining)
        decreases remaining
      {
        var k :| k in remaining;
        newSet.entries := newSet.entries[k := m[k]];
        remaining := remaining - {k};
      }
      RestrictAll(m, m.Keys);
      r := NewBitSet(newSet);
    }

    /** `Storage`: the map itself, not a copy. */
    function Storage(): (s: WordMap)
      reads this
      ensures s == store
    {
      store
    }

    /** `Test`: whether `key` is a member, a zero or absent word holding none. */
    function Test(key: int64): (r: bool)
      reads this, store
      ensures r <==> Has(store.entries, key)
    {
      var i := Key2Idx(key);
      var val := Words.Get(store.entries, i.outer);
      if val == 0 then false else HasBit(val, i.inner)
    }

    /**
     * `Set`: ORs the key's bit into its word and stores the word, even when
     * the bit was already set.  Returns the word index and the stored word.
     */
    method Set(key: int64) returns (outIdx: int64, val: bv64)
      modifies store
      ensures store.entries == SetKey(old(store.entries), key)
      ensures outIdx == Key2Idx(key).outer && store.entries == old(store.entries)[outIdx := val]
      ensures val != 0 && Has(store.entries, key)
    {
      var i := Key2Idx(key);
      outIdx := i.outer;
      SetKeyWord(store.entries, key, Words.Get(store.entries, outIdx));
      val := Words.Get(store.entries, outIdx);
      val := val | Bit(i.inner);
      store.entries := store.entries[outIdx := val];
    }

    /**
     * `Clear`: a zero word is left as it is; otherwise the bit is cleared and
     * the word deleted if nothing is left of it.  Returns the word index and
     * the word as it now reads.
     */
    method Clear(key: int64) returns (outIdx: int64, val: bv64)
      modifies store
      ensures store.entries == ClearKey(old(store.entries), key)
      ensures outIdx == Key2Idx(key).outer && val == Get(store.entries, outIdx)
      ensures Get(old(store.entries), outIdx) == 0 ==> store.entries == old(store.entries)
      ensures !Has(store.entries, key)
    {
      var i := Key2Idx(key);
      outIdx := i.outer;
      ClearKeyMembers(store.entries, key, key);
      val := Words.Get(store.entries, outIdx);
      if val == 0 {
        return;
      }
      val := Unset(val, i.inner);
      if val == 0 {
        store.entries := store.entries - {outIdx};
      } else {
        store.entries := store.entries[outIdx := val];
      }
    }

    /**
     * `Flip`: toggles the key's bit and writes the word back, deleting it if
     * it became zero.  Returns the word index and the word as it now reads.
     */
    method Flip(key: int64) returns (outIdx: int64, val: bv64)
      modifies store
      ensures store.entries == FlipKey(old(store.entries), key)
      ensures outIdx == Key2Idx(key).outer && val == Get(store.entries, outIdx)
      ensures Has(store.entries, key) <==> !Has(old(store.entries), key)
    {
      var i := Key2Idx(key);
      outIdx := i.outer;
      FlipKeyMembers(store.entries, key, key);
      val := Words.Get(store.entries, outIdx);
      val := Toggle(val, i.inner);
      if val == 0 {
        store.entries := store.entries - {outIdx};
      } else {
        store.entries := store.entries[outIdx := val];
      }
    }

    /** `Count`: the popcounts of all stored words, summed over one pass of the store. */
    method Count() returns (count: nat)
      ensures count == SumPop(store.entries)
    {
      var m := store.entries;
      count := 0;
      var remaining := m.Keys;
      RestrictAll(m, m.Keys);
      while remaining != {}
        invariant remaining <= m.Keys
        invariant count + SumPop(Restrict(m, remaining)) == SumPop(m)
        decreases remaining
      {
        var w :| w in remaining;
        SumPopRestrictStep(m, remaining, w);
        count := count + PopCount(m[w]);
        remaining := remaining - {w};
      }
      RestrictAll(m, m.Keys);
    }

    /** `Len`: the number of stored words (not of members). */
    function Len(): (n: nat)
      reads this, store
      ensures n == |store.entries|
    {
      |store.entries|
    }

    /** `None`: no word is stored. */
    function None(): (r: bool)
      reads this, store
      ensures r <==> store.entries == map[]
    {
      |store.entries| == 0
    }

    /** `Any`: the negation of `None`. */
    function Any(): (r: bool)
      reads this, store
      ensures r <==> store.entries != map[]
    {
      !None()
    }

    // -------------------------------------------------------------------
    // Set algebra
    //
    // Each operation makes one pass over this bitset's words.  In copy mode
    // it writes into a new map (`NewBitSet(nil)`); in place it writes
    // into this bitset's own store and deletes the words it collected only
    // after the pass.  `other` may share this bitset's store.

    /** `Intersection`: the words present in both bitsets, ANDed, zero results dropped. */
    method Intersection(other: BitSet, inplace: bool) returns (rlt: BitSet)
      modifies if inplace then {store} else {}
      ensures inplace ==> rlt == this
      ensures !inplace ==> fresh(rlt) && fresh(rlt.store)
      ensures rlt.store.entries == Inter(old(store.entries), old(other.store.entries))
    {
      if inplace {
        IntersectionInPlace(other);
        rlt := this;
      } else {
        rlt := IntersectionCopy(other);
      }
    }

    /** The copy-mode pass of `Intersection`: each non-zero `v & otherV` stored in a new store. */
    method IntersectionCopy(other: BitSet) returns (rlt: BitSet)
      ensures fresh(rlt) && fresh(rlt.store)
      ensures rlt.store.entries == Inter(store.entries, other.store.entries)
    {
      rlt := NewBitSet(null);
      var a, b := store.entries, other.store.entries;
      var remaining := a.Keys;
      ghost var done: set<int64> := {};
      while remaining != {}
        invariant remaining <= a.Keys && done == a.Keys - remaining
        invariant fresh(rlt) && fresh(rlt.store)
        invariant rlt.store.entries == Restrict(Inter(a, b), done)
        decreases remaining
      {
        var k :| k in remaining;
        var v := a[k];
        var otherV, ok := Words.Get(other.store.entries, k), k in other.store.entries;
        var newV := And(v, otherV);
        InterVisit(a, b, k, newV, ok);
        RestrictStep(Inter(a, b), done, k);
        if ok {
          if newV != 0 {
            rlt.store.entries := rlt.store.entries[k := newV];
          }
        }
        remaining := remaining - {k};
        done := done + {k};
      }
      InterShape(a, b);
      RestrictAll(Inter(a, b), a.Keys);
    }

    /**
     * The in-place pass of `Intersection`: each non-zero `v & otherV` written
     * back; every index without one collected, then deleted.
     */
    method IntersectionInPlace(other: BitSet)
      modifies store
      ensures store.entries == Inter(old(store.entries), old(other.store.entries))
    {
      var a := store.entries;
      ghost var b := other.store.entries;
      var deleteKeys: seq<int64> := [];
      var remaining := a.Keys;
      ghost var done: set<int64> := {};
      while remaining != {}
        invariant remaining <= a.Keys && done == a.Keys - remaining
        invariant store.entries == a + Restrict(Inter(a, b), done)
        invariant other.store == store ==> b == a
        invariant other.store != store ==> other.store.entries == b
        invariant forall k :: k in deleteKeys <==> k in done && k !in Inter(a, b)
        decreases remaining
      {
        var k :| k in remaining;
        var drop := InterVisitInPlace(other, k, a[k], a, b, done);
        if drop {
          deleteKeys := deleteKeys + [k];
        }
        remaining := remaining - {k};
        done := done + {k};
      }
      InterShape(a, b);
      RestrictAll(Inter(a, b), a.Keys);
      store.DeleteAll(deleteKeys);
      InterInPlaceResult(a, b, deleteKeys);
    }

    /**
     * What the in-place pass of `Intersection` does with the word `v` at `k`:
     * a non-zero `v & otherV` is written back; `drop` says that `other` has
     * no word there or the AND is zero.
     */
    method InterVisitInPlace(other: BitSet, k: int64, v: bv64, ghost a: Store, ghost b: Store, ghost done: set<int64>)
      returns (drop: bool)
      requires k in a && k !in done && v == a[k]
      requires store.entries == a + Restrict(Inter(a, b), done)
      requires other.store == store ==> b == a
      requires other.store != store ==> other.store.entries == b
      modifies store
      ensures store.entries == a + Restrict(Inter(a, b), done + {k})
      ensures drop <==> k !in Inter(a, b)
    {
      if other.store == store {
        Unvisited(a, Inter(a, b), done, k);
      }
      var otherV, ok := Words.Get(other.store.entries, k), k in other.store.entries;
      var newV := And(v, otherV);
      InterVisit(a, b, k, newV, ok);
      RestrictStep(Inter(a, b), done, k);
      drop := false;
      if ok {
        if newV != 0 {
          OverrideUpdate(a, Restrict(Inter(a, b), done), k, newV);
          store.entries := store.entries[k := newV];
        } else {
          drop := true;
        }
      } else {
        drop := true;
      }
    }

    /**
     * `RemoveIntersection`: first the copy-mode intersection with `other`,
     * then each word of this bitset with the intersection's bits removed.
     * In copy mode every word is stored, zero or not; in place a word the
     * subtraction empties is deleted.
     */
    method RemoveIntersection(other: BitSet, inplace: bool) returns (rlt: BitSet)
      modifies if inplace then {store} else {}
      ensures inplace ==> rlt == this
      ensures !inplace ==> fresh(rlt) && fresh(rlt.store)
      ensures rlt.store.entries == if inplace then DiffInPlace(old(store.entries), old(other.store.entries))
                                   else DiffCopy(old(store.entries), old(other.store.entries))
    {
      if inplace {
        RemoveIntersectionInPlace(other);
        rlt := this;
      } else {
        rlt := RemoveIntersectionCopy(other);
      }
    }

    /** The copy-mode pass of `RemoveIntersection`. */
    method RemoveIntersectionCopy(other: BitSet) returns (rlt: BitSet)
      ensures fresh(rlt) && fresh(rlt.store)
      ensures rlt.store.entries == DiffCopy(store.entries, other.store.entries)
    {
      rlt := NewBitSet(null);
      var a, b := store.entries, other.store.entries;
      var inter := Intersection(other, false);
      var remaining := a.Keys;
      ghost var done: set<int64> := {};
      while remaining != {}
        invariant remaining <= a.Keys && done == a.Keys - remaining
        invariant fresh(rlt) && fresh(rlt.store) && fresh(inter.store) && rlt.store != inter.store
        invariant inter.store.entries == Inter(a, b)
        invariant rlt.store.entries == Restrict(DiffCopy(a, b), done)
        decreases remaining
      {
        var k :| k in remaining;
        RemoveVisitCopy(rlt, inter, k, a[k], a, b, done);
        remaining := remaining - {k};
        done := done + {k};
      }
      RestrictAll(DiffCopy(a, b), a.Keys);
    }

    /** What the copy-mode pass does with the word `v` at `k`: `v &^ interV` where the intersection has a word, `v` elsewhere. */
    method RemoveVisitCopy(rlt: BitSet, inter: BitSet, k: int64, v: bv64, ghost a: Store, ghost b: Store, ghost done: set<int64>)
      requires k in a && v == a[k]
      requires rlt.store != inter.store && inter.store.entries == Inter(a, b)
      requires rlt.store.entries == Restrict(DiffCopy(a, b), done)
      modifies rlt.store
      ensures rlt.store.entries == Restrict(DiffCopy(a, b), done + {k})
    {
      var interV, ok := Words.Get(inter.store.entries, k), k in inter.store.entries;
      var newVal := AndNot(v, interV);
      DiffVisit(a, b, k, interV, ok, newVal);
      RestrictStep(DiffCopy(a, b), done, k);
      if ok {
        rlt.store.entries := rlt.store.entries[k := newVal];
      } else {
        rlt.store.entries := rlt.store.entries[k := v];
      }
    }

    /** The in-place pass of `RemoveIntersection`: words emptied by the subtraction are collected, then deleted. */
    method RemoveIntersectionInPlace(other: BitSet)
      modifies store
      ensures store.entries == DiffInPlace(old(store.entries), old(other.store.entries))
    {
      var a := store.entries;
      ghost var b := other.store.entries;
      var inter := Intersection(other, false);
      var deleteKeys: seq<int64> := [];
      var remaining := a.Keys;
      ghost var done: set<int64> := {};
      while remaining != {}
        invariant remaining <= a.Keys && done == a.Keys - remaining
        invariant fresh(inter.store) && inter.store.entries == Inter(a, b)
        invariant store.entries == a + Restrict(DiffCopy(a, b), done)
        invariant forall k :: k in deleteKeys <==> k in done && Emptied(a, b, k)
        decreases remaining
      {
        var k :| k in remaining;
        var drop := RemoveVisitInPlace(inter, k, a[k], a, b, done);
        if drop {
          deleteKeys := deleteKeys + [k];
        }
        remaining := remaining - {k};
        done := done + {k};
      }
      RestrictAll(DiffCopy(a, b), a.Keys);
      assert store.entries == a + DiffCopy(a, b);
      store.DeleteAll(deleteKeys);
      DiffInPlaceResult(a, b, deleteKeys);
    }

    /**
     * What the in-place pass does with the word `v` at `k`: where the
     * intersection has a word, `v &^ interV` is written back, and `drop`
     * says it is zero; elsewhere nothing changes.
     */
    method RemoveVisitInPlace(inter: BitSet, k: int64, v: bv64, ghost a: Store, ghost b: Store, ghost done: set<int64>)
      returns (drop: bool)
      requires k in a && k !in done && v == a[k]
      requires store != inter.store && inter.store.entries == Inter(a, b)
      requires store.entries == a + Restrict(DiffCopy(a, b), done)
      modifies store
      ensures store.entries == a + Restrict(DiffCopy(a, b), done + {k})
      ensures drop <==> Emptied(a, b, k)
    {
      var interV, ok := Words.Get(inter.store.entries, k), k in inter.store.entries;
      var newVal := AndNot(v, interV);
      DiffVisit(a, b, k, interV, ok, newVal);
      RestrictStep(DiffCopy(a, b), done, k);
      drop := false;
      if ok {
        OverrideUpdate(a, Restrict(DiffCopy(a, b), done), k, newVal);
        store.entries := store.entries[k := newVal];
        drop := newVal == 0;
      } else {
        OverrideKeep(a, Restrict(DiffCopy(a, b), done), k);
      }
    }

    /**
     * `Union`: a first pass over this bitset's words stores each ORed with
     * `other`'s word at that index; a second pass over `other`'s words stores
     * those at indices this bitset's store lacks.
     */
    method Union(other: BitSet, inplace: bool) returns (rlt: BitSet)
      modifies if inplace then {store} else {}
      ensures inplace ==> rlt == this
      ensures !inplace ==> fresh(rlt) && fresh(rlt.store)
      ensures rlt.store.entries == Words.Union(old(store.entries), old(other.store.entries))
    {
      var a := store.entries;
      ghost var b := other.store.entries;
      if inplace {
        UnionFirstPassInPlace(other);
        UnionSecondPassInPlace(other, a, b);
        rlt := this;
      } else {
        rlt := UnionFirstPassCopy(other);
        UnionSecondPassCopy(other, rlt, a, b);
      }
      UnionByLoops(a, b);
    }

    /** The copy-mode first pass of `Union`: each word ORed with `other`'s word into a new store. */
    method UnionFirstPassCopy(other: BitSet) returns (rlt: BitSet)
      ensures fresh(rlt) && fresh(rlt.store)
      ensures rlt.store.entries == OrOver(store.entries, other.store.entries)
    {
      rlt := NewBitSet(null);
      var a, b := store.entries, other.store.entries;
      var remaining := a.Keys;
      ghost var done: set<int64> := {};
      while remaining != {}
        invariant remaining <= a.Keys && done == a.Keys - remaining
        invariant fresh(rlt) && fresh(rlt.store)
        invariant rlt.store.entries == Restrict(OrOver(a, b), done)
        decreases remaining
      {
        var k :| k in remaining;
        var v := a[k];
        var otherV := Words.Get(other.store.entries, k);
        OrVisit(a, b, k, otherV);
        RestrictStep(OrOver(a, b), done, k);
        if otherV != 0 {
          rlt.store.entries := rlt.store.entries[k := Or(v, otherV)];
        } else {
          rlt.store.entries := rlt.store.entries[k := v];
        }
        remaining := remaining - {k};
        done := done + {k};
      }
      RestrictAll(OrOver(a, b), a.Keys);
    }

    /** The in-place first pass of `Union`: each word ORed with `other`'s word and written back. */
    method UnionFirstPassInPlace(other: BitSet)
      modifies store
      ensures store.entries == OrOver(old(store.entries), old(other.store.entries))
    {
      var a := store.entries;
      ghost var b := other.store.entries;
      var remaining := a.Keys;
      ghost var done: set<int64> := {};
      while remaining != {}
        invariant remaining <= a.Keys && done == a.Keys - remaining
        invariant store.entries == a + Restrict(OrOver(a, b), done)
        invariant other.store == store ==> b == a
        invariant other.store != store ==> other.store.entries == b
        decreases remaining
      {
        var k :| k in remaining;
        UnionVisitInPlace(other, k, a[k], a, b, done);
        remaining := remaining - {k};
        done := done + {k};
      }
      RestrictAll(OrOver(a, b), a.Keys);
      OverrideAll(a, OrOver(a, b));
    }

    /** What the in-place first pass does with the word `v` at `k`: `v | otherV` written back, or `v` when `otherV` is zero. */
    method UnionVisitInPlace(other: BitSet, k: int64, v: bv64, ghost a: Store, ghost b: Store, ghost done: set<int64>)
      requires k in a && k !in done && v == a[k]
      requires store.entries == a + Restrict(OrOver(a, b), done)
      requires other.store == store ==> b == a
      requires other.store != store ==> other.store.entries == b
      modifies store
      ensures store.entries == a + Restrict(OrOver(a, b), done + {k})
    {
      var otherV := Words.Get(other.store.entries, k);
      if other.store == store {
        Unvisited(a, OrOver(a, b), done, k);
      }
      OrVisit(a, b, k, otherV);
      RestrictStep(OrOver(a, b), done, k);
      OverrideUpdate(a, Restrict(OrOver(a, b), done), k, OrOver(a, b)[k]);
      if otherV != 0 {
        store.entries := store.entries[k := Or(v, otherV)];
      } else {
        store.entries := store.entries[k := v];
      }
    }

    /** The copy-mode second pass of `Union`: `other`'s words at indices this store lacks go into the result. */
    method UnionSecondPassCopy(other: BitSet, rlt: BitSet, ghost a: Store, ghost b: Store)
      requires rlt.store != store && rlt.store != other.store
      requires store.entries == a && other.store.entries == b
      requires rlt.store.entries == OrOver(a, b)
      modifies rlt.store
      ensures rlt.store.entries == OrOver(a, b) + Missing(a, b)
    {
      var c := other.store.entries;
      var remaining := c.Keys;
      ghost var done: set<int64> := {};
      while remaining != {}
        invariant remaining <= c.Keys && done == c.Keys - remaining
        invariant rlt.store.entries == OrOver(a, b) + Restrict(Missing(a, b), done)
        decreases remaining
      {
        var k :| k in remaining;
        var v := c[k];
        RestrictStep(Missing(a, b), done, k);
        if k !in store.entries {
          OverrideUpdate(OrOver(a, b), Restrict(Missing(a, b), done), k, v);
          rlt.store.entries := rlt.store.entries[k := v];
        }
        remaining := remaining - {k};
        done := done + {k};
      }
      RestrictAll(Missing(a, b), c.Keys);
    }

    /**
     * The in-place second pass of `Union`, over `other`'s words as the first
     * pass left them: when `other` shares this store those are the words just
     * written, all at indices the store has, so nothing more is stored.
     */
    method UnionSecondPassInPlace(other: BitSet, ghost a: Store, ghost b: Store)
      requires store.entries == OrOver(a, b)
      requires other.store == store ==> b == a
      requires other.store != store ==> other.store.entries == b
      modifies store
      ensures store.entries == OrOver(a, b) + Missing(a, b)
    {
      var c := other.store.entries;
      assert c.Keys == b.Keys;
      var remaining := c.Keys;
      ghost var done: set<int64> := {};
      while remaining != {}
        invariant remaining <= c.Keys && done == c.Keys - remaining
        invariant store.entries == OrOver(a, b) + Restrict(Missing(a, b), done)
        invariant other.store != store ==> other.store.entries == c
        decreases remaining
      {
        var k :| k in remaining;
        var v := c[k];
        RestrictStep(Missing(a, b), done, k);
        if k !in store.entries {
          assert k in Missing(a, b) && v == Missing(a, b)[k];
          OverrideUpdate(OrOver(a, b), Restrict(Missing(a, b), done), k, v);
          store.entries := store.entries[k := v];
        }
        remaining := remaining - {k};
        done := done + {k};
      }
      RestrictAll(Missing(a, b), c.Keys);
    }

    // -------------------------------------------------------------------
    // Traversal

    /**
     * `Iterate`: for each stored word, in the order `order`, the keys of its
     * set bits from the lowest up, until `visit` refuses one; a refusal ends
     * that word only, and the next word is still visited.  The result lists
     * the keys offered.  Within each word the keys come in ascending bit
     * position (`Iteration.ScanInWordAscending` about `Scan`, of which `Trace`
     * is the concatenation).
     */
    method Iterate(visit: int64 -> bool) returns (offered: seq<int64>, ghost order: seq<int64>)
      ensures Enumerates(order, store.entries)
      ensures offered == Trace(Core, store.entries, order, visit)
      ensures (forall y :: visit(y)) ==> |offered| == SumPop(store.entries)
      ensures BitsEncodable(store.entries) && (forall y :: visit(y)) ==>
                (forall x :: x in offered <==> Has(store.entries, x))
      ensures BitsEncodable(store.entries) ==> Distinct(offered)
    {
      var m := store.entries;
      offered, order := [], [];
      var remaining := m.Keys;
      while remaining != {}
        invariant remaining <= m.Keys
        invariant forall i :: 0 <= i < |order| ==> order[i] in m && order[i] !in remaining
        invariant forall w :: w in m ==> w in order || w in remaining
        invariant forall i, j :: 0 <= i < j < |order| ==> order[i] != order[j]
        invariant offered == Trace(Core, m, order, visit)
        decreases remaining
      {
        var w :| w in remaining;
        var keys := ScanWord(WordKeys(Core, w), m[w], visit);
        TraceLast(Core, m, order, w, visit);
        offered, order := offered + keys, order + [w];
        remaining := remaining - {w};
      }
      if forall y :: visit(y) {
        TraceCountAll(Core, m, order, visit);
        if BitsEncodable(m) {
          forall x ensures x in offered <==> Has(m, x) {
            TraceMembers(m, order, visit, x);
          }
        }
      }
      if BitsEncodable(m) {
        TraceDistinct(m, order, visit);
      }
    }
  }

  /** `NewBitSet`: a `nil` map is replaced by a new empty one; any other map is wrapped as it is, so the caller keeps sharing it. */
  method NewBitSet(content: WordMap?) returns (b: BitSet)
    ensures fresh(b)
    ensures content == null ==> fresh(b.store) && b.store.entries == map[]
    ensures content != null ==> b.store == content
  {
    var m := content;
    if m == null {
      m := new WordMap();
    }
    b := new BitSet(m);
  }
}
