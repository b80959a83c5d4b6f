/**
 * `BitSetSync`: the point operations over an `ISyncSource`, a store of int64
 * words.  The words are kept here as their 64-bit two's-complement patterns
 * in a `Source.WordMap`, so `uint64(v)` in `Count` and the bit masks on int64
 * values act on the same bits as in the core.  Two operations differ from
 * the core: `Flip` only ORs the key's bit in, and `Iterate` decodes a word
 * index and position as `w * 64 + p` with no correction for negative words.
 */
module Sync {
  import opened Bits
  import opened Codec
  import opened Words
  import opened Source
  import opened Iteration

  class BitSetSync {
    /** The source, held by reference; each word is the bit pattern of its int64. */
    var store: WordMap

    /** `NewBitSetSync`: wraps `content` without copying it. */
    constructor (content: WordMap)
      ensures store == content
    {
      store := content;
    }

    /** `From`: makes `context` the source, by reference. */
    method From(context: WordMap)
      modifies this
      ensures store == context
    {
      store := context;
    }

    /** `Storage`: the source itself, not a copy. */
    function Storage(): (s: WordMap)
      reads this
      ensures s == store
    {
      store
    }

    /** `Test`: whether `key` is a member, a zero or absent word holding none. */
    function Test(key: int64): (r: bool)
      reads this, store
      ensures r <==> Has(store.entries, key)
    {
      var i := Key2Idx(key);
      var val := store.Get(i.outer).0;
      if val == 0 then false else HasBit(val, i.inner)
    }

    /**
     * `Set`: the stored word becomes the old word ORed with the key's bit.
     * Returns the word index and the new word.
     */
    method Set(key: int64) returns (outIdx: int64, val: bv64)
      modifies store
      ensures store.entries == SetKey(old(store.entries), key)
      ensures outIdx == Key2Idx(key).outer && store.entries == old(store.entries)[outIdx := val]
      ensures val != 0 && Has(store.entries, key)
    {
      var i := Key2Idx(key);
      outIdx := i.outer;
      SetKeyWord(store.entries, key, Words.Get(store.entries, outIdx));
      val := store.Get(outIdx).0;
      val := val | Bit(i.inner);
      store.Set(outIdx, val);
    }

    /**
     * `Clear`: a zero word is left as it is; otherwise the bit is cleared and
     * the word deleted if nothing is left of it.  Returns the word index and
     * the word as it now reads.
     */
    method Clear(key: int64) returns (outIdx: int64, val: bv64)
      modifies store
      ensures store.entries == ClearKey(old(store.entries), key)
      ensures outIdx == Key2Idx(key).outer && val == Get(store.entries, outIdx)
      ensures Get(old(store.entries), outIdx) == 0 ==> store.entries == old(store.entries)
      ensures !Has(store.entries, key)
    {
      var i := Key2Idx(key);
      outIdx := i.outer;
      ClearKeyMembers(store.entries, key, key);
      val := store.Get(outIdx).0;
      if val == 0 {
        return;
      }
      val := Unset(val, i.inner);
      if val == 0 {
        store.Delete(outIdx);
      } else {
        store.Set(outIdx, val);
      }
    }

    /**
     * `Flip`: ORs the key's bit in, exactly as `Set` does, so the key is a
     * member afterwards whatever it was before.  The source's branch that
     * deletes a zero word cannot be taken: the word has the key's bit set.
     */
    method Flip(key: int64) returns (outIdx: int64, val: bv64)
      modifies store
      ensures store.entries == SetKey(old(store.entries), key)
      ensures outIdx == Key2Idx(key).outer && val == Get(store.entries, outIdx)
      ensures val != 0 && Has(store.entries, key)
    {
      var i := Key2Idx(key);
      outIdx := i.outer;
      SetKeyWord(store.entries, key, Words.Get(store.entries, outIdx));
      val := store.Get(outIdx).0;
      val := val | Bit(i.inner);
      if val == 0 {
        assert false;
      } else {
        store.Set(outIdx, val);
      }
    }

    /** `Count`: the popcounts of all stored words, read as unsigned, summed over one traversal of the source. */
    method Count() returns (count: nat)
      ensures count == SumPop(store.entries)
    {
      var m := store.entries;
      count := 0;
      var remaining := m.Keys;
      RestrictAll(m, m.Keys);
      while remaining != {}
        invariant remaining <= m.Keys
        invariant count + SumPop(Restrict(m, remaining)) == SumPop(m)
        decreases remaining
      {
        var w :| w in remaining;
        SumPopRestrictStep(m, remaining, w);
        count := count + PopCount(m[w]);
        remaining := remaining - {w};
      }
      RestrictAll(m, m.Keys);
    }

    /**
     * `Iterate`: for each stored word, in the order `order`, the keys
     * `w * 64 + p` of its set bits from the lowest up, until `visit` refuses
     * one; a refusal ends that word only.  The result lists the keys offered.
     */
    method Iterate(visit: int64 -> bool) returns (offered: seq<int64>, ghost order: seq<int64>)
      ensures Enumerates(order, store.entries)
      ensures offered == Trace(Sync, store.entries, order, visit)
      ensures (forall y :: visit(y)) ==> |offered| == SumPop(store.entries)
    {
      var m := store.entries;
      offered, order := [], [];
      var remaining := m.Keys;
      while remaining != {}
        invariant remaining <= m.Keys
        invariant forall i :: 0 <= i < |order| ==> order[i] in m && order[i] !in remaining
        invariant forall w :: w in m ==> w in order || w in remaining
        invariant forall i, j :: 0 <= i < j < |order| ==> order[i] != order[j]
        invariant offered == Trace(Sync, m, order, visit)
        decreases remaining
      {
        var w :| w in remaining;
        var keys := ScanWord(WordKeys(Sync, w), m[w], visit);
        TraceLast(Sync, m, order, w, visit);
        offered, order := offered + keys, order + [w];
        remaining := remaining - {w};
      }
      if forall y :: visit(y) {
        TraceCountAll(Sync, m, order, visit);
      }
    }
  }

  // ---------------------------------------------------------------------
  // How the sync operations differ from the core ones

  /**
   * The sync `Flip` agrees with the core `Flip` exactly on keys that are not
   * members; on a member the core clears the bit and the sync version keeps it.
   */
  lemma FlipsAgreeOnNonMembers(m: Store, key: int64)
    ensures SetKey(m, key) == FlipKey(m, key) <==> !Has(m, key)
    ensures Has(SetKey(m, key), key)
    ensures Has(FlipKey(m, key), key) <==> !Has(m, key)
  {
    SetKeyMembers(m, key, key);
    FlipKeyMembers(m, key, key);
    if !Has(m, key) {
      FlipKeyNonMember(m, key);
    }
  }

  /**
   * With one key set in an empty store, the sync traversal offers that key
   * back exactly when it is non-negative or sits at position 32 of its word;
   * the core traversal always does.
   */
  lemma SingleKeyTraversal(key: int64, visit: int64 -> bool)
    ensures forall order :: Enumerates(order, SetKey(map[], key)) ==> order == [Key2Idx(key).outer]
    ensures Trace(Sync, SetKey(map[], key), [Key2Idx(key).outer], visit) == [key] <==> key >= 0 || Key2Idx(key).inner == 32
    ensures Trace(Core, SetKey(map[], key), [Key2Idx(key).outer], visit) == [key]
  {
    TraceSingle(Sync, key, visit);
    TraceSingle(Core, key, visit);
    SyncDecodeInverts(key);
    DecodeEncode(key);
  }

  /** Setting -1 (word -1, position 1) and traversing: the sync decode offers -63, the core one -1. */
  lemma SetMinusOneTraversal(visit: int64 -> bool)
    ensures SetKey(map[], -1) == map[-1 := Bit(1)]
    ensures Trace(Sync, SetKey(map[], -1), [-1], visit) == [-63]
    ensures Trace(Core, SetKey(map[], -1), [-1], visit) == [-1]
  {
    Key2IdxMinusOne();
    TraceSingle(Sync, -1, visit);
    TraceSingle(Core, -1, visit);
    SyncDecodeMinusOne();
    DecodeEncode(-1);
  }

  /**
   * Key 63 is bit 63 of word 0, the sign bit of the int64 the source stores,
   * which is then negative; `Count` reads it as unsigned and counts that bit.
   */
  lemma SignBitCounts()
    ensures SetKey(map[], 63) == map[0 := Bit(63)]
    ensures Signed(Bit(63)) < 0
    ensures SumPop(SetKey(map[], 63)) == 1
  {
    SetKeyEmpty(63);
    SignedNegative(Bit(63));
    BitOnly(63, 63);
    SetKeyCount(map[], 63);
    SumPopEmpty(map[]);
  }
}
