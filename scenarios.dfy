/**
 * Uses of the map-backed `BitSet` of bitset.go: the seven keys of the
 * package test and the same test with its negative keys restored, the three algebra operations on two small sets with negative
 * keys, a clone that does not share its map, `From` sharing the caller's
 * map, and the two modes of `Union` agreeing.
 */
module Scenarios {
  import opened Codec
  import opened Words
  import opened Source
  import opened MapBitSet

  /** The seven keys the package test sets. */
  const TestKeys: seq<int64> := [0, 1, 2, 62, 63, 64, 65]

  /**
   * Setting each key of `keys` in a new bitset, as the test's first loop
   * does: exactly those keys are members afterwards, and `Count` finds one
   * per distinct key.
   */
  method SetKeys(keys: seq<int64>) returns (b: BitSet, count: nat)
    ensures fresh(b) && fresh(b.store)
    ensures b.store.entries == SetAll(map[], keys)
    ensures forall k :: b.Test(k) <==> k in keys
    ensures Distinct(keys) ==> count == |keys|
  {
    b := NewBitSet(null);
    var i := 0;
    while i < |keys|
      invariant 0 <= i <= |keys|
      invariant fresh(b) && fresh(b.store)
      invariant b.store.entries == SetAll(map[], keys[..i])
    {
      var _, _ := b.Set(keys[i]);
      SetAllLast(map[], keys[..i], keys[i]);
      TakeNext(keys, i);
      i := i + 1;
    }
    assert keys[..i] == keys;
    forall k ensures Has(b.store.entries, k) <==> k in keys {
      ListMembers(keys, k);
    }
    if Distinct(keys) {
      SetDistinctCount(keys);
    }
    count := b.Count();
  }

  /**
   * Setting the test keys in a new bitset: exactly they are members (3, 61
   * and 66 are not), and `Count` finds seven.
   */
  method SetTestKeys() returns (b: BitSet, count: nat)
    ensures fresh(b) && fresh(b.store)
    ensures b.store.entries == SetAll(map[], TestKeys)
    ensures forall k :: b.Test(k) <==> k in TestKeys
    ensures !b.Test(3) && !b.Test(61) && !b.Test(66)
    ensures count == 7
  {
    TestKeysDistinct(TestKeys);
    b, count := SetKeys(TestKeys);
  }

  /** The test's keys with its four commented-out negative keys restored. */
  const CaseKeys: seq<int64> := [-64, -63, -2, -1, 0, 1, 2, 62, 63, 64, 65]

  /**
   * The test with its negative cases restored: the eleven keys are members,
   * 3, 61 and 66 are not, and `Count` finds eleven.
   */
  method SetCaseKeys() returns (b: BitSet, count: nat)
    ensures fresh(b) && fresh(b.store)
    ensures forall k :: b.Test(k) <==> k in CaseKeys
    ensures b.Test(-64) && b.Test(-63) && b.Test(-2) && b.Test(-1)
    ensures !b.Test(3) && !b.Test(61) && !b.Test(66)
    ensures count == 11
  {
    CaseKeysDistinct(CaseKeys);
    b, count := SetKeys(CaseKeys);
  }

  lemma CaseKeysDistinct(keys: seq<int64>)
    requires keys == CaseKeys
    ensures Distinct(keys) && |keys| == 11
    ensures -64 in keys && -63 in keys && -2 in keys && -1 in keys
    ensures 3 !in keys && 61 !in keys && 66 !in keys
  {
    assert keys == [-64, -63, -2, -1, 0, 1, 2, 62, 63, 64, 65];
    assert keys[0] == -64 && keys[1] == -63 && keys[2] == -2 && keys[3] == -1;
    forall i | 0 <= i < 11 ensures keys[i] != 3 && keys[i] != 61 && keys[i] != 66 {
    }
  }

  lemma TakeNext(s: seq<int64>, i: nat)
    requires i < |s|
    ensures s[..i + 1] == s[..i] + [s[i]]
  {
  }

  /** A key is a member of the set built from a list exactly when it is in the list. */
  lemma ListMembers(keys: seq<int64>, k: int64)
    ensures Has(SetAll(map[], keys), k) <==> k in keys
  {
    SetAllMembers(map[], keys, k);
  }

  /** The store the test keys build: exactly they are members, seven in all. */
  lemma TestKeysMembers(keys: seq<int64>)
    requires keys == TestKeys
    ensures forall k :: Has(SetAll(map[], keys), k) <==> k in keys
    ensures 3 !in keys && 61 !in keys && 66 !in keys
    ensures SumPop(SetAll(map[], keys)) == 7
  {
    forall k ensures Has(SetAll(map[], keys), k) <==> k in keys {
      ListMembers(keys, k);
    }
    TestKeysDistinct(keys);
    SetDistinctCount(keys);
  }

  lemma TestKeysDistinct(keys: seq<int64>)
    requires keys == TestKeys
    ensures Distinct(keys) && |keys| == 7
    ensures 3 !in keys && 61 !in keys && 66 !in keys
  {
    assert keys == [0, 1, 2, 62, 63, 64, 65];
    forall i | 0 <= i < 7 ensures keys[i] != 3 && keys[i] != 61 && keys[i] != 66 {
    }
  }

  /** The first operand of the algebra example, with negative keys in three words. */
  const ExampleA: seq<int64> := [-127, -63, -64, -1, 0, 1, 2, 63, 64]

  /** The second operand of the algebra example. */
  const ExampleB: seq<int64> := [-63, -64, 0, 62, 63, 64, 65]

  predicate InA(k: int64)
  {
    k == -127 || k == -63 || k == -64 || k == -1 || k == 0 || k == 1 || k == 2 || k == 63 || k == 64
  }

  predicate InB(k: int64)
  {
    k == -63 || k == -64 || k == 0 || k == 62 || k == 63 || k == 64 || k == 65
  }

  lemma ExampleMembers(k: int64)
    ensures Has(SetAll(map[], ExampleA), k) <==> InA(k)
    ensures Has(SetAll(map[], ExampleB), k) <==> InB(k)
  {
    ListMembers(ExampleA, k);
    ListMembers(ExampleB, k);
    InExample(k);
  }

  lemma InExample(k: int64)
    ensures k in ExampleA <==> InA(k)
    ensures k in ExampleB <==> InB(k)
  {
  }

  /**
   * The algebra on the two example sets: the members of the intersection,
   * of the difference (in either mode) and of the union.
   */
  lemma AlgebraExample(k: int64)
    ensures Has(Inter(SetAll(map[], ExampleA), SetAll(map[], ExampleB)), k)
        <==> k == -63 || k == -64 || k == 0 || k == 63 || k == 64
    ensures Has(DiffCopy(SetAll(map[], ExampleA), SetAll(map[], ExampleB)), k)
        <==> k == -127 || k == -1 || k == 1 || k == 2
    ensures Has(DiffInPlace(SetAll(map[], ExampleA), SetAll(map[], ExampleB)), k)
        <==> k == -127 || k == -1 || k == 1 || k == 2
    ensures Has(Words.Union(SetAll(map[], ExampleA), SetAll(map[], ExampleB)), k)
        <==> InA(k) || k == 62 || k == 65
  {
    var x, y := SetAll(map[], ExampleA), SetAll(map[], ExampleB);
    ExampleMembers(k);
    InterMembers(x, y, k);
    DiffCopyMembers(x, y, k);
    DiffInPlaceMembers(x, y, k);
    UnionMembers(x, y, k);
  }

  /** A clone gets its own map: setting a key in it leaves the original as it was. */
  method CloneIsIndependent(b: BitSet, key: int64) returns (c: BitSet)
    ensures fresh(c) && fresh(c.store)
    ensures c.store.entries == SetKey(b.store.entries, key)
    ensures b.store.entries == old(b.store.entries)
  {
    c := b.Clone();
    var _, _ := c.Set(key);
  }

  /** After `From(m)` the bitset writes through to the caller's map `m`. */
  method FromShares(m: WordMap, key: int64) returns (b: BitSet)
    modifies m
    ensures b.store == m
    ensures m.entries == SetKey(old(m.entries), key)
  {
    b := NewBitSet(null);
    b.From(m);
    var _, _ := b.Set(key);
  }

  /** `Union` in copy mode and `Union` in place on a clone give the same map, the receiver untouched. */
  method UnionModesAgree(a: BitSet, other: BitSet) returns (copied: BitSet, inPlace: BitSet)
    ensures copied.store.entries == inPlace.store.entries == Words.Union(a.store.entries, other.store.entries)
    ensures a.store.entries == old(a.store.entries) && other.store.entries == old(other.store.entries)
  {
    copied := a.Union(other, false);
    var c := a.Clone();
    inPlace := c.Union(other, true);
  }
}
