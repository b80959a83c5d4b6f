/**
 * What a word store holds and what the bitset's operations do to it, stated on
 * plain maps from word index to word.  The classes elsewhere are proved to
 * change their stores exactly as these functions say; the lemmas here say what
 * that means for the set of member keys.
 */
module Words {
  import opened Bits
  import opened Codec

  /** The contents of a word store: word index to 64-bit word. */
  type Store = map<int64, bv64>

  /** A read that yields the zero word for an absent index, as `Get`'s value and a Go map read do. */
  function Get(m: Store, w: int64): bv64
  {
    if w in m then m[w] else 0
  }

  /** `key` is a member: its bit is set in its word. */
  predicate Has(m: Store, key: int64)
  {
    HasAt(m, Key2Idx(key).outer, Key2Idx(key).inner)
  }

  /** Bit `p` of the word at `w` is set. */
  predicate HasAt(m: Store, w: int64, p: Pos)
  {
    HasBit(Get(m, w), p)
  }

  /** The sparse invariant: no stored word is zero. */
  predicate NoZero(m: Store)
  {
    forall w :: w in m ==> m[w] != 0
  }

  /** Every set bit of every stored word is a pair that some key encodes to. */
  ghost predicate BitsEncodable(m: Store)
  {
    forall w, p :: w in m && HasBit(m[w], p) ==> Encodable(Idx(w, p))
  }

  /** The sparse invariant, and every set bit is a pair that some key encodes to. */
  ghost predicate Canonical(m: Store)
  {
    NoZero(m) && BitsEncodable(m)
  }

  /** Two keys have the same word and position exactly when they are the same key. */
  lemma SameIdx(key: int64, j: int64)
    ensures (Key2Idx(j).outer == Key2Idx(key).outer && Key2Idx(j).inner == Key2Idx(key).inner) <==> j == key
  {
    if Key2Idx(j).outer == Key2Idx(key).outer && Key2Idx(j).inner == Key2Idx(key).inner {
      Key2IdxInjective(j, key);
    }
  }

  // ---------------------------------------------------------------------
  // Storing a word

  /** Store `v` at `w`, or delete `w` when `v` is zero: how `Clear` and `Flip` write back. */
  function PutWord(m: Store, w: int64, v: bv64): Store
  {
    if v == 0 then m - {w} else m[w := v]
  }

  lemma PutWordGet(m: Store, w: int64, v: bv64, u: int64)
    ensures Get(PutWord(m, w, v), u) == if u == w then v else Get(m, u)
  {
  }

  /** Writing back the word a store already holds changes nothing, if the store has no zero word. */
  lemma PutWordSame(m: Store, w: int64)
    requires NoZero(m)
    ensures PutWord(m, w, Get(m, w)) == m
  {
  }

  lemma PutWordTwice(m: Store, w: int64, v: bv64, v': bv64)
    ensures PutWord(PutWord(m, w, v), w, v') == PutWord(m, w, v')
  {
  }

  lemma PutWordNoZero(m: Store, w: int64, v: bv64)
    requires NoZero(m)
    ensures NoZero(PutWord(m, w, v))
  {
  }

  /** Storing a word whose every set bit is encodable at `w` keeps a store canonical. */
  lemma PutWordCanonical(m: Store, w: int64, v: bv64)
    requires Canonical(m)
    requires forall p :: HasBit(v, p) ==> Encodable(Idx(w, p))
    ensures Canonical(PutWord(m, w, v))
  {
    PutWordNoZero(m, w, v);
    var r := PutWord(m, w, v);
    forall u, p | u in r && HasBit(r[u], p) ensures Encodable(Idx(u, p)) {
      PutWordGet(m, w, v, u);
    }
  }

  /** The bits of the stored word at `w` are encodable at `w`. */
  lemma StoredWordEncodable(m: Store, w: int64, p: Pos)
    requires Canonical(m) && HasBit(Get(m, w), p)
    ensures Encodable(Idx(w, p))
  {
    assert w in m && HasBit(m[w], p);
  }

  // ---------------------------------------------------------------------
  // Point operations on one word and position

  /** Bit `p` ORed into the word at `w`, which is stored. */
  function SetAt(m: Store, w: int64, p: Pos): Store
  {
    m[w := Get(m, w) | Bit(p)]
  }

  /** Nothing when the word at `w` reads as zero; otherwise bit `p` cleared and the word written back. */
  function ClearAt(m: Store, w: int64, p: Pos): Store
  {
    if Get(m, w) == 0 then m else PutWord(m, w, Unset(Get(m, w), p))
  }

  /** Bit `p` of the word at `w` toggled and the word written back. */
  function FlipAt(m: Store, w: int64, p: Pos): Store
  {
    PutWord(m, w, Toggle(Get(m, w), p))
  }

  lemma SetAtIsPut(m: Store, w: int64, p: Pos)
    ensures SetAt(m, w, p) == PutWord(m, w, Get(m, w) | Bit(p))
  {
    OrBitSame(Get(m, w), p);
  }

  lemma SetAtGet(m: Store, w: int64, p: Pos, u: int64)
    ensures Get(SetAt(m, w, p), u) == if u == w then Get(m, u) | Bit(p) else Get(m, u)
  {
  }

  lemma ClearAtGet(m: Store, w: int64, p: Pos, u: int64)
    ensures Get(ClearAt(m, w, p), u) == if u == w then Unset(Get(m, u), p) else Get(m, u)
  {
    if Get(m, w) != 0 {
      PutWordGet(m, w, Unset(Get(m, w), p), u);
    } else {
      ZeroAndNot(Bit(p));
    }
  }

  lemma FlipAtGet(m: Store, w: int64, p: Pos, u: int64)
    ensures Get(FlipAt(m, w, p), u) == if u == w then Toggle(Get(m, u), p) else Get(m, u)
  {
    PutWordGet(m, w, Toggle(Get(m, w), p), u);
  }

  lemma SetAtHas(m: Store, w: int64, p: Pos, u: int64, q: Pos)
    ensures HasAt(SetAt(m, w, p), u, q) <==> (u == w && q == p) || HasAt(m, u, q)
  {
    SetAtGet(m, w, p, u);
    if u == w { OrBitAt(Get(m, w), p, q); }
  }

  lemma ClearAtHasSame(m: Store, w: int64, p: Pos, q: Pos)
    ensures HasAt(ClearAt(m, w, p), w, q) <==> q != p && HasAt(m, w, q)
  {
    ClearAtGet(m, w, p, w);
    UnsetAt(Get(m, w), p, q);
  }

  lemma ClearAtHasOther(m: Store, w: int64, p: Pos, u: int64, q: Pos)
    requires u != w
    ensures HasAt(ClearAt(m, w, p), u, q) == HasAt(m, u, q)
  {
    ClearAtGet(m, w, p, u);
  }

  lemma ClearAtHas(m: Store, w: int64, p: Pos, u: int64, q: Pos)
    ensures HasAt(ClearAt(m, w, p), u, q) <==> !(u == w && q == p) && HasAt(m, u, q)
  {
    if u == w {
      ClearAtHasSame(m, w, p, q);
    } else {
      ClearAtHasOther(m, w, p, u, q);
    }
  }

  lemma FlipAtHas(m: Store, w: int64, p: Pos, u: int64, q: Pos)
    ensures HasAt(FlipAt(m, w, p), u, q) <==> (u == w && q == p) != HasAt(m, u, q)
  {
    FlipAtGet(m, w, p, u);
    if u == w { ToggleAt(Get(m, w), p, q); }
  }

  lemma ClearAtClear(m: Store, w: int64, p: Pos)
    requires !HasAt(m, w, p)
    ensures ClearAt(m, w, p) == m
  {
    var v := Get(m, w);
    if v != 0 {
      AndNotClear(v, p);
      assert m[w := v] == m;
    }
  }

  lemma SetAtCanonical(m: Store, w: int64, p: Pos)
    requires Canonical(m) && Encodable(Idx(w, p))
    ensures Canonical(SetAt(m, w, p))
  {
    var v := Get(m, w);
    forall q | HasBit(v | Bit(p), q) ensures Encodable(Idx(w, q)) {
      OrBitAt(v, p, q);
      if q != p { StoredWordEncodable(m, w, q); }
    }
    SetAtIsPut(m, w, p);
    PutWordCanonical(m, w, v | Bit(p));
  }

  lemma ClearAtIsPut(m: Store, w: int64, p: Pos)
    requires Get(m, w) != 0
    ensures ClearAt(m, w, p) == PutWord(m, w, Unset(Get(m, w), p))
  {
  }

  lemma ClearedEncodable(m: Store, w: int64, p: Pos)
    requires Canonical(m)
    ensures forall q :: HasBit(Unset(Get(m, w), p), q) ==> Encodable(Idx(w, q))
  {
    forall q | HasBit(Unset(Get(m, w), p), q) ensures Encodable(Idx(w, q)) {
      UnsetAt(Get(m, w), p, q);
      StoredWordEncodable(m, w, q);
    }
  }

  lemma ClearAtCanonical(m: Store, w: int64, p: Pos)
    requires Canonical(m)
    ensures Canonical(ClearAt(m, w, p))
  {
    if Get(m, w) != 0 {
      ClearAtIsPut(m, w, p);
      ClearedEncodable(m, w, p);
      PutWordCanonical(m, w, Unset(Get(m, w), p));
    }
  }

  lemma ToggledEncodable(m: Store, w: int64, p: Pos)
    requires Canonical(m) && Encodable(Idx(w, p))
    ensures forall q :: HasBit(Toggle(Get(m, w), p), q) ==> Encodable(Idx(w, q))
  {
    forall q | HasBit(Toggle(Get(m, w), p), q) ensures Encodable(Idx(w, q)) {
      ToggleAt(Get(m, w), p, q);
      if q != p { StoredWordEncodable(m, w, q); }
    }
  }

  lemma FlipAtCanonical(m: Store, w: int64, p: Pos)
    requires Canonical(m) && Encodable(Idx(w, p))
    ensures Canonical(FlipAt(m, w, p))
  {
    ToggledEncodable(m, w, p);
    PutWordCanonical(m, w, Toggle(Get(m, w), p));
  }

  lemma FlipAtTwice(m: Store, w: int64, p: Pos)
    requires NoZero(m)
    ensures FlipAt(FlipAt(m, w, p), w, p) == m
  {
    var t := Toggle(Get(m, w), p);
    PutWordGet(m, w, t, w);
    ToggleTwice(Get(m, w), p);
    PutWordTwice(m, w, t, Get(m, w));
    PutWordSame(m, w);
  }

  // ---------------------------------------------------------------------
  // Point operations on keys

  /** The store after `Set(key)`: the key's bit is ORed into its word, which is stored. */
  function SetKey(m: Store, key: int64): Store
  {
    SetAt(m, Key2Idx(key).outer, Key2Idx(key).inner)
  }

  /**
   * The store after `Clear(key)`: nothing changes when the word reads as zero;
   * otherwise the bit is cleared and the word deleted if that leaves it zero.
   */
  function ClearKey(m: Store, key: int64): Store
  {
    ClearAt(m, Key2Idx(key).outer, Key2Idx(key).inner)
  }

  /** The store after `Flip(key)`: the bit is toggled and the word deleted if that leaves it zero. */
  function FlipKey(m: Store, key: int64): Store
  {
    FlipAt(m, Key2Idx(key).outer, Key2Idx(key).inner)
  }

  /** After `Set(key)` the members are the old members and `key`. */
  lemma SetKeyMembers(m: Store, key: int64, j: int64)
    ensures Has(SetKey(m, key), j) <==> j == key || Has(m, j)
  {
    SetAtHas(m, Key2Idx(key).outer, Key2Idx(key).inner, Key2Idx(j).outer, Key2Idx(j).inner);
    SameIdx(key, j);
  }

  /** After `Clear(key)` the members are the old members except `key`. */
  lemma ClearKeyMembers(m: Store, key: int64, j: int64)
    ensures Has(ClearKey(m, key), j) <==> j != key && Has(m, j)
  {
    ClearAtHas(m, Key2Idx(key).outer, Key2Idx(key).inner, Key2Idx(j).outer, Key2Idx(j).inner);
    SameIdx(key, j);
  }

  /** After `Flip(key)` exactly the membership of `key` has changed. */
  lemma FlipKeyMembers(m: Store, key: int64, j: int64)
    ensures Has(FlipKey(m, key), j) <==> (j == key) != Has(m, j)
  {
    FlipAtHas(m, Key2Idx(key).outer, Key2Idx(key).inner, Key2Idx(j).outer, Key2Idx(j).inner);
    SameIdx(key, j);
  }

  /**
   * `Set(key)` on the word `x` read at the key's index: the store gets
   * `x | bit` there, which is non-zero, and `key` is then a member.
   */
  lemma SetKeyWord(m: Store, key: int64, x: bv64)
    requires x == Get(m, Key2Idx(key).outer)
    ensures SetKey(m, key) == m[Key2Idx(key).outer := x | Bit(Key2Idx(key).inner)]
    ensures x | Bit(Key2Idx(key).inner) != 0
    ensures Has(SetKey(m, key), key)
  {
    OrBitSame(x, Key2Idx(key).inner);
    SetKeyMembers(m, key, key);
  }

  /** Clearing a non-member changes nothing, whatever the store holds. */
  lemma ClearNonMember(m: Store, key: int64)
    requires !Has(m, key)
    ensures ClearKey(m, key) == m
  {
    ClearAtClear(m, Key2Idx(key).outer, Key2Idx(key).inner);
  }

  /**
   * `Set`, `Clear` and `Flip` never leave a zero word stored, and keep every
   * set bit a pair that a key encodes to.
   */
  lemma PointOpsKeepCanonical(m: Store, key: int64)
    requires Canonical(m)
    ensures Canonical(SetKey(m, key)) && Canonical(ClearKey(m, key)) && Canonical(FlipKey(m, key))
  {
    SetAtCanonical(m, Key2Idx(key).outer, Key2Idx(key).inner);
    ClearAtCanonical(m, Key2Idx(key).outer, Key2Idx(key).inner);
    FlipAtCanonical(m, Key2Idx(key).outer, Key2Idx(key).inner);
  }

  /**
   * The sparse invariant alone is kept by the point operations, also on a
   * store handed in whose bits no key produces.
   */
  lemma PointOpsKeepNoZero(m: Store, key: int64)
    requires NoZero(m)
    ensures NoZero(SetKey(m, key)) && NoZero(ClearKey(m, key)) && NoZero(FlipKey(m, key))
  {
    var w, p := Key2Idx(key).outer, Key2Idx(key).inner;
    SetAtIsPut(m, w, p);
    PutWordNoZero(m, w, Get(m, w) | Bit(p));
    PutWordNoZero(m, w, Unset(Get(m, w), p));
    PutWordNoZero(m, w, Toggle(Get(m, w), p));
  }

  /** Flipping a key that is not a member sets it. */
  lemma FlipKeyNonMember(m: Store, key: int64)
    requires !Has(m, key)
    ensures FlipKey(m, key) == SetKey(m, key)
  {
    FlipAtUnset(m, Key2Idx(key).outer, Key2Idx(key).inner);
  }

  lemma FlipAtUnset(m: Store, w: int64, p: Pos)
    requires !HasAt(m, w, p)
    ensures FlipAt(m, w, p) == SetAt(m, w, p)
  {
    var x := Get(m, w);
    ToggleSetBit(x, p);
    OrBitSame(x, p);
  }

  /** Setting one key in an empty store stores its bit alone in its word. */
  lemma SetKeyEmpty(key: int64)
    ensures SetKey(map[], key) == map[Key2Idx(key).outer := Bit(Key2Idx(key).inner)]
  {
    ZeroOr(Bit(Key2Idx(key).inner));
  }

  /** On a store without zero words, flipping the same key twice restores the store exactly. */
  lemma FlipTwice(m: Store, key: int64)
    requires NoZero(m)
    ensures FlipKey(FlipKey(m, key), key) == m
  {
    FlipAtTwice(m, Key2Idx(key).outer, Key2Idx(key).inner);
  }

  // ---------------------------------------------------------------------
  // Counting

  /** The sum of the popcounts of all stored words: what `Count` returns. */
  ghost function SumPop(m: Store): nat
    decreases |m|
  {
    if m == map[] then 0
    else
      var w :| w in m;
      PopCount(m[w]) + SumPop(m - {w})
  }

  /** Any word can be taken out first: the sum does not depend on the order of words. */
  lemma {:induction false} SumPopRemove(m: Store, w: int64)
    requires w in m
    ensures SumPop(m) == PopCount(m[w]) + SumPop(m - {w})
    decreases |m|
  {
    var c :| c in m && SumPop(m) == PopCount(m[c]) + SumPop(m - {c});
    if c != w {
      assert (m - {c}).Keys == m.Keys - {c};
      assert (m - {w}).Keys == m.Keys - {w};
      SumPopRemove(m - {c}, w);
      SumPopRemove(m - {w}, c);
      assert m - {c} - {w} == m - {w} - {c};
    }
  }

  /** The count after storing `v` at `w`, or deleting `w` when `v` is zero. */
  lemma SumPopPut(m: Store, w: int64, v: bv64)
    ensures SumPop(PutWord(m, w, v)) + PopCount(Get(m, w)) == SumPop(m) + PopCount(v)
  {
    SumPopUpdate(m, w, v);
    if v == 0 {
      PopCountZero(0);
      assert (m - {w}) - {w} == m - {w};
      SumPopUpdate(m - {w}, w, 0);
    }
  }

  lemma SumPopUpdate(m: Store, w: int64, v: bv64)
    ensures SumPop(m[w := v]) == SumPop(m - {w}) + PopCount(v)
    ensures SumPop(m) == SumPop(m - {w}) + PopCount(Get(m, w))
  {
    SumPopRemove(m[w := v], w);
    assert m[w := v] - {w} == m - {w};
    if w in m {
      SumPopRemove(m, w);
    } else {
      assert m - {w} == m;
      PopCountZero(0);
    }
  }

  /** The entries of `m` whose index is in `ks`. */
  function Restrict(m: Store, ks: set<int64>): (r: Store)
    ensures r.Keys == m.Keys * ks
    ensures forall w :: w in r ==> r[w] == m[w]
  {
    map w | w in m && w in ks :: m[w]
  }

  /** Taking one more word out of the untraversed part moves its popcount into the running count. */
  lemma SumPopRestrictStep(m: Store, ks: set<int64>, w: int64)
    requires w in ks && w in m
    ensures SumPop(Restrict(m, ks)) == PopCount(m[w]) + SumPop(Restrict(m, ks - {w}))
  {
    SumPopRemove(Restrict(m, ks), w);
    assert Restrict(m, ks) - {w} == Restrict(m, ks - {w});
  }

  lemma RestrictAll(m: Store, ks: set<int64>)
    requires m.Keys <= ks
    ensures Restrict(m, ks) == m
    ensures Restrict(m, {}) == map[]
  {
  }

  lemma SetAtCount(m: Store, w: int64, p: Pos)
    ensures SumPop(SetAt(m, w, p)) == SumPop(m) + if HasAt(m, w, p) then 0 else 1
  {
    var v := Get(m, w);
    SumPopUpdate(m, w, v | Bit(p));
    if HasBit(v, p) {
      OrBitKeep(v, p);
    } else {
      PopCountSetBit(v, p);
    }
  }

  lemma ClearAtCount(m: Store, w: int64, p: Pos)
    ensures SumPop(ClearAt(m, w, p)) + (if HasAt(m, w, p) then 1 else 0) == SumPop(m)
  {
    var v := Get(m, w);
    if !HasAt(m, w, p) {
      ClearAtClear(m, w, p);
    } else {
      UnsetCount(v, p);
      ClearAtIsPut(m, w, p);
      SumPopPut(m, w, Unset(v, p));
    }
  }

  /** `Set(key)` raises the count by one exactly when `key` was not a member. */
  lemma SetKeyCount(m: Store, key: int64)
    ensures SumPop(SetKey(m, key)) == SumPop(m) + if Has(m, key) then 0 else 1
  {
    SetAtCount(m, Key2Idx(key).outer, Key2Idx(key).inner);
  }

  /** `Clear(key)` lowers the count by one exactly when `key` was a member. */
  lemma ClearKeyCount(m: Store, key: int64)
    ensures SumPop(ClearKey(m, key)) + (if Has(m, key) then 1 else 0) == SumPop(m)
  {
    ClearAtCount(m, Key2Idx(key).outer, Key2Idx(key).inner);
  }

  /** On a store without zero words the count is zero exactly when the store is empty. */
  lemma SumPopEmpty(m: Store)
    requires NoZero(m)
    ensures SumPop(m) == 0 <==> m == map[]
  {
    if m != map[] {
      var w :| w in m;
      SumPopRemove(m, w);
      PopCountZero(m[w]);
    }
  }

  /** A store of zero words counts zero. */
  lemma {:induction false} SumPopZeroWords(m: Store)
    requires forall w :: w in m ==> m[w] == 0
    ensures SumPop(m) == 0
    decreases |m|
  {
    if m != map[] {
      var w :| w in m;
      SumPopRemove(m, w);
      assert (m - {w}).Keys == m.Keys - {w};
      SumPopZeroWords(m - {w});
      PopCountZero(m[w]);
    }
  }

  /** A canonical store without members is empty. */
  lemma NoMembersEmpty(m: Store)
    requires Canonical(m)
    requires forall key :: !Has(m, key)
    ensures m == map[]
  {
    if m != map[] {
      var w :| w in m;
      var p := NonZeroHasBit(m[w]);
      var key := Decode(w, p);
      EncodeDecode(Idx(w, p));
      assert Has(m, key);
    }
  }

  // ---------------------------------------------------------------------
  // Sequences of point operations

  function SetAll(m: Store, keys: seq<int64>): Store
    decreases |keys|
  {
    if keys == [] then m else SetAll(SetKey(m, keys[0]), keys[1..])
  }

  function ClearAll(m: Store, keys: seq<int64>): Store
    decreases |keys|
  {
    if keys == [] then m else ClearAll(ClearKey(m, keys[0]), keys[1..])
  }

  lemma {:induction false} SetAllMembers(m: Store, keys: seq<int64>, j: int64)
    ensures Has(SetAll(m, keys), j) <==> j in keys || Has(m, j)
    decreases |keys|
  {
    if keys != [] {
      SetKeyMembers(m, keys[0], j);
      SetAllMembers(SetKey(m, keys[0]), keys[1..], j);
      assert keys == [keys[0]] + keys[1..];
    }
  }

  /** Setting one more key after a run of `Set` calls extends the run. */
  lemma {:induction false} SetAllLast(m: Store, keys: seq<int64>, key: int64)
    ensures SetAll(m, keys + [key]) == SetKey(SetAll(m, keys), key)
    decreases |keys|
  {
    if keys == [] {
      assert [] + [key] == [key];
      assert [key][1..] == [];
    } else {
      assert (keys + [key])[1..] == keys[1..] + [key];
      SetAllLast(SetKey(m, keys[0]), keys[1..], key);
    }
  }

  lemma {:induction false} ClearAllMembers(m: Store, keys: seq<int64>, j: int64)
    ensures Has(ClearAll(m, keys), j) <==> j !in keys && Has(m, j)
    decreases |keys|
  {
    if keys != [] {
      ClearKeyMembers(m, keys[0], j);
      ClearAllMembers(ClearKey(m, keys[0]), keys[1..], j);
      assert keys == [keys[0]] + keys[1..];
    }
  }

  lemma {:induction false} SetAllCanonical(m: Store, keys: seq<int64>)
    requires Canonical(m)
    ensures Canonical(SetAll(m, keys))
    decreases |keys|
  {
    if keys != [] {
      PointOpsKeepCanonical(m, keys[0]);
      SetAllCanonical(SetKey(m, keys[0]), keys[1..]);
    }
  }

  lemma {:induction false} ClearAllCanonical(m: Store, keys: seq<int64>)
    requires Canonical(m)
    ensures Canonical(ClearAll(m, keys))
    decreases |keys|
  {
    if keys != [] {
      PointOpsKeepCanonical(m, keys[0]);
      ClearAllCanonical(ClearKey(m, keys[0]), keys[1..]);
    }
  }

  predicate Distinct(keys: seq<int64>)
  {
    forall i, j :: 0 <= i < j < |keys| ==> keys[i] != keys[j]
  }

  lemma {:induction false} SetAllCount(m: Store, keys: seq<int64>)
    requires Distinct(keys)
    requires forall k :: k in keys ==> !Has(m, k)
    ensures SumPop(SetAll(m, keys)) == SumPop(m) + |keys|
    decreases |keys|
  {
    if keys != [] {
      SetKeyCount(m, keys[0]);
      forall k | k in keys[1..] ensures !Has(SetKey(m, keys[0]), k) {
        SetKeyMembers(m, keys[0], k);
      }
      SetAllCount(SetKey(m, keys[0]), keys[1..]);
    }
  }

  /** Setting N distinct keys in an empty set gives a count of N. */
  lemma SetDistinctCount(keys: seq<int64>)
    requires Distinct(keys)
    ensures SumPop(SetAll(map[], keys)) == |keys|
  {
    SetAllCount(map[], keys);
  }

  /** Setting keys in an empty set and then clearing them all leaves the store empty. */
  lemma SetThenClearEmpty(keys: seq<int64>)
    ensures ClearAll(SetAll(map[], keys), keys) == map[]
  {
    var m := SetAll(map[], keys);
    SetAllCanonical(map[], keys);
    ClearAllCanonical(m, keys);
    forall key ensures !Has(ClearAll(m, keys), key) {
      ClearAllMembers(m, keys, key);
      SetAllMembers(map[], keys, key);
    }
    NoMembersEmpty(ClearAll(m, keys));
  }

  // ---------------------------------------------------------------------
  // Set algebra

  /** `Intersection`: the words present in both stores, ANDed, zero results dropped. */
  function Inter(a: Store, b: Store): Store
  {
    map k | k in a && k in b && a[k] & b[k] != 0 :: a[k] & b[k]
  }

  /** Copy-mode `RemoveIntersection`: every word of `a` with the bits of `b` removed, zero results kept. */
  function DiffCopy(a: Store, b: Store): Store
  {
    map k | k in a :: a[k] & !Get(b, k)
  }

  /**
   * In-place `RemoveIntersection`: as in copy mode, except that a word the
   * subtraction turned to zero is deleted (a word of `a` that was already zero stays).
   */
  function DiffInPlace(a: Store, b: Store): Store
  {
    map k | k in a && (a[k] == 0 || a[k] & !Get(b, k) != 0) :: a[k] & !Get(b, k)
  }

  /** `Union`: every word index of either store, with the words ORed. */
  function Union(a: Store, b: Store): Store
  {
    map k | k in a.Keys + b.Keys :: Get(a, k) | Get(b, k)
  }

  lemma InterGet(a: Store, b: Store, w: int64)
    ensures Get(Inter(a, b), w) == Get(a, w) & Get(b, w)
  {
    InterAt(a, b, w);
    if w !in a || w !in b {
      AndZero(Get(a, w), Get(b, w));
    }
  }

  /** The intersection holds no zero word and no index missing from either operand. */
  lemma InterShape(a: Store, b: Store)
    ensures NoZero(Inter(a, b))
    ensures Inter(a, b).Keys <= a.Keys * b.Keys
  {
  }

  lemma InterMembers(a: Store, b: Store, key: int64)
    ensures Has(Inter(a, b), key) <==> Has(a, key) && Has(b, key)
  {
    InterGet(a, b, Key2Idx(key).outer);
    AndAt(Get(a, Key2Idx(key).outer), Get(b, Key2Idx(key).outer), Key2Idx(key).inner);
  }

  lemma DiffCopyGetIn(a: Store, b: Store, w: int64)
    requires w in a
    ensures Get(DiffCopy(a, b), w) == Get(a, w) & !Get(b, w)
  {
  }

  lemma DiffCopyGetOut(a: Store, b: Store, w: int64)
    requires w !in a
    ensures Get(DiffCopy(a, b), w) == Get(a, w) & !Get(b, w)
  {
    ZeroAndNot(Get(b, w));
  }

  lemma DiffCopyGet(a: Store, b: Store, w: int64)
    ensures Get(DiffCopy(a, b), w) == Get(a, w) & !Get(b, w)
  {
    if w in a { DiffCopyGetIn(a, b, w); } else { DiffCopyGetOut(a, b, w); }
  }

  lemma DiffInPlaceGetKept(a: Store, b: Store, w: int64)
    requires w in a && (a[w] == 0 || a[w] & !Get(b, w) != 0)
    ensures Get(DiffInPlace(a, b), w) == Get(a, w) & !Get(b, w)
  {
    assert w in DiffInPlace(a, b);
  }

  lemma DiffInPlaceGetDropped(a: Store, b: Store, w: int64)
    requires w in a && a[w] != 0 && a[w] & !Get(b, w) == 0
    ensures Get(DiffInPlace(a, b), w) == Get(a, w) & !Get(b, w)
  {
  }

  lemma DiffInPlaceGet(a: Store, b: Store, w: int64)
    ensures Get(DiffInPlace(a, b), w) == Get(a, w) & !Get(b, w)
  {
    if w !in a {
      ZeroAndNot(Get(b, w));
    } else if a[w] == 0 || a[w] & !Get(b, w) != 0 {
      DiffInPlaceGetKept(a, b, w);
    } else {
      DiffInPlaceGetDropped(a, b, w);
    }
  }

  lemma UnionGetIn(a: Store, b: Store, w: int64)
    requires w in a || w in b
    ensures Get(Union(a, b), w) == Get(a, w) | Get(b, w)
  {
  }

  lemma UnionGet(a: Store, b: Store, w: int64)
    ensures Get(Union(a, b), w) == Get(a, w) | Get(b, w)
  {
    if w in a || w in b { UnionGetIn(a, b, w); } else { ZeroAndNot(0); }
  }

  lemma DiffCopyMembers(a: Store, b: Store, key: int64)
    ensures Has(DiffCopy(a, b), key) <==> Has(a, key) && !Has(b, key)
  {
    DiffCopyGet(a, b, Key2Idx(key).outer);
    AndNotAt(Get(a, Key2Idx(key).outer), Get(b, Key2Idx(key).outer), Key2Idx(key).inner);
  }

  lemma DiffInPlaceMembers(a: Store, b: Store, key: int64)
    ensures Has(DiffInPlace(a, b), key) <==> Has(a, key) && !Has(b, key)
  {
    DiffInPlaceGet(a, b, Key2Idx(key).outer);
    AndNotAt(Get(a, Key2Idx(key).outer), Get(b, Key2Idx(key).outer), Key2Idx(key).inner);
  }

  lemma UnionMembers(a: Store, b: Store, key: int64)
    ensures Has(Union(a, b), key) <==> Has(a, key) || Has(b, key)
  {
    UnionGet(a, b, Key2Idx(key).outer);
    OrAt(Get(a, Key2Idx(key).outer), Get(b, Key2Idx(key).outer), Key2Idx(key).inner);
  }

  /** On a store without zero words the in-place difference is the copy-mode one with its zero words dropped. */
  lemma DiffModes(a: Store, b: Store)
    requires NoZero(a)
    ensures DiffInPlace(a, b) == map k | k in DiffCopy(a, b) && DiffCopy(a, b)[k] != 0 :: DiffCopy(a, b)[k]
    ensures NoZero(DiffInPlace(a, b))
  {
  }

  /**
   * Copy-mode `RemoveIntersection` of a set with itself stores a zero word:
   * the result has no member, yet its store is not empty.
   */
  lemma DiffCopyStoresZeroWord()
    ensures DiffCopy(map[0 := 1], map[0 := 1]) == map[0 := 0]
    ensures forall key :: !Has(map[0 := 0], key)
  {
    assert DiffCopy(map[0 := 1], map[0 := 1]).Keys == {0};
  }

  lemma InterSelf(a: Store)
    requires NoZero(a)
    ensures Inter(a, a) == a
  {
  }

  lemma UnionSelf(a: Store)
    ensures Union(a, a) == a
  {
  }

  lemma DiffSelf(a: Store)
    requires NoZero(a)
    ensures DiffInPlace(a, a) == map[]
    ensures forall key :: !Has(DiffCopy(a, a), key)
  {
    forall key ensures !Has(DiffCopy(a, a), key) {
      DiffCopyMembers(a, a, key);
    }
    assert DiffInPlace(a, a).Keys == {};
  }

  /** The intersection of canonical stores is canonical. */
  lemma InterCanonical(a: Store, b: Store)
    requires Canonical(a) && Canonical(b)
    ensures Canonical(Inter(a, b))
  {
    forall w, p | w in Inter(a, b) && HasBit(Inter(a, b)[w], p) ensures Encodable(Idx(w, p)) {
      AndAt(a[w], b[w], p);
    }
  }

  /** The in-place difference keeps a canonical store canonical, whatever it subtracts. */
  lemma DiffInPlaceCanonical(a: Store, b: Store)
    requires Canonical(a)
    ensures Canonical(DiffInPlace(a, b))
  {
    DiffModes(a, b);
    forall w, p | w in DiffInPlace(a, b) && HasBit(DiffInPlace(a, b)[w], p) ensures Encodable(Idx(w, p)) {
      AndNotAt(a[w], Get(b, w), p);
    }
  }

  /**
   * The copy-mode difference keeps every stored bit the image of a key,
   * though it may store zero words.
   */
  lemma DiffCopyEncodable(a: Store, b: Store)
    requires BitsEncodable(a)
    ensures BitsEncodable(DiffCopy(a, b))
  {
    forall w, p | w in DiffCopy(a, b) && HasBit(DiffCopy(a, b)[w], p) ensures Encodable(Idx(w, p)) {
      AndNotAt(a[w], Get(b, w), p);
    }
  }

  /** The union of canonical stores is canonical. */
  lemma UnionCanonical(a: Store, b: Store)
    requires Canonical(a) && Canonical(b)
    ensures Canonical(Union(a, b))
  {
    var u := Union(a, b);
    forall w | w in u ensures u[w] != 0 {
      OrNonZero(Get(a, w), Get(b, w));
    }
    forall w, p | w in u && HasBit(u[w], p) ensures Encodable(Idx(w, p)) {
      OrAt(Get(a, w), Get(b, w), p);
    }
  }

  /** Union and intersection of canonical stores are canonical, and so is the in-place difference. */
  lemma AlgebraKeepsCanonical(a: Store, b: Store)
    requires Canonical(a) && Canonical(b)
    ensures Canonical(Inter(a, b)) && Canonical(DiffInPlace(a, b)) && Canonical(Union(a, b))
  {
    InterCanonical(a, b);
    DiffInPlaceCanonical(a, b);
    UnionCanonical(a, b);
  }


  // ---------------------------------------------------------------------
  // The set algebra built one word at a time, as the `range` loops do

  /** The first loop of `Union`: each word of `a` ORed with the word of `b` at its index. */
  function OrOver(a: Store, b: Store): Store
  {
    map k | k in a :: a[k] | Get(b, k)
  }

  /** The words of `b` at indices that `a` lacks: what the second loop of `Union` adds. */
  function Missing(a: Store, b: Store): Store
  {
    map k | k in b && k !in a :: b[k]
  }

  /** At an index only `b` has, the union holds `b`'s word `y`. */
  lemma UnionAtMissing(a: Store, b: Store, k: int64, y: bv64)
    requires k in b && k !in a && y == b[k]
    ensures Union(a, b)[k] == y
  {
    ZeroAndNot(y);
  }

  /** The two loops of `Union` together give the union. */
  lemma UnionByLoops(a: Store, b: Store)
    ensures OrOver(a, b) + Missing(a, b) == Union(a, b)
  {
    forall k | k in b && k !in a ensures Union(a, b)[k] == b[k] {
      UnionAtMissing(a, b, k, b[k]);
    }
  }

  /** Membership and value of one index of the intersection. */
  lemma InterAt(a: Store, b: Store, k: int64)
    ensures k in Inter(a, b) <==> k in a && k in b && a[k] & b[k] != 0
    ensures k in Inter(a, b) ==> Inter(a, b)[k] == a[k] & b[k]
  {
  }

  /**
   * A word of `a` that the difference empties is deleted in place exactly
   * when it was not already zero, which is when it lies in the intersection.
   */
  lemma DiffDropped(a: Store, b: Store, k: int64, x: bv64, y: bv64)
    requires k in a && x == a[k] && y == Get(b, k)
    ensures (k in Inter(a, b) && DiffCopy(a, b)[k] == 0) <==> k !in DiffInPlace(a, b)
  {
    InterAt(a, b, k);
    AndNotIntersection(x, y);
  }

  /** One more visited index, in the part of a result built so far. */
  lemma RestrictStep(t: Store, done: set<int64>, k: int64)
    ensures k in t ==> Restrict(t, done + {k}) == Restrict(t, done)[k := t[k]]
    ensures k !in t ==> Restrict(t, done + {k}) == Restrict(t, done)
  {
  }

  /** Writing a word into the overriding part of `a + x` is writing it into `a + x`. */
  lemma OverrideUpdate(a: Store, x: Store, k: int64, v: bv64)
    ensures (a + x)[k := v] == a + x[k := v]
  {
  }

  /**
   * The in-place intersection's second loop: deleting the listed words, which
   * are those of `a` not in the intersection, leaves the intersection.
   */
  lemma InterInPlaceResult(a: Store, b: Store, deleted: seq<int64>)
    requires forall k :: k in deleted <==> k in a && k !in Inter(a, b)
    ensures (map k | k in a + Inter(a, b) && k !in deleted :: (a + Inter(a, b))[k]) == Inter(a, b)
  {
  }

  /** The index `k` of `a` is one the in-place difference collects: the intersection has a word there and subtracting it leaves zero. */
  predicate Emptied(a: Store, b: Store, k: int64)
    requires k in a
  {
    k in Inter(a, b) && DiffCopy(a, b)[k] == 0
  }

  /**
   * The in-place difference's second loop: deleting the words the difference
   * emptied and that lay in the intersection leaves the in-place difference.
   */
  lemma DiffInPlaceResult(a: Store, b: Store, deleted: seq<int64>)
    requires forall k :: k in deleted <==> k in a && Emptied(a, b, k)
    ensures (map k | k in a + DiffCopy(a, b) && k !in deleted :: (a + DiffCopy(a, b))[k]) == DiffInPlace(a, b)
  {
    forall k | k in a ensures k in deleted <==> k !in DiffInPlace(a, b) {
      DiffDropped(a, b, k, a[k], Get(b, k));
    }
  }
  /** An index the pass has not yet visited still holds the word of `a`. */
  lemma Unvisited(a: Store, t: Store, done: set<int64>, k: int64)
    requires k in a && k !in done
    ensures Get(a + Restrict(t, done), k) == a[k]
  {
  }

  /** Writing back the word `a` already holds at an index not yet overridden changes nothing. */
  lemma OverrideKeep(a: Store, x: Store, k: int64)
    requires k in a && k !in x
    ensures a + x[k := a[k]] == a + x
  {
  }

  /** Overriding every index of `a` leaves only the overriding map. */
  lemma OverrideAll(a: Store, x: Store)
    requires a.Keys <= x.Keys
    ensures a + x == x
  {
  }

  /**
   * One visit of `Intersection`'s pass: the word `v` of `a` at `k`, with
   * `other`'s lookup giving `ok` and the word `y` there, belongs to the
   * intersection exactly when `ok` holds and `n = v & y` is non-zero, and is
   * then stored as `n`.
   */
  lemma InterVisit(a: Store, b: Store, k: int64, n: bv64, ok: bool)
    requires k in a && ok == (k in b) && n == And(a[k], Get(b, k))
    ensures k in Inter(a, b) <==> ok && n != 0
    ensures k in Inter(a, b) ==> Inter(a, b)[k] == n
  {
    InterAt(a, b, k);
  }

  /**
   * One visit of `RemoveIntersection`'s pass: where the intersection has the
   * word `iv`, the difference holds `n = v &^ iv`; elsewhere it holds `a`'s
   * word; and the word is one the in-place pass deletes exactly when `ok`
   * holds and `n` is zero.
   */
  lemma DiffVisit(a: Store, b: Store, k: int64, iv: bv64, ok: bool, n: bv64)
    requires k in a && ok == (k in Inter(a, b)) && iv == Get(Inter(a, b), k) && n == AndNot(a[k], iv)
    ensures ok ==> DiffCopy(a, b)[k] == n
    ensures !ok ==> DiffCopy(a, b)[k] == a[k]
    ensures ok && n == 0 <==> Emptied(a, b, k)
  {
    DiffCopyAt(a, b, k, a[k], Get(b, k));
  }

  lemma DiffCopyAt(a: Store, b: Store, k: int64, x: bv64, y: bv64)
    requires k in a && x == a[k] && y == Get(b, k)
    ensures k in Inter(a, b) ==> AndNot(x, Inter(a, b)[k]) == DiffCopy(a, b)[k]
    ensures k !in Inter(a, b) ==> x == DiffCopy(a, b)[k]
  {
    InterAt(a, b, k);
    AndNotIntersection(x, y);
  }

  /** One visit of `Union`'s first pass: `v | y` stored when `other`'s word `y` is non-zero, `v` otherwise. */
  lemma OrVisit(a: Store, b: Store, k: int64, y: bv64)
    requires k in a && y == Get(b, k)
    ensures y != 0 ==> OrOver(a, b)[k] == Or(a[k], y)
    ensures y == 0 ==> OrOver(a, b)[k] == a[k]
  {
    OrOverAt(a, b, k);
    OrZero(a[k], y);
  }

  lemma OrOverAt(a: Store, b: Store, k: int64)
    requires k in a
    ensures OrOver(a, b)[k] == a[k] | Get(b, k)
  {
  }
}
