/**
 * What `Iterate` passes to its visitor.  For one word the keys of its set
 * bits go out lowest bit first, and the word is abandoned at the first key
 * the visitor refuses; the words themselves are taken in store order, and a
 * refusal never stops the traversal of the other words.
 */
module Iteration {
  import opened Bits
  import opened Codec
  import opened Words

  /** The two decodes in the source: the core's, with the negative-word correction, and the sync one without. */
  datatype Decoding = Core | Sync

  /** The key passed to the visitor for bit `p` of word `w`. */
  function KeyAt(d: Decoding, w: int64, p: Pos): int64
  {
    match d
    case Core => Decode(w, p)
    case Sync => SyncDecode(w, p)
  }

  /** The key of each position of word `w` under decode `d`. */
  function WordKeys(d: Decoding, w: int64): Pos -> int64
  {
    p => KeyAt(d, w, p)
  }

  /**
   * The keys offered for the remaining word `v`, with `key` giving the key of
   * each position: find the lowest set bit with `TrailingZeros`, offer its
   * key, and unless the visitor refuses it, clear that bit and go on.
   */
  function Scan(key: Pos -> int64, v: bv64, visit: int64 -> bool): seq<int64>
    decreases PopCount(v)
  {
    var p := TrailingZeros(v);
    if p == 64 then []
    else if !visit(key(p as Pos)) then [key(p as Pos)]
    else
      TrailingZerosSet(v);
      UnsetCount(v, p as Pos);
      [key(p as Pos)] + Scan(key, Unset(v, p as Pos), visit)
  }

  /** The keys offered for the words of `m` taken in the order `order`. */
  function Trace(d: Decoding, m: Store, order: seq<int64>, visit: int64 -> bool): seq<int64>
    requires forall i :: 0 <= i < |order| ==> order[i] in m
    decreases |order|
  {
    if order == [] then []
    else
      var w := order[|order| - 1];
      Trace(d, m, order[..|order| - 1], visit) + Scan(WordKeys(d, w), m[w], visit)
  }

  /** `order` lists every word index of `m` exactly once. */
  ghost predicate Enumerates(order: seq<int64>, m: Store)
  {
    && (forall i, j :: 0 <= i < j < |order| ==> order[i] != order[j])
    && (forall w :: w in m <==> w in order)
  }

  /** Every set bit of word `v` at index `w` is a pair that some key encodes to. */
  ghost predicate WordEncodable(w: int64, v: bv64)
  {
    forall q: Pos :: HasBit(v, q) ==> Encodable(Idx(w, q))
  }

  // ---------------------------------------------------------------------
  // One word

  /** One step of a scan whose lowest set bit is accepted. */
  lemma ScanStep(key: Pos -> int64, v: bv64, visit: int64 -> bool)
    requires TrailingZeros(v) < 64 && visit(key(TrailingZeros(v) as Pos))
    ensures Scan(key, v, visit)
         == [key(TrailingZeros(v) as Pos)] + Scan(key, Unset(v, TrailingZeros(v) as Pos), visit)
  {
  }

  /** The accepted lowest bit `p` is offered first and the scan goes on over the word without it. */
  lemma ScanStepAt(key: Pos -> int64, v: bv64, visit: int64 -> bool, p: Pos)
    requires TrailingZeros(v) == p as Index && visit(key(p))
    ensures Scan(key, v, visit) == [key(p)] + Scan(key, Unset(v, p), visit)
    ensures PopCount(Unset(v, p)) + 1 == PopCount(v)
    ensures HasBit(v, p)
  {
    ScanStep(key, v, visit);
    TrailingZerosSet(v);
    UnsetCount(v, p);
  }

  lemma Assoc(a: seq<int64>, k: int64, s: seq<int64>)
    ensures a + ([k] + s) == (a + [k]) + s
  {
  }

  /** A scan whose lowest set bit is refused ends with that bit's key. */
  lemma ScanStop(key: Pos -> int64, v: bv64, visit: int64 -> bool, p: Pos)
    requires TrailingZeros(v) == p as Index && !visit(key(p))
    ensures Scan(key, v, visit) == [key(p)]
    ensures HasBit(v, p)
  {
    TrailingZerosSet(v);
  }

  /** The scan of a zero word is empty. */
  lemma ScanEmpty(key: Pos -> int64, v: bv64, visit: int64 -> bool)
    requires TrailingZeros(v) == 64
    ensures v == 0
    ensures Scan(key, v, visit) == []
  {
  }

  /** One round of `ScanWord`'s loop keeps its invariant and lowers the popcount. */
  lemma ScanAdvance(key: Pos -> int64, v: bv64, u: bv64, visit: int64 -> bool, p: Pos, keys: seq<int64>, v0: bv64)
    requires TrailingZeros(v) == p as Index && visit(key(p)) && u == Unset(v, p)
    requires keys + Scan(key, v, visit) == Scan(key, v0, visit)
    ensures (keys + [key(p)]) + Scan(key, u, visit) == Scan(key, v0, visit)
    ensures PopCount(u) < PopCount(v)
  {
    ScanStepAt(key, v, visit, p);
    Assoc(keys, key(p), Scan(key, u, visit));
  }

  /**
   * The per-word loop of `Iterate`: take the lowest set bit with
   * `TrailingZeros`, offer its key, stop the word if the visitor refuses, and
   * otherwise clear the bit and go on.
   */
  method ScanWord(key: Pos -> int64, v0: bv64, visit: int64 -> bool) returns (keys: seq<int64>)
    ensures keys == Scan(key, v0, visit)
  {
    var v := v0;
    keys := [];
    while true
      invariant keys + Scan(key, v, visit) == Scan(key, v0, visit)
      decreases PopCount(v)
    {
      var p := TrailingZeros(v);
      if p == 64 {
        ScanEmpty(key, v, visit);
        return;
      }
      var k := key(p as Pos);
      if !visit(k) {
        ScanStop(key, v, visit, p as Pos);
        keys := keys + [k];
        return;
      }
      var u := Unset(v, p as Pos);
      ScanAdvance(key, v, u, visit, p as Pos, keys, v0);
      keys, v := keys + [k], u;
    }
  }

  /** With a visitor that accepts every key, a word offers one key per set bit. */
  lemma {:induction false} ScanCount(key: Pos -> int64, v: bv64, visit: int64 -> bool)
    requires forall y :: visit(y)
    ensures |Scan(key, v, visit)| == PopCount(v)
    decreases PopCount(v)
  {
    var t := TrailingZeros(v);
    if t == 64 {
      ScanEmpty(key, v, visit);
      PopCountZero(v);
    } else {
      var p := t as Pos;
      var u := Unset(v, p);
      ScanStepAt(key, v, visit, p);
      ScanCount(key, u, visit);
    }
  }

  /** With an accepting visitor, a key that only position `px` maps to is offered exactly when that bit is set. */
  lemma {:induction false} ScanHit(key: Pos -> int64, v: bv64, visit: int64 -> bool, x: int64, px: Pos)
    requires forall y :: visit(y)
    requires forall q: Pos :: HasBit(v, q) ==> (key(q) == x <==> q == px)
    ensures x in Scan(key, v, visit) <==> HasBit(v, px)
    decreases PopCount(v)
  {
    var t := TrailingZeros(v);
    if t == 64 {
      ScanEmpty(key, v, visit);
      ZeroAndNot(Bit(px));
    } else {
      var p := t as Pos;
      var u := Unset(v, p);
      ScanStepAt(key, v, visit, p);
      forall q: Pos | HasBit(u, q) ensures key(q) == x <==> q == px {
        UnsetAt(v, p, q);
      }
      ScanHit(key, u, visit, x, px);
      UnsetAt(v, p, px);
    }
  }

  /** A key that no set bit maps to is never offered. */
  lemma {:induction false} ScanMiss(key: Pos -> int64, v: bv64, visit: int64 -> bool, x: int64)
    requires forall q: Pos :: HasBit(v, q) ==> key(q) != x
    ensures x !in Scan(key, v, visit)
    decreases PopCount(v)
  {
    var t := TrailingZeros(v);
    if t == 64 {
      ScanEmpty(key, v, visit);
    } else if !visit(key(t as Pos)) {
      ScanStop(key, v, visit, t as Pos);
    } else {
      var p := t as Pos;
      var u := Unset(v, p);
      ScanStepAt(key, v, visit, p);
      forall q: Pos | HasBit(u, q) ensures key(q) != x {
        UnsetAt(v, p, q);
      }
      ScanMiss(key, u, visit, x);
    }
  }

  /**
   * With the core decode and a visitor that accepts every key, a word offers
   * exactly the keys that `key_2_idx` sends to one of its set bits.
   */
  lemma ScanMembers(w: int64, v: bv64, visit: int64 -> bool, x: int64)
    requires forall y :: visit(y)
    requires WordEncodable(w, v)
    ensures x in Scan(WordKeys(Core, w), v, visit) <==> Key2Idx(x).outer == w && HasBit(v, Key2Idx(x).inner)
  {
    var key := WordKeys(Core, w);
    var i := Key2Idx(x);
    DecodeEncode(x);
    if i.outer == w {
      forall q: Pos | HasBit(v, q) ensures key(q) == x <==> q == i.inner {
        EncodeDecode(Idx(w, q));
      }
      ScanHit(key, v, visit, x, i.inner);
    } else {
      forall q: Pos | HasBit(v, q) ensures key(q) != x {
        EncodeDecode(Idx(w, q));
      }
      ScanMiss(key, v, visit, x);
    }
  }

  /** With a visitor that refuses every key, a word offers one key when it is non-zero and none otherwise. */
  lemma ScanAllFalse(key: Pos -> int64, v: bv64, visit: int64 -> bool)
    requires forall y :: !visit(y)
    ensures |Scan(key, v, visit)| == if v == 0 then 0 else 1
  {
    var t := TrailingZeros(v);
    if t == 64 {
      ScanEmpty(key, v, visit);
    } else {
      ScanStop(key, v, visit, t as Pos);
    }
  }

  /** The positions `pos` reads off the keys of `s` strictly increase. */
  ghost predicate AscendingBy(s: seq<int64>, pos: int64 -> Pos)
  {
    forall i, j :: 0 <= i < j < |s| ==> pos(s[i]) < pos(s[j])
  }

  /** Every bit left after clearing the lowest set bit lies above it. */
  lemma AboveLowest(v: bv64, p: Pos, u: bv64)
    requires TrailingZeros(v) == p as Index && u == Unset(v, p)
    ensures forall q: Pos :: HasBit(u, q) ==> p < q && HasBit(v, q)
  {
    forall q: Pos | HasBit(u, q) ensures p < q && HasBit(v, q) {
      UnsetAt(v, p, q);
      TrailingZerosLowest(v, q);
    }
  }

  /** A key placed in front of keys with higher positions keeps them ascending. */
  lemma ConsAscending(k: int64, s: seq<int64>, pos: int64 -> Pos, lo: Pos)
    requires AscendingBy(s, pos)
    requires pos(k) == lo && forall x :: x in s ==> lo < pos(x)
    ensures AscendingBy([k] + s, pos)
  {
    var t := [k] + s;
    forall i, j | 0 <= i < j < |t| ensures pos(t[i]) < pos(t[j]) {
      assert t[j] == s[j - 1] && s[j - 1] in s;
      if i > 0 { assert t[i] == s[i - 1]; }
    }
  }

  /** A word whose set bits all lie above `lo` offers only keys whose positions lie above `lo`. */
  lemma ScanAbove(key: Pos -> int64, pos: int64 -> Pos, v: bv64, visit: int64 -> bool, lo: Pos)
    requires forall q: Pos :: HasBit(v, q) ==> lo < q && pos(key(q)) == q
    ensures forall x :: x in Scan(key, v, visit) ==> lo < pos(x)
  {
    forall x | !(lo < pos(x)) ensures x !in Scan(key, v, visit) {
      ScanMiss(key, v, visit, x);
    }
  }

  /**
   * Whatever the visitor answers, a word offers its keys in ascending bit
   * order, as long as `pos` recovers each set bit's position from its key.
   */
  lemma {:induction false} ScanAscending(key: Pos -> int64, pos: int64 -> Pos, v: bv64, visit: int64 -> bool)
    requires forall q: Pos :: HasBit(v, q) ==> pos(key(q)) == q
    ensures AscendingBy(Scan(key, v, visit), pos)
    decreases PopCount(v)
  {
    var t := TrailingZeros(v);
    if t == 64 {
      ScanEmpty(key, v, visit);
    } else if !visit(key(t as Pos)) {
      ScanStop(key, v, visit, t as Pos);
    } else {
      var p := t as Pos;
      var u := Unset(v, p);
      ScanStepAt(key, v, visit, p);
      AboveLowest(v, p, u);
      ScanAscending(key, pos, u, visit);
      ScanAbove(key, pos, u, visit, p);
      ConsAscending(key(p), Scan(key, u, visit), pos, p);
    }
  }

  /**
   * With the core decode, whatever the visitor answers, the keys a word
   * offers all live in that word, come in ascending bit order and so none is
   * offered twice, as long as every set bit is encodable.
   */
  lemma ScanInWord(w: int64, v: bv64, visit: int64 -> bool)
    requires WordEncodable(w, v)
    ensures forall x :: x in Scan(WordKeys(Core, w), v, visit) ==> Key2Idx(x).outer == w
    ensures forall i, j :: 0 <= i < j < |Scan(WordKeys(Core, w), v, visit)| ==>
      Key2Idx(Scan(WordKeys(Core, w), v, visit)[i]).inner < Key2Idx(Scan(WordKeys(Core, w), v, visit)[j]).inner
    ensures Distinct(Scan(WordKeys(Core, w), v, visit))
  {
    ScanInWordOuter(w, v, visit);
    ScanInWordAscending(w, v, visit);
  }

  lemma ScanInWordOuter(w: int64, v: bv64, visit: int64 -> bool)
    requires WordEncodable(w, v)
    ensures forall x :: x in Scan(WordKeys(Core, w), v, visit) ==> Key2Idx(x).outer == w
  {
    var key := WordKeys(Core, w);
    forall q: Pos | HasBit(v, q) ensures Key2Idx(key(q)) == Idx(w, q) {
      EncodeDecode(Idx(w, q));
    }
    forall x | Key2Idx(x).outer != w ensures x !in Scan(key, v, visit) {
      ScanMiss(key, v, visit, x);
    }
  }

  lemma ScanInWordAscending(w: int64, v: bv64, visit: int64 -> bool)
    requires WordEncodable(w, v)
    ensures forall i, j :: 0 <= i < j < |Scan(WordKeys(Core, w), v, visit)| ==>
      Key2Idx(Scan(WordKeys(Core, w), v, visit)[i]).inner < Key2Idx(Scan(WordKeys(Core, w), v, visit)[j]).inner
  {
    var key := WordKeys(Core, w);
    var s := Scan(key, v, visit);
    forall q: Pos | HasBit(v, q) ensures Key2Idx(key(q)) == Idx(w, q) {
      EncodeDecode(Idx(w, q));
    }
    var pos := x => Key2Idx(x).inner;
    ScanAscending(key, pos, v, visit);
    forall i, j | 0 <= i < j < |s| ensures Key2Idx(s[i]).inner < Key2Idx(s[j]).inner {
      assert pos(s[i]) < pos(s[j]);
    }
  }

  // ---------------------------------------------------------------------
  // All words

  lemma TraceLast(d: Decoding, m: Store, order: seq<int64>, w: int64, visit: int64 -> bool)
    requires forall i :: 0 <= i < |order| ==> order[i] in m
    requires w in m
    ensures Trace(d, m, order + [w], visit) == Trace(d, m, order, visit) + Scan(WordKeys(d, w), m[w], visit)
  {
    assert (order + [w])[..|order|] == order;
  }

  /** The word indices listed in `order`. */
  ghost function Listed(order: seq<int64>): (ks: set<int64>)
    ensures forall k :: k in ks <==> k in order
    decreases |order|
  {
    if order == [] then {} else Listed(order[..|order| - 1]) + {order[|order| - 1]}
  }

  /** Without repetitions, dropping the last index of `order` drops exactly that index from its set. */
  lemma ListedStep(order: seq<int64>)
    requires order != []
    requires forall i, j :: 0 <= i < j < |order| ==> order[i] != order[j]
    ensures Listed(order[..|order| - 1]) == Listed(order) - {order[|order| - 1]}
  {
    var n := |order| - 1;
    assert order[n] !in order[..n];
  }

  /** With a visitor that accepts every key, the trace has one key per set bit of the listed words. */
  lemma {:induction false} TraceCount(d: Decoding, m: Store, order: seq<int64>, visit: int64 -> bool)
    requires forall i :: 0 <= i < |order| ==> order[i] in m
    requires forall i, j :: 0 <= i < j < |order| ==> order[i] != order[j]
    requires forall y :: visit(y)
    ensures |Trace(d, m, order, visit)| == SumPop(Restrict(m, Listed(order)))
    decreases |order|
  {
    if order == [] {
      assert Restrict(m, Listed(order)) == map[];
    } else {
      var n := |order| - 1;
      var w := order[n];
      TraceCount(d, m, order[..n], visit);
      ScanCount(WordKeys(d, w), m[w], visit);
      ListedStep(order);
      SumPopRestrictStep(m, Listed(order), w);
    }
  }

  /** With a visitor that accepts every key, the `Iterate` trace has exactly `Count` keys. */
  lemma TraceCountAll(d: Decoding, m: Store, order: seq<int64>, visit: int64 -> bool)
    requires Enumerates(order, m)
    requires forall y :: visit(y)
    ensures |Trace(d, m, order, visit)| == SumPop(m)
  {
    TraceCount(d, m, order, visit);
    RestrictAll(m, Listed(order));
  }

  /** With the core decode and an accepting visitor, a key is in the trace of a store whose bits all encode keys exactly when it is a member of a listed word. */
  lemma {:induction false} TraceMembersPrefix(m: Store, order: seq<int64>, visit: int64 -> bool, x: int64)
    requires BitsEncodable(m)
    requires forall i :: 0 <= i < |order| ==> order[i] in m
    requires forall y :: visit(y)
    ensures x in Trace(Core, m, order, visit) <==> Has(m, x) && Key2Idx(x).outer in order
    decreases |order|
  {
    if order != [] {
      var n := |order| - 1;
      var w, pre := order[n], order[..n];
      assert order == pre + [w];
      TraceMembersPrefix(m, pre, visit, x);
      assert WordEncodable(w, m[w]);
      ScanMembers(w, m[w], visit, x);
      assert Trace(Core, m, order, visit) == Trace(Core, m, pre, visit) + Scan(WordKeys(Core, w), m[w], visit);
      var i := Key2Idx(x);
      assert i.outer in order <==> i.outer in pre || i.outer == w;
      if i.outer == w {
        assert Has(m, x) <==> HasBit(m[w], i.inner);
      }
    }
  }

  /** With the core decode and an accepting visitor, the trace holds exactly the members. */
  lemma TraceMembers(m: Store, order: seq<int64>, visit: int64 -> bool, x: int64)
    requires BitsEncodable(m)
    requires Enumerates(order, m)
    requires forall y :: visit(y)
    ensures x in Trace(Core, m, order, visit) <==> Has(m, x)
  {
    TraceMembersPrefix(m, order, visit, x);
  }

  /** With a visitor that refuses every key, each stored non-zero word still offers exactly one key. */
  lemma {:induction false} TraceAllFalse(d: Decoding, m: Store, order: seq<int64>, visit: int64 -> bool)
    requires NoZero(m)
    requires forall i :: 0 <= i < |order| ==> order[i] in m
    requires forall y :: !visit(y)
    ensures |Trace(d, m, order, visit)| == |order|
    decreases |order|
  {
    if order != [] {
      var n := |order| - 1;
      TraceAllFalse(d, m, order[..n], visit);
      ScanAllFalse(WordKeys(d, order[n]), m[order[n]], visit);
    }
  }

  /** Two repetition-free sequences with no common element concatenate into one. */
  lemma AppendDistinct(a: seq<int64>, b: seq<int64>)
    requires Distinct(a) && Distinct(b)
    requires forall x :: x in a ==> x !in b
    ensures Distinct(a + b)
  {
    var t := a + b;
    forall i, j | 0 <= i < j < |t| ensures t[i] != t[j] {
      if j >= |a| {
        assert t[j] == b[j - |a|];
        if i >= |a| {
          assert t[i] == b[i - |a|];
        } else {
          assert t[i] == a[i] && a[i] in a && b[j - |a|] in b;
        }
      }
    }
  }

  /** Under the core decode, whatever the visitor answers, every offered key lives in a listed word. */
  lemma {:induction false} TraceOuter(m: Store, order: seq<int64>, visit: int64 -> bool)
    requires BitsEncodable(m)
    requires forall i :: 0 <= i < |order| ==> order[i] in m
    ensures forall x :: x in Trace(Core, m, order, visit) ==> Key2Idx(x).outer in order
    decreases |order|
  {
    if order != [] {
      var n := |order| - 1;
      var w := order[n];
      TraceOuter(m, order[..n], visit);
      ScanInWord(w, m[w], visit);
      assert order == order[..n] + [w];
    }
  }

  /** Under the core decode no key is offered twice, whatever the visitor answers. */
  lemma {:induction false} TraceDistinct(m: Store, order: seq<int64>, visit: int64 -> bool)
    requires BitsEncodable(m)
    requires forall i :: 0 <= i < |order| ==> order[i] in m
    requires forall i, j :: 0 <= i < j < |order| ==> order[i] != order[j]
    ensures Distinct(Trace(Core, m, order, visit))
    decreases |order|
  {
    if order != [] {
      var n := |order| - 1;
      var w := order[n];
      var pre := Trace(Core, m, order[..n], visit);
      var s := Scan(WordKeys(Core, w), m[w], visit);
      TraceDistinct(m, order[..n], visit);
      TraceOuter(m, order[..n], visit);
      ScanInWord(w, m[w], visit);
      assert w !in order[..n];
      AppendDistinct(pre, s);
    }
  }

  /**
   * Without every stored bit the image of a key, a key can be offered twice:
   * bit 0 of word -1, a pair no key produces, decodes to 0 as bit 0 of word 0 does.
   */
  lemma UnencodableRepeats(visit: int64 -> bool)
    ensures !BitsEncodable(map[-1 := Bit(0), 0 := Bit(0)])
    ensures Trace(Core, map[-1 := Bit(0), 0 := Bit(0)], [-1, 0], visit) == [0, 0]
  {
    var m := map[-1 := Bit(0), 0 := Bit(0)];
    UnusedPair(0);
    BitOnly(0, 0);
    assert -1 in m && HasBit(m[-1], 0) && !Encodable(Idx(-1, 0));
    ScanSingle(WordKeys(Core, -1), 0, visit);
    ScanSingle(WordKeys(Core, 0), 0, visit);
    TraceTwo(Core, m, -1, 0, visit);
  }

  /** Traversing two words offers the keys of the first, then those of the second. */
  lemma TraceTwo(d: Decoding, m: Store, u: int64, w: int64, visit: int64 -> bool)
    requires u in m && w in m
    ensures Trace(d, m, [u, w], visit) == Scan(WordKeys(d, u), m[u], visit) + Scan(WordKeys(d, w), m[w], visit)
  {
    var order := [u, w];
    assert order[..1] == [u] && [u][..0] == [];
    assert Trace(d, m, [u], visit) == Scan(WordKeys(d, u), m[u], visit);
    assert Trace(d, m, order, visit) == Trace(d, m, [u], visit) + Scan(WordKeys(d, w), m[w], visit);
  }

  // ---------------------------------------------------------------------
  // A store of one single-bit word

  /** A word holding the one bit `p` offers exactly the key of `p`, whatever the visitor answers. */
  lemma ScanSingle(key: Pos -> int64, p: Pos, visit: int64 -> bool)
    ensures Scan(key, Bit(p), visit) == [key(p)]
  {
    var v := Bit(p);
    BitOnly(p, p);
    TrailingZerosLowest(v, p);
    TrailingZerosSet(v);
    BitOnly(p, TrailingZeros(v) as Pos);
    if visit(key(p)) {
      ScanStepAt(key, v, visit, p);
      UnsetOnly(p);
      ScanEmpty(key, Unset(v, p), visit);
    } else {
      ScanStop(key, v, visit, p);
    }
  }

  /** A duplicate-free sequence has as many entries as it lists indices. */
  lemma {:induction false} ListedSize(order: seq<int64>)
    requires forall i, j :: 0 <= i < j < |order| ==> order[i] != order[j]
    ensures |Listed(order)| == |order|
    decreases |order|
  {
    if order != [] {
      var n := |order| - 1;
      ListedStep(order);
      ListedSize(order[..n]);
    }
  }

  /** A duplicate-free sequence whose only element is `w` is `[w]`. */
  lemma SingletonOrder(order: seq<int64>, w: int64)
    requires forall i, j :: 0 <= i < j < |order| ==> order[i] != order[j]
    requires forall x :: x in order <==> x == w
    ensures order == [w]
  {
    ListedSize(order);
    assert Listed(order) == {w};
    assert order[0] in order;
  }

  /**
   * After setting one key in an empty store, the traversal, whose only order
   * is that one word, offers exactly the key that decode `d` gives for the
   * key's word and position.
   */
  lemma TraceSingle(d: Decoding, key: int64, visit: int64 -> bool)
    ensures SetKey(map[], key) == map[Key2Idx(key).outer := Bit(Key2Idx(key).inner)]
    ensures forall order :: Enumerates(order, SetKey(map[], key)) ==> order == [Key2Idx(key).outer]
    ensures Trace(d, SetKey(map[], key), [Key2Idx(key).outer], visit) == [KeyAt(d, Key2Idx(key).outer, Key2Idx(key).inner)]
  {
    var i := Key2Idx(key);
    var m := SetKey(map[], key);
    SetKeyEmpty(key);
    forall order | Enumerates(order, m) ensures order == [i.outer] {
      SingletonOrder(order, i.outer);
    }
    ScanSingle(WordKeys(d, i.outer), i.inner, visit);
    TraceLast(d, m, [], i.outer, visit);
  }
}
