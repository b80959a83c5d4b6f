/**
 * The key codec: how a signed 64-bit key is split into a word index and a bit
 * position (`key_2_idx`), and how the iterators turn a (word index, bit
 * position) pair back into a key.  Go's `/` and `%` truncate toward zero and
 * its int64 arithmetic wraps around; both are written out here.
 */
module Codec {
  import opened Bits

  const MinInt64: int := -0x8000_0000_0000_0000
  const MaxInt64: int := 0x7FFF_FFFF_FFFF_FFFF
  const Modulus: int := 0x1_0000_0000_0000_0000

  /** Go's int64. */
  type int64 = x: int | -0x8000_0000_0000_0000 <= x < 0x8000_0000_0000_0000

  /** `unit_bit_len`: the number of keys packed into one word. */
  const UnitBitLen: int := 64

  /** The largest word index `key_2_idx` produces, 2^57 - 1. */
  const MaxWord: int := 0x1FF_FFFF_FFFF_FFFF

  /** The int64 that Go's wrapping arithmetic yields for the exact value `x`. */
  function Wrap(x: int): (r: int64)
    ensures (x - r) % Modulus == 0
    ensures MinInt64 <= x <= MaxInt64 ==> r == x
  {
    (x - MinInt64) % Modulus + MinInt64
  }

  /** Wrapping an intermediate result does not change the final wrapped value. */
  lemma WrapAdd(x: int, c: int)
    ensures Wrap(Wrap(x) + c) == Wrap(x + c)
  {
    var k := (x - Wrap(x)) / Modulus;
    assert x == Wrap(x) + k * Modulus;
    assert (Wrap(x) + c - MinInt64) % Modulus == (x + c - MinInt64) % Modulus by {
      assert x + c - MinInt64 == (Wrap(x) + c - MinInt64) + k * Modulus;
    }
  }

  /** Two values wrap to the same int64 exactly when they agree modulo 2^64. */
  lemma WrapIs(x: int, k: int64)
    ensures Wrap(x) == k <==> (x - k) % Modulus == 0
  {
    if (x - k) % Modulus == 0 {
      var j := (x - k) / Modulus;
      assert x - MinInt64 == (k - MinInt64) + j * Modulus;
      assert (x - MinInt64) % Modulus == k - MinInt64;
    }
  }

  /** Go's `a / b` for b > 0: the quotient truncated toward zero. */
  function Quo(a: int, b: int): (q: int)
    requires b > 0
    ensures a >= 0 ==> b * q <= a < b * q + b
    ensures a < 0 ==> b * q - b < a <= b * q
  {
    if a >= 0 then a / b else -((-a) / b)
  }

  /** Go's `a % b` for b > 0: the remainder takes the sign of `a`. */
  function Rem(a: int, b: int): (r: int)
    requires b > 0
    ensures a == b * Quo(a, b) + r
    ensures a >= 0 ==> 0 <= r < b
    ensures a < 0 ==> -b < r <= 0
  {
    a - b * Quo(a, b)
  }

  /** A word index and a bit position, the result of `key_2_idx`. */
  datatype Idx = Idx(outer: int64, inner: Pos)

  /**
   * The pairs `key_2_idx` can produce: word indices from -2^57 - 1 to 2^57 - 1,
   * except that word -1 never uses position 0 and word -2^57 - 1 uses only
   * position 0.
   */
  predicate Encodable(r: Idx)
  {
    if r.outer >= 0 then r.outer <= MaxWord
    else if r.outer == -1 then r.inner != 0
    else if r.outer == -MaxWord - 2 then r.inner == 0
    else -MaxWord - 2 < r.outer
  }

  /**
   * `key_2_idx`: truncating division and remainder by 64; a negative key then
   * moves one word down and uses the negated remainder as its position.
   */
  function Key2Idx(key: int64): (r: Idx)
    ensures key < 0 <==> r.outer < 0
    ensures Encodable(r)
  {
    var outer, inner := Quo(key, UnitBitLen), Rem(key, UnitBitLen);
    if key < 0 then Idx(outer - 1, (-inner) as Pos) else Idx(outer, inner as Pos)
  }

  /**
   * The decode inlined in `Iterate`: word `w` and position `p` give the key
   * `(w + 1) * 64 - p` for a negative `w` and `w * 64 + p` otherwise, each
   * operation in wrapping int64 arithmetic.  On an encodable pair nothing wraps.
   */
  function Decode(outIdx: int64, innerIdx: Pos): (key: int64)
    ensures Encodable(Idx(outIdx, innerIdx)) ==>
      key as int == if outIdx < 0 then (outIdx as int + 1) * 64 - innerIdx as int
                    else outIdx as int * 64 + innerIdx as int
  {
    if outIdx < 0 then
      DecodeNegativeExact(outIdx, innerIdx);
      Wrap(Wrap((outIdx + 1) * UnitBitLen) + -(innerIdx as int))
    else
      DecodeNonNegativeExact(outIdx, innerIdx);
      Wrap(Wrap(outIdx * UnitBitLen) + innerIdx as int)
  }

  /** For an encodable pair with a negative word, neither step of the decode wraps. */
  lemma DecodeNegativeExact(w: int64, p: Pos)
    requires w < 0
    ensures Encodable(Idx(w, p)) ==>
      Wrap(Wrap((w + 1) * 64) + -(p as int)) == (w as int + 1) * 64 - p as int
  {
    if Encodable(Idx(w, p)) {
      var x := (w as int + 1) * 64;
      assert MinInt64 <= x <= 0;
      assert Wrap(x) == x;
      assert MinInt64 <= x - p as int;
    }
  }

  /** For an encodable pair with a non-negative word, neither step of the decode wraps. */
  lemma DecodeNonNegativeExact(w: int64, p: Pos)
    requires w >= 0
    ensures Encodable(Idx(w, p)) ==>
      Wrap(Wrap(w * 64) + p as int) == w as int * 64 + p as int
  {
    if Encodable(Idx(w, p)) {
      var x := w as int * 64;
      assert 0 <= x <= MaxInt64 - 63;
      assert Wrap(x) == x;
    }
  }

  /** The decode of `BitSetSync.Iterate`: `w * 64 + p` without the negative-word correction. */
  function SyncDecode(outIdx: int64, innerIdx: Pos): (key: int64)
    ensures (outIdx as int * 64 + innerIdx as int - key as int) % Modulus == 0
  {
    SyncDecodeWraps(outIdx, innerIdx);
    Wrap(Wrap(outIdx * UnitBitLen) + innerIdx as int)
  }

  /** The two wrapping steps of the sync decode wrap the exact value `w * 64 + p` once. */
  lemma SyncDecodeWraps(w: int64, p: Pos)
    ensures (w as int * 64 + p as int - Wrap(Wrap(w * 64) + p as int) as int) % Modulus == 0
  {
    var x := w as int * 64 + p as int;
    WrapAdd(w * 64, p as int);
    assert Wrap(Wrap(w * 64) + p as int) == Wrap(x);
  }

  // ---------------------------------------------------------------------
  // The codec is a bijection between keys and encodable pairs

  /** A position survives the conversion to a byte and back; split by range, which the solver handles much faster. */
  lemma PosRoundTrip(x: int)
    requires 0 <= x < 64
    ensures (x as Pos) as int == x
  {
    if x < 8 { } else if x < 16 { } else if x < 24 { } else if x < 32 { }
    else if x < 40 { } else if x < 48 { } else if x < 56 { } else { }
  }

  /** Decoding inverts `key_2_idx` on every int64 key. */
  lemma DecodeEncode(key: int64)
    ensures Decode(Key2Idx(key).outer, Key2Idx(key).inner) == key
  {
    if key < 0 {
      DecodeEncodeNegative(key);
    } else {
      DecodeEncodeNonNegative(key);
    }
  }

  lemma DecodeEncodeNegative(key: int64)
    requires key < 0
    ensures Decode(Key2Idx(key).outer, Key2Idx(key).inner) == key
  {
    var r := Key2Idx(key);
    var q, m := Quo(key, 64), Rem(key, 64);
    PosRoundTrip(-m);
    assert r == Idx(q - 1, (-m) as Pos);
    assert (r.outer as int + 1) * 64 - r.inner as int == key;
  }

  lemma DecodeEncodeNonNegative(key: int64)
    requires key >= 0
    ensures Decode(Key2Idx(key).outer, Key2Idx(key).inner) == key
  {
    var r := Key2Idx(key);
    var q, m := Quo(key, 64), Rem(key, 64);
    PosRoundTrip(m);
    assert r == Idx(q, m as Pos);
    assert r.outer as int * 64 + r.inner as int == key;
  }

  /** `key_2_idx` inverts the decode on every encodable pair. */
  lemma EncodeDecode(r: Idx)
    requires Encodable(r)
    ensures Key2Idx(Decode(r.outer, r.inner)) == r
  {
    var key := Decode(r.outer, r.inner);
    var w, p := r.outer as int, r.inner as int;
    if w >= 0 {
      assert key == w * 64 + p;
      assert Quo(key, 64) == w;
      PosRoundTrip(p);
    } else {
      assert key == (w + 1) * 64 - p;
      assert key < 0;
      if p == 0 {
        assert Quo(key, 64) == w + 1;
      } else {
        assert -key == -(w + 1) * 64 + p;
        assert (-key) / 64 == -(w + 1);
        assert Quo(key, 64) == w + 1;
        assert Rem(key, 64) == -p;
      }
      PosRoundTrip(p);
    }
  }

  /** Distinct keys never share a word and position. */
  lemma Key2IdxInjective(a: int64, b: int64)
    requires Key2Idx(a) == Key2Idx(b)
    ensures a == b
  {
    DecodeEncode(a);
    DecodeEncode(b);
  }

  /** Word -1, position 0 is produced by no key; decoding it gives key 0, which lives in word 0. */
  lemma UnusedPair(key: int64)
    ensures Key2Idx(key) != Idx(-1, 0)
    ensures Decode(-1, 0) == 0 && Key2Idx(0) == Idx(0, 0)
  {
  }

  /** Key -1 is position 1 of word -1. */
  lemma Key2IdxMinusOne()
    ensures Key2Idx(-1) == Idx(-1, 1)
  {
  }

  /** Key -32 is position 32 of word -1. */
  lemma Key2IdxMinusThirtyTwo()
    ensures Key2Idx(-32) == Idx(-1, 32)
  {
  }

  /** Key -63 is position 63 of word -1. */
  lemma Key2IdxMinusSixtyThree()
    ensures Key2Idx(-63) == Idx(-1, 63)
  {
  }

  /** Key -65 is position 1 of word -2. */
  lemma Key2IdxMinusSixtyFive()
    ensures Key2Idx(-65) == Idx(-2, 1)
  {
  }

  /** Boundary values of the encoding. */
  lemma Key2IdxExamples()
    ensures Key2Idx(-1) == Idx(-1, 1)
    ensures Key2Idx(-32) == Idx(-1, 32)
    ensures Key2Idx(-63) == Idx(-1, 63)
    ensures Key2Idx(-64) == Idx(-2, 0)
    ensures Key2Idx(-65) == Idx(-2, 1)
    ensures Key2Idx(-128) == Idx(-3, 0)
    ensures Key2Idx(63) == Idx(0, 63)
    ensures Key2Idx(64) == Idx(1, 0)
    ensures Key2Idx(MinInt64) == Idx(-MaxWord - 2, 0)
    ensures Key2Idx(MaxInt64) == Idx(MaxWord, 63)
  {
    Key2IdxMinusOne();
    Key2IdxMinusThirtyTwo();
    Key2IdxMinusSixtyThree();
    Key2IdxMinusSixtyFive();
  }

  // ---------------------------------------------------------------------
  // The decode of BitSetSync.Iterate

  /**
   * `SyncDecode` inverts `key_2_idx` for every non-negative key, but for a
   * negative key only when its position is 32, the one position where
   * `w * 64 + p` and `(w + 1) * 64 - p` coincide.
   */
  lemma SyncDecodeInverts(key: int64)
    ensures SyncDecode(Key2Idx(key).outer, Key2Idx(key).inner) == key
        <==> key >= 0 || Key2Idx(key).inner == 32
  {
    var r := Key2Idx(key);
    var w, p := r.outer as int, r.inner as int;
    DecodeEncode(key);
    var s := w * 64 + p;
    WrapAdd(w * 64, p);
    WrapIs(s, key);
    if key < 0 {
      assert key == (w + 1) * 64 - p;
      assert s - key == 2 * p - 64;
      assert -64 <= s - key < 64;
      assert (s - key) % Modulus == 0 <==> s - key == 0;
    } else {
      assert s == key;
    }
  }

  /** The sync decode of key -1, stored at word -1 position 1, is -63. */
  lemma SyncDecodeMinusOne()
    ensures SyncDecode(-1, 1) == -63
  {
  }

  /** Position 32 of word -1, where key -32 sits, is the one place both decodes agree on a negative word. */
  lemma SyncDecodeMinusThirtyTwo()
    ensures SyncDecode(-1, 32) == -32
  {
  }

  /** The sync decode of the smallest key wraps around past the largest. */
  lemma SyncDecodeMinInt64()
    ensures SyncDecode(-MaxWord - 2, 0) == MaxInt64 - 63
  {
    WrapIs((-MaxWord - 2) * 64, MaxInt64 - 63);
  }
}
