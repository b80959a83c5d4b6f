# golang-bitset in Dafny

A model of golang-bitset, a sparse set of signed 64-bit keys. A key is split
by `key_2_idx` into a word index and a bit position. The words live in a
key→word store, and only words with some bit set are meant to be stored.
The repository has three versions of the bitset, and each one is a Dafny
class over a store object:

- `BitSet` over the `IDataSource` interface, with `BaseMapSource` as its
  store (bitset_core.go, bitset_source.go);
- `BitSet` written directly over a Go `map[int64]uint64` (bitset.go);
- `BitSetSync` over the `ISyncSource` interface, whose words are `int64`
  (bitset_sync.go).

Modules:

- `Bits`: the word operations on `bv64`, with `bits.TrailingZeros64`,
  `bits.OnesCount64` and the two's-complement reading of a word.
- `Codec`: `key_2_idx`, written with Go's truncating `/` and `%`, and the two
  decodes inlined in the iterators, written with Go's wrapping int64
  arithmetic.
  - The core decode inverts `key_2_idx` on every key.
  - `key_2_idx` is injective. It is not onto: word −1, position 0 is never
    used.
- `Words`: the store as a Dafny `map<int64, bv64>`.
  - The store each point operation leaves, as a function of the old store.
  - What each operation does to membership and to the bit count.
  - The invariant that the point operations keep, called canonical: no
    zero word, and every set bit is the image of a key.
  - The result of each algebra operation, as a map comprehension.
- `Source`: `BaseMapSource` as the class `WordMap`. A Go map is a
  reference, so the store is an object whose `entries` its methods update.
- `Iteration`: what `Iterate` hands to its visitor, given an arbitrary
  order of the words.
  - Within a word, keys come from the lowest bit up, and a refusal ends only
    that word.
  - Proved: how many keys are offered; and, when every stored bit is the
    image of a key (zero words allowed), which keys they are and that none
    repeats. A bit no key produces can repeat a key
    (`Iteration.UnencodableRepeats`).
- `Core` (bitset_core.go), `MapBitSet` (bitset.go) and `Sync`
  (bitset_sync.go): the classes.
  - Every method is proved against the `Words` or `Iteration` function of
    the old state.
  - The callbacks, `range` loops and `deleteKeys` second passes become
    `while` loops. Each picks an arbitrary unvisited word
    (`var k :| k in remaining`).
  - An in-place operation may be given the receiver itself as `other`. Its
    proof covers that aliasing (`other.store == store`).
- `Scenarios`:
  - the package test's keys;
  - the algebra on two small sets with negative keys;
  - a clone not sharing its map;
  - `From` sharing the caller's map;
  - the two `Union` modes agreeing.

Three facts about the code that a reader might not expect:

- `key_2_idx` is injective but not onto: it never produces word −1,
  position 0 (`Codec.UnusedPair`).
- A refusing visitor ends only the current word of `Iterate`; the
  traversal goes on with the next word (`Iteration.TraceAllFalse`).
- Copy-mode `RemoveIntersection` stores zero words
  (`Words.DiffCopyStoresZeroWord`), after which `None()` is false for a set
  with no members.

## Model

| member | source | states |
|---|---|---|
| Bits.TrailingZeros | bitset_core.go:254-257 | `bits.TrailingZeros64`: 64 exactly for the zero word |
| Bits.TrailingZerosSet | bitset_core.go:254 | the position found in a non-zero word is a set bit |
| Bits.TrailingZerosLowest | bitset_core.go:254 | no set bit lies below the position found |
| Bits.ToggleAt | bitset_core.go:74-79 | the toggle in `Flip` changes bit `p` and no other |
| Bits.PopCountSetBit | bitset_core.go:95 | ORing in a clear bit raises `OnesCount64` by one |
| Bits.PopCountClearBit | bitset_core.go:95 | clearing a set bit lowers `OnesCount64` by one |
| Bits.SignedNegative | bitset_sync.go:88 | a word with bit 63 set reads as a negative int64 |
| Bits.SignedNonNegative | bitset_sync.go:88 | a word without bit 63 reads as a non-negative int64 |
| Bits.SignedExamples | bitset_sync.go:88 | bit 63 alone is MinInt64; all ones is −1 |
| Codec.Wrap | bitset_core.go:266 | Go's int64 result of an exact value: congruent to it modulo 2^64, equal to it when it is in range |
| Codec.Quo | bitset_core.go:286 | Go's `/` truncates toward zero |
| Codec.Rem | bitset_core.go:286 | Go's `%` takes the sign of the dividend and pairs with `Quo` |
| Codec.Key2Idx | bitset_core.go:285-292 | negative keys go to negative words and others to non-negative ones; the pair is encodable, so the position is in [0,64) |
| Codec.Decode | bitset_core.go:259-266 | on an encodable pair the wrapping arithmetic of `Iterate` gives `(w+1)*64-p` for a negative word and `w*64+p` otherwise, with no overflow |
| Codec.DecodeEncode | bitset_core.go:285-292 | the decode inlined in `Iterate` inverts `key_2_idx` for every int64 key |
| Codec.DecodeEncodeNegative | bitset_core.go:287-290 | the same, for negative keys |
| Codec.DecodeEncodeNonNegative | bitset_core.go:286 | the same, for non-negative keys |
| Codec.EncodeDecode | bitset_core.go:285-292 | `key_2_idx` inverts the decode on every encodable pair, so the codec is a bijection between keys and encodable pairs |
| Codec.Key2IdxInjective | bitset_core.go:285-292 | distinct keys get distinct pairs |
| Codec.UnusedPair | bitset_core.go:285-292 | no key maps to word −1 position 0; that pair decodes to 0, whose own pair is (0,0) |
| Codec.Key2IdxMinusOne | bitset_core.go:285-292 | −1 ↦ (−1,1) |
| Codec.Key2IdxMinusThirtyTwo | bitset_core.go:285-292 | −32 ↦ (−1,32) |
| Codec.Key2IdxMinusSixtyThree | bitset_core.go:285-292 | −63 ↦ (−1,63) |
| Codec.Key2IdxMinusSixtyFive | bitset_core.go:285-292 | −65 ↦ (−2,1) |
| Codec.Key2IdxExamples | bitset_core.go:285-292 | boundary keys: −64 ↦ (−2,0), −128 ↦ (−3,0), 63 ↦ (0,63), 64 ↦ (1,0), MinInt64 ↦ (−2^57−1,0), MaxInt64 ↦ (2^57−1,63) |
| Codec.SyncDecode | bitset_sync.go:105 | the sync decode is `w*64+p` modulo 2^64 |
| Codec.SyncDecodeInverts | bitset_sync.go:105 | the sync decode gives back a key exactly when the key is non-negative or sits at position 32 |
| Codec.SyncDecodeMinusOne | bitset_sync.go:105 | key −1, stored at (−1,1), decodes to −63 |
| Codec.SyncDecodeMinusThirtyTwo | bitset_sync.go:105 | (−1,32) decodes to −32 |
| Codec.SyncDecodeMinInt64 | bitset_sync.go:105 | the pair of MinInt64 wraps around to MaxInt64−63 |
| Words.SetKeyMembers | bitset_core.go:47-53 | after `Set(key)` the members are the old members and `key` |
| Words.ClearKeyMembers | bitset_core.go:55-69 | after `Clear(key)` the members are the old members except `key` |
| Words.FlipKeyMembers | bitset_core.go:71-86 | `Flip(key)` toggles membership of `key` and no other key |
| Words.SetKeyWord | bitset_core.go:47-53 | `Set` stores the old word ORed with the bit, which is non-zero |
| Words.ClearNonMember | bitset_core.go:55-69 | clearing a non-member leaves the store exactly as it was |
| Words.PointOpsKeepCanonical | bitset_core.go:47-86 | on a canonical store, `Set`, `Clear` and `Flip` leave no zero word and every stored bit stays the image of a key |
| Words.PointOpsKeepNoZero | bitset_core.go:47-86 | `Set`, `Clear` and `Flip` never leave a zero word in a store that had none, whatever bits it holds |
| Words.FlipTwice | bitset_core.go:71-86 | on a store without zero words, flipping a key twice restores the store exactly |
| Words.FlipKeyNonMember | bitset_core.go:71-86 | flipping a non-member sets it |
| Words.SetKeyEmpty | bitset_core.go:47-53 | `Set` on an empty store stores the key's bit alone |
| Words.SetKeyCount | bitset_core.go:88-99 | `Set` raises the count by one exactly when the key was not a member |
| Words.ClearKeyCount | bitset_core.go:88-99 | `Clear` lowers the count by one exactly when the key was a member |
| Words.SumPopEmpty | bitset_core.go:88-111 | on a store without zero words the count is 0 exactly when nothing is stored |
| Words.SumPopZeroWords | bitset_core.go:88-99 | a store holding only zero words counts 0 |
| Words.NoMembersEmpty | bitset_core.go:109-111 | a canonical store with no members is empty, so `None()` holds |
| Words.SetAllMembers | bitset.go:46-52 | after setting a list of keys, the members are those keys and the old ones |
| Words.SetAllLast | bitset.go:46-52 | setting one more key extends a run of `Set` calls |
| Words.ClearAllMembers | bitset.go:54-68 | after clearing a list of keys, none of them is a member and the other members stay |
| Words.SetAllCanonical | bitset.go:46-52 | runs of `Set` keep the store canonical |
| Words.ClearAllCanonical | bitset.go:54-68 | runs of `Clear` keep the store canonical |
| Words.SetAllCount | bitset.go:87-93 | setting N distinct new keys raises the count by N |
| Words.SetDistinctCount | bitset.go:87-93 | setting N distinct keys in an empty set gives `Count() == N` |
| Words.SetThenClearEmpty | bitset.go:103-105 | setting keys and then clearing them all leaves the store empty, so `None()` holds |
| Words.InterGet | bitset_core.go:133-151 | each word of the intersection is the AND of the two words |
| Words.InterShape | bitset_core.go:133-151 | the intersection holds no zero word and only keys of both operands |
| Words.InterMembers | bitset_core.go:113-159 | a key is in the intersection iff it is in both operands |
| Words.DiffCopyGet | bitset_core.go:181-193 | each word of the copy-mode difference is `A[k] &^ B[k]` |
| Words.DiffInPlaceGet | bitset_core.go:181-201 | each word of the in-place difference reads as `A[k] &^ B[k]` |
| Words.UnionGet | bitset_core.go:228-243 | each word of the union reads as `A[k] \| B[k]` |
| Words.DiffCopyMembers | bitset_core.go:161-203 | membership in the copy-mode difference is A∖B |
| Words.DiffInPlaceMembers | bitset_core.go:161-203 | membership in the in-place difference is A∖B |
| Words.UnionMembers | bitset_core.go:205-245 | membership in the union is A∪B |
| Words.DiffModes | bitset_core.go:181-201 | on a store without zero words the in-place difference is the copy-mode one with its zero words dropped |
| Words.DiffCopyStoresZeroWord | bitset_core.go:182-184 | the copy-mode difference of {0 ↦ 1} with itself stores the zero word 0 ↦ 0, which has no members |
| Words.InterSelf | bitset_core.go:113-159 | `Intersection(A,A) == A` for a store without zero words |
| Words.UnionSelf | bitset_core.go:205-245 | `Union(A,A) == A` |
| Words.DiffSelf | bitset_core.go:161-203 | `RemoveIntersection(A,A)` is empty in place and has no members in copy mode |
| Words.InterCanonical | bitset_core.go:113-159 | the intersection of canonical stores is canonical |
| Words.DiffCopyEncodable | bitset_core.go:181-193 | the copy-mode difference keeps every stored bit the image of a key, though it may store zero words, so the traversal facts still apply to it |
| Words.DiffInPlaceCanonical | bitset_core.go:161-203 | the in-place difference of a canonical store is canonical |
| Words.UnionCanonical | bitset_core.go:205-245 | the union of canonical stores is canonical |
| Words.AlgebraKeepsCanonical | bitset_core.go:113-245 | the three in-place results keep the invariant |
| Words.UnionByLoops | bitset_core.go:227-243 | the first pass (OR over A's keys) followed by the second (B's keys missing from A) builds the union |
| Words.InterVisit | bitset_core.go:134-149 | one callback of `Intersection`: the key stays iff it is in B with a non-zero AND, and the stored word is that AND |
| Words.DiffVisit | bitset_core.go:182-193 | one callback of `RemoveIntersection`: the word written and whether the key is queued for deletion |
| Words.OrVisit | bitset_core.go:229-234 | one callback of the first `Union` pass: OR with B's word when that is non-zero, else A's word |
| Words.InterInPlaceResult | bitset_core.go:153-157 | deleting the queued keys after the pass leaves exactly the intersection |
| Words.DiffInPlaceResult | bitset_core.go:197-201 | deleting the queued keys after the pass leaves exactly the in-place difference |
| Source.WordMap.constructor | bitset_source.go:57-59 | a new map is empty |
| Source.WordMap.Get | bitset_source.go:19-22 | `(m[k], true)` when k is present and `(0, false)` otherwise |
| Source.WordMap.Set | bitset_source.go:24-26 | inserts or overwrites k, every other entry unchanged |
| Source.WordMap.Delete | bitset_source.go:28-30 | removes k, nothing when k is absent |
| Source.WordMap.Len | bitset_source.go:32-34 | the number of entries |
| Source.WordMap.New | bitset_source.go:36-38 | a fresh empty store |
| Source.WordMap.Clone | bitset_source.go:40-46 | a fresh store, hence independent, with identical entries |
| Source.WordMap.Iterate | bitset_source.go:48-54 | visits stored keys, none twice; every visit before the last is accepted; it stops at the first refusal or after all entries; an always-accepting visitor sees every key |
| Source.WordMap.DeleteAll | bitset_core.go:153-157 | the `deleteKeys` loop removes exactly the listed keys |
| Iteration.ScanWord | bitset_core.go:253-270 | the inner `for` loop clears bits of `v` lowest first and offers exactly `Scan`'s keys |
| Iteration.ScanCount | bitset_core.go:253-270 | with an accepting visitor, one key per set bit |
| Iteration.ScanMembers | bitset_core.go:253-270 | with an accepting visitor, the keys offered for a word are exactly the members in it |
| Iteration.ScanAllFalse | bitset_core.go:266-268 | with a refusing visitor a non-zero word offers exactly one key |
| Iteration.ScanInWord | bitset_core.go:253-270 | the keys offered for a word lie in that word, in ascending bit order, none twice |
| Iteration.ScanInWordOuter | bitset_core.go:259-266 | the keys offered for a word lie in that word |
| Iteration.ScanInWordAscending | bitset_core.go:253-270 | their positions ascend |
| Iteration.TraceLast | bitset_core.go:252-272 | visiting one more word appends its keys |
| Iteration.TraceCount | bitset_core.go:252-272 | with an accepting visitor, the number of keys offered is the bit count of the words visited |
| Iteration.TraceCountAll | bitset_core.go:252-272 | over a whole traversal that is `Count()` |
| Iteration.TraceMembersPrefix | bitset_core.go:252-272 | when every stored bit is the image of a key (zero words allowed), after some words the keys offered are the members in those words |
| Iteration.TraceMembers | bitset_core.go:252-272 | when every stored bit is the image of a key (zero words allowed), a whole traversal offers exactly the members |
| Iteration.TraceAllFalse | bitset_core.go:266-271 | a refusing visitor still gets one key from every word, so a refusal ends only the current word |
| Iteration.TraceOuter | bitset_core.go:252-272 | when every stored bit is the image of a key, every key offered lies in a word visited |
| Iteration.TraceDistinct | bitset_core.go:252-272 | when every stored bit is the image of a key (zero words allowed), no key is offered twice, whatever the visitor answers |
| Iteration.UnencodableRepeats | bitset_core.go:259-266 | the condition is needed: in a store holding bit 0 of word −1 (a pair no key produces) and bit 0 of word 0, both bits decode to 0, so the traversal offers 0 twice |
| Iteration.TraceTwo | bitset_core.go:252-272 | traversing two words offers the first word's keys and then the second's |
| Iteration.TraceSingle | bitset_core.go:252-272 | a store of one `Set` key has one enumeration, and its traversal offers that key's decode |
| Core.BitSet.FromSource | bitset_core.go:14-19 | wraps the source, not a copy |
| Core.BitSet.From | bitset_core.go:21-23 | replaces the source by reference |
| Core.BitSet.Clone | bitset_core.go:25-32 | a fresh bitset over a fresh store with the same entries |
| Core.BitSet.Storage | bitset_core.go:34-36 | the source itself |
| Core.BitSet.Test | bitset_core.go:38-45 | membership of the key |
| Core.BitSet.Set | bitset_core.go:47-53 | the new store is `SetKey` of the old; only the key's word changes; the returned word is the stored word, non-zero; `Test(key)` holds |
| Core.BitSet.Clear | bitset_core.go:55-69 | the new store is `ClearKey` of the old; a zero or absent word changes nothing; the returned word is the word as it now reads; `Test(key)` is false |
| Core.BitSet.Flip | bitset_core.go:71-86 | the new store is `FlipKey` of the old; `Test(key)` is toggled; the returned word is the word as it now reads |
| Core.BitSet.Count | bitset_core.go:88-99 | the sum of the popcounts of all stored words |
| Core.BitSet.Len | bitset_core.go:101-103 | the number of stored words |
| Core.BitSet.Any | bitset_core.go:105-107 | some word is stored |
| Core.BitSet.None | bitset_core.go:109-111 | no word is stored |
| Core.BitSet.Intersection | bitset_core.go:113-159 | the result store is `Inter` of the two old stores; copy mode returns a fresh bitset, in place returns the receiver |
| Core.BitSet.IntersectionCopy | bitset_core.go:124-151 | the callback pass into a new store builds `Inter` |
| Core.BitSet.IntersectionInPlace | bitset_core.go:124-157 | the pass over the receiver plus the deletions leave `Inter`, also when `other` is the receiver |
| Core.BitSet.InterVisitInPlace | bitset_core.go:133-151 | one in-place callback: the store advances by one key of `Inter`; the key is queued iff it is not in `Inter` |
| Core.BitSet.RemoveIntersection | bitset_core.go:161-203 | the result store is the copy-mode difference (zero words kept) or, in place, the in-place one (zero words deleted) |
| Core.BitSet.RemoveIntersectionCopy | bitset_core.go:172-195 | the pass into a new store builds `DiffCopy` |
| Core.BitSet.RemoveVisitCopy | bitset_core.go:181-195 | one copy-mode callback: the new store advances by one key of `DiffCopy` |
| Core.BitSet.RemoveIntersectionInPlace | bitset_core.go:172-201 | the pass over the receiver plus the deletions leave `DiffInPlace` |
| Core.BitSet.RemoveVisitInPlace | bitset_core.go:181-195 | one in-place callback: the store advances by one key of `DiffCopy`; the key is queued iff its word became zero |
| Core.BitSet.Union | bitset_core.go:205-245 | the result store is `Union` of the two old stores |
| Core.BitSet.UnionFirstPassCopy | bitset_core.go:227-236 | the first pass into a new store ORs B's words over A's keys |
| Core.BitSet.UnionFirstPassInPlace | bitset_core.go:227-236 | the same over the receiver, also when `other` is the receiver |
| Core.BitSet.UnionVisitInPlace | bitset_core.go:228-236 | one first-pass callback in place |
| Core.BitSet.UnionSecondPassCopy | bitset_core.go:238-243 | the second pass adds B's words whose keys A lacks |
| Core.BitSet.UnionSecondPassInPlace | bitset_core.go:238-243 | the same in place, testing the receiver's current store as the source does |
| Core.BitSet.Iterate | bitset_core.go:247-273 | for some enumeration of the stored words, the keys handed to `do` are `Trace(Core, …)`; whatever the order, an accepting `do` is handed `Count()` keys, and, when every stored bit is the image of a key (zero words allowed, as copy-mode `RemoveIntersection` leaves them), exactly the members and none twice |
| Core.NewBitSet | bitset_source.go:56-61 | nil gives a fresh empty store; a non-nil map is wrapped without copying |
| MapBitSet.BitSet.constructor | bitset.go:18 | the composite literal wraps the map by reference |
| MapBitSet.BitSet.From | bitset.go:21-23 | replaces the map by reference |
| MapBitSet.BitSet.Clone | bitset.go:25-31 | a `range` loop copies every entry into a fresh map |
| MapBitSet.BitSet.Storage | bitset.go:33-35 | the map itself |
| MapBitSet.BitSet.Test | bitset.go:37-44 | membership of the key |
| MapBitSet.BitSet.Set | bitset.go:46-52 | as the core `Set`, with built-in map indexing and assignment |
| MapBitSet.BitSet.Clear | bitset.go:54-68 | as the core `Clear`, with `delete` |
| MapBitSet.BitSet.Flip | bitset.go:70-85 | as the core `Flip` |
| MapBitSet.BitSet.Count | bitset.go:87-93 | the sum of popcounts over a `range` loop |
| MapBitSet.BitSet.Len | bitset.go:95-97 | `len` of the map |
| MapBitSet.BitSet.Any | bitset.go:99-101 | some word is stored |
| MapBitSet.BitSet.None | bitset.go:103-105 | the map is empty |
| MapBitSet.BitSet.Intersection | bitset.go:107-147 | the result map is `Inter` of the two old maps; copy mode returns a fresh bitset, in place returns the receiver |
| MapBitSet.BitSet.IntersectionCopy | bitset.go:113-139 | the `range` loop into a new map builds `Inter` |
| MapBitSet.BitSet.IntersectionInPlace | bitset.go:113-145 | the loop over the receiver plus the deletions leave `Inter` |
| MapBitSet.BitSet.InterVisitInPlace | bitset.go:122-139 | one in-place loop step |
| MapBitSet.BitSet.RemoveIntersection | bitset.go:149-185 | the copy-mode or the in-place difference |
| MapBitSet.BitSet.RemoveIntersectionCopy | bitset.go:155-177 | the loop into a new map builds `DiffCopy`, zero words included |
| MapBitSet.BitSet.RemoveVisitCopy | bitset.go:164-177 | one copy-mode loop step |
| MapBitSet.BitSet.RemoveIntersectionInPlace | bitset.go:155-183 | the loop plus the deletions leave `DiffInPlace` |
| MapBitSet.BitSet.RemoveVisitInPlace | bitset.go:164-177 | one in-place loop step |
| MapBitSet.BitSet.Union | bitset.go:187-216 | the result map is `Union` |
| MapBitSet.BitSet.UnionFirstPassCopy | bitset.go:200-208 | the first loop into a new map |
| MapBitSet.BitSet.UnionFirstPassInPlace | bitset.go:200-208 | the first loop over the receiver |
| MapBitSet.BitSet.UnionVisitInPlace | bitset.go:201-208 | one first-loop step in place |
| MapBitSet.BitSet.UnionSecondPassCopy | bitset.go:210-214 | the second loop adds B's words whose keys A lacks |
| MapBitSet.BitSet.UnionSecondPassInPlace | bitset.go:210-214 | the same in place |
| MapBitSet.BitSet.Iterate | bitset.go:218-239 | the keys handed to `do` are `Trace(Core, …)` for some enumeration of the words; an accepting `do` is handed `Count()` keys and, when every stored bit is the image of a key (zero words allowed), exactly the members, none twice |
| MapBitSet.NewBitSet | bitset.go:14-19 | nil gives a fresh empty map; a non-nil map is wrapped without copying |
| Sync.BitSetSync.constructor | bitset_sync.go:20-25 | wraps the source without copying |
| Sync.BitSetSync.From | bitset_sync.go:27-29 | replaces the source by reference |
| Sync.BitSetSync.Storage | bitset_sync.go:31-33 | the source itself |
| Sync.BitSetSync.Test | bitset_sync.go:35-42 | membership of the key |
| Sync.BitSetSync.Set | bitset_sync.go:44-50 | the stored word becomes the old word ORed with the bit; the returned word is the stored one, non-zero; `Test(key)` holds |
| Sync.BitSetSync.Clear | bitset_sync.go:52-66 | a zero or absent word changes nothing; otherwise the bit is cleared and a zero word deleted; `Test(key)` is false |
| Sync.BitSetSync.Flip | bitset_sync.go:68-79 | the store becomes `SetKey` of the old one, so `Test(key)` holds afterwards whatever it was; the delete branch is dead |
| Sync.BitSetSync.Count | bitset_sync.go:81-92 | the sum of popcounts of the words read as unsigned |
| Sync.BitSetSync.Iterate | bitset_sync.go:94-112 | the keys handed to `do` are `Trace(Sync, …)`, decoding `w*64+p`; an accepting `do` is handed one key per set bit, `Count()` in all |
| Sync.FlipsAgreeOnNonMembers | bitset_sync.go:71 | the sync `Flip` equals the core `Flip` exactly on non-members; it always leaves the key a member, where the core one clears a member |
| Sync.SingleKeyTraversal | bitset_sync.go:94-112 | after `Set(k)` on an empty store the sync traversal offers exactly `[k]` iff k ≥ 0 or k's position is 32; the core traversal always offers `[k]` |
| Sync.SetMinusOneTraversal | bitset_sync.go:105 | `Set(-1)` then `Iterate` offers −63 in the sync version and −1 in the core |
| Sync.SignBitCounts | bitset_sync.go:88 | key 63 sets bit 63 of word 0, a negative int64, and `Count` counts it |
| Scenarios.SetTestKeys | bitset_test.go:12-39 | setting 0, 1, 2, 62, 63, 64, 65 in a new bitset: exactly they are members, 3, 61 and 66 are not, and `Count()` is 7 |
| Scenarios.SetKeys | bitset_test.go:28-39 | setting a list of keys in a new bitset: `Test` holds exactly for the listed keys, and `Count()` is the number of keys when they are distinct |
| Scenarios.SetCaseKeys | bitset_test.go:12-39 | the test with −64, −63, −2 and −1 restored: exactly its eleven keys are members, 3, 61 and 66 are not, and `Count()` is 11 |
| Scenarios.CaseKeysDistinct | bitset_test.go:12-27 | the eleven keys are distinct and include the negatives but not 3, 61 or 66 |
| Scenarios.TestKeysMembers | bitset_test.go:12-39 | the store those keys build has exactly them as members and counts seven |
| Scenarios.ExampleMembers | bitset.go:46-52 | the two example sets have exactly their listed members |
| Scenarios.AlgebraExample | bitset.go:107-216 | A = {−127,−63,−64,−1,0,1,2,63,64}, B = {−63,−64,0,62,63,64,65}: A∩B = {−63,−64,0,63,64}, A∖B = {−127,−1,1,2} in either mode, A∪B = A ∪ {62,65} |
| Scenarios.CloneIsIndependent | bitset.go:25-31 | setting a key in a clone leaves the original map unchanged |
| Scenarios.FromShares | bitset.go:21-23 | after `From(m)`, a `Set` through the bitset is visible in the caller's map |
| Scenarios.UnionModesAgree | bitset.go:187-216 | copy-mode `Union(A,B)` and in-place `Union` on a clone of A give the same map, and A is unchanged |

## Left out

- `String()` (bitset_core.go:275-283, bitset.go:241-249): debug formatting through `fmt`, with no contract.
- The panics on a nil source (bitset_core.go:15-17, bitset_sync.go:21-23) are not modelled.
  - The constructors take a non-null store object.
  - The map version's `NewBitSet(nil)` stays modelled as an empty map.
- The panics on failed `IDataIteratable`/`ISyncIteratable` type assertions (bitset_core.go:26-29 and similar, bitset_sync.go:82-85, 95-98) are not modelled.
  - The one store class, `WordMap`, has every capability, so no assertion can fail.
- The interfaces `IDataSource`, `IDataIteratable`, `ISyncSource` and `ISyncIteratable` (bitset_source.go:3-15, bitset_sync.go:5-14) have one implementation here, `WordMap`.
  - No `ISyncSource` implementation is part of this model, so the sync version uses `WordMap` too.
  - It holds each int64 word as its two's-complement bit pattern.
- Sync.BitSetSync.Set: the word is returned as its 64-bit pattern, not as an int64, and the same holds for `Clear` and `Flip`. `Bits.Signed` gives the int64 reading.
- Thread safety: every store is sequential, and the sync version does no locking of its own.
- Go's map iteration order: each traversal takes an arbitrary next word. Nothing is stated about the order across words.
- Core.BitSet.Iterate: `do` is a pure function `int64 -> bool`, and the method returns the keys it was handed. The same holds for MapBitSet.BitSet.Iterate and Sync.BitSetSync.Iterate. Side effects of a Go closure are not modelled.
- Source.WordMap.Iterate: `fn` is a pure function. A callback that modifies the map during the loop is not modelled.
- The callbacks of `Count` and of the algebra are written as loops over the store. They are not passed to `WordMap.Iterate` as closures.
- Core.BitSet.Count: the result is an unbounded `nat`, so Go's `int` overflow is not modelled. It would need more than 2^57 full words.
- MapBitSet.BitSet.Count: the same unbounded `nat` result (bitset.go:87-93), for the same reason.
- Sync.BitSetSync.Count: the same unbounded `nat` result (bitset_sync.go:81-92), for the same reason.
- The variadic `inplace ...bool` is a single `bool`. Go reads only its first element and defaults to `false`.
- `unit_bit_len` is a package variable in Go; here it is the constant 64.
- bitset_test.go is not modelled as code, because its `NewBitSet(map[int64]int64{})` matches neither `NewBitSet`. `Scenarios.SetTestKeys` uses its keys and expected values, and `Scenarios.SetCaseKeys` the same with the commented-out negative keys −64, −63, −2 and −1 restored.
- bitset.go and bitset_core.go with bitset_source.go declare the same names in one package and cannot build together. They are separate modules here, sharing `Codec`, `Words` and `Iteration`.

## Findings

| source | as written | input that shows it | evidently intended | confidence | as-written member | corrected member |
|---|---|---|---|---|---|---|
| bitset_sync.go:68-79 | `Flip` ORs the bit in, so it is `Set` under another name, and its zero-word delete branch is dead | `Set(5)` then `Flip(5)`: 5 is still a member | toggle the bit, as the core `Flip` does | medium, not executed | Sync.FlipsAgreeOnNonMembers | Words.FlipKeyMembers |
| bitset_sync.go:105 | `Iterate` decodes every word as `w*64+p`, without the negative-word correction that `key_2_idx` needs | `Set(-1)` then `Iterate`: the visitor is handed −63 | decode a negative word as `(w+1)*64-p`, as the core `Iterate` does | high, not executed | Sync.SetMinusOneTraversal | Codec.DecodeEncode |
