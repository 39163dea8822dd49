# Proofs about the Diode server

Models of six parts of the Diode server, each with the properties its callers rely on. Hashes,
host answers, the order in which maps are traversed and the clock are parameters of the models.

1. Wide integers (`Words`, `Reciprocal`, `Shifts`, `WordDivision`, `WordArrays`, `LongDivision`,
   `Multiplication`, `ModularArithmetic`). Words are integers below 2^64 with wrapping written out; a
   wide number is a sequence of words with a value, and the methods change arrays in place as the
   C++ does. Division is Knuth's Algorithm D (The Art of Computer Programming, volume 2, section
   4.3.1) over reciprocals. Word counts are arbitrary for division and powers of two where the code
   recurses on halves.
2. The interpreter. `CodeRewrite` holds the jump table, the rewriting pass and a step machine whose
   instructions outside the push and jump groups are a parameter; out-of-bounds reads are an outcome
   that is proved unreachable. `VmGas` holds memory, gas and sub-calls at Constantinople.
3. Authenticated tries. In `Trie` a node reference is the node itself and a misread is an outcome of
   its own; keys are nibbles of any number, which covers the keys of whole bytes that the callers use. In `HeapMerkle` every operation is proved to give the tree that `Build` makes from the
   contents alone.
4. The storage cache. `HostCache` plays host and peer through nested executions against uncached
   storage; `OpenMap` is the hash table below it.
5. `RangeMask`, sets of numbers as sorted separate ranges.
6. Kademlia. `KBuckets` is the routing tree and the ring distance, `KademliaSearch` the search master
   as a step relation.

`Arithmetic`, `Bytes` and `Collections` hold what the modules share.

Where code and documentation differ the code is modelled. These are the properties the code fails, each
with the exact condition under which it meets them and an input on which it does not:

- A probe of the hash table can run for ever when 1051 divides its capacity, which seeding reaches
  (`OpenMap.EndsIffStrideCoprime`, `OpenMap.FillSeeded`).
- Removal from a trie can read past the key, take a value for a node, or lose its way beside a value
  that reads as one, when keys have different lengths (`Trie.FaultIffBlocked`, `Trie.RunRefines`,
  `Trie.MisreadingRun`).
- A static execution leaves behind the writes it made before a sub-call, though static calls are said
  not to change the state (`HostCache.StaticChangesNothingIff`,
  `HostCache.StaticLeakExample`).
- The constant pool is addressed with 16 bits. Whether each instruction keeps its meaning can be told
  from the code (`CodeRewrite.AgreesIffFits`), and that is enough for every run
  (`CodeRewrite.EntryRunAgrees`); a given run agrees exactly when it comes to no push whose constant
  does not fit (`CodeRewrite.RunsAgreeIff`), as the run of `CodeRewrite.DetourDiffers` does.
- Memory offsets are cut to 32 bits (`VmGas.CastExactIff`, `VmGas.CastCutsExample`).
- `lowest` adds in 32 bits (`RangeMask.RangeMask.Lowest`, `RangeMask.LowestBreaksExample`).
- `operator-=` with a wider ground range adds numbers, and `x -= x` leaves x as it is, since the first
  inversion also inverts the argument (`RangeMask.RangeMask.Subtract`,
  `RangeMask.SubtractWiderExample`).
- The ring distance is one short for keys half a ring apart or more, so the two ends of the ring
  count as one place: a lookup can miss (`KBuckets.LookupExactIff`, `KBuckets.LookupMissExample`) and
  a search can ask one of them twice (`KademliaSearch.RepeatsIff`, `KademliaSearch.TripleRepeats`), but
  it ends all the same (`KademliaSearch.SearchEnds`).
- Integer keys are normalised by the Merkle tree and not by the plain map
  (`HeapMerkle.StepMatchesIff`, `HeapMerkle.IntegerKeysDiffer`).

`VmGas.Square` is the square as a sum of odd numbers: the solver is slow on products, and
`VmGas.SquareIs` says that it is the product.

## Model

| member | source | states |
|---|---|---|
| `Reciprocal.Reciprocal2by1Exact` | evm/intx/int128.hpp:480-506 | for every normalised d the table-seeded 64-bit wrapping computation is floor((2^128-1)/d) - 2^64 |
| `Reciprocal.Step1Error` | evm/intx/int128.hpp:485-486 | after the first Newton step the value is 2^60/d40 up to a positive error below a named bound; nothing wraps |
| `Reciprocal.Step2Error` | evm/intx/int128.hpp:488-489 | after the second step the value is 2^97/d up to an error of at most d plus a named bound |
| `Reciprocal.Step3Half` | evm/intx/int128.hpp:490-493 | the wrapping expression for e is exactly half the remaining error |
| `Reciprocal.Step3Error` | evm/intx/int128.hpp:490-495 | after the third step 2^128/d is missed by less than 2d |
| `Reciprocal.Step4Exact` | evm/intx/int128.hpp:499-505 | the last step adds one exactly when the error exceeds d |
| `Shifts.Clz` | evm/intx/int128.hpp:384-398 | the number of leading zeros: shifting by it sets the top bit and loses nothing |
| `Shifts.ShlExact` | evm/intx/int128.hpp:221-231 | a left shift drops exactly the bits the complementary right shift keeps |
| `Shifts.DisjointBitsAdd` | evm/intx/int128.hpp:599-603 | the two shifted halves joined by a bitwise or occupy disjoint bits, so it is a sum |
| `WordDivision.Reciprocal2by1` | evm/intx/int128.hpp:480-506 | returns floor((2^128-1)/d) - 2^64 for normalised d |
| `WordDivision.Reciprocal3by2` | evm/intx/int128.hpp:508-534 | returns floor((2^192-1)/d) - 2^64 for a normalised two-word d |
| `WordDivision.CorrectionsSettle` | evm/intx/int128.hpp:541-557 | at most one net correction: a negative candidate remainder is detected from the wrapped word, a large one reduced |
| `WordDivision.Udivrem2by1` | evm/intx/int128.hpp:536-558 | with u.hi < d and the reciprocal of d: u = q*d + r and r < d |
| `WordDivision.CorrectionsSettle3by2` | evm/intx/int128.hpp:570-587 | the same for two-word remainders |
| `WordDivision.Udivrem3by2` | evm/intx/int128.hpp:560-588 | with {u2,u1} < d and the reciprocal of d: u = q*d + r and r < d |
| `WordDivision.Udivrem128ByWord` | evm/intx/int128.hpp:592-621 | the branch for one-word divisors divides exactly for every nonzero divisor |
| `WordDivision.Udivrem128` | evm/intx/int128.hpp:590-645 | 128-bit division: x = q*y + r and r < y for every nonzero y |
| `LongDivision.SignificantWords` | evm/intx/div.hpp:36-42 | the least word count that keeps the value |
| `LongDivision.ShiftWords` | evm/intx/div.hpp:45-55 | the words hold the value shifted left, each taking in what spills from the word below |
| `LongDivision.Normalize` | evm/intx/div.hpp:23-64 | both operands are multiplied by the same power of two, which sets the top bit of the divisor; word counts are exact |
| `LongDivision.UdivremBy1` | evm/intx/div.cpp:17-32 | in place: old u = new u * d + r and r < d, for a one-word divisor |
| `LongDivision.UdivremBy2` | evm/intx/div.cpp:40-55 | in place: old u = new u * d + r and r < d, for a two-word divisor |
| `LongDivision.EstimateDigit` | evm/intx/div.cpp:63-97 | the estimate is the capped quotient of the top three words by the top two |
| `LongDivision.DigitBounds` | evm/intx/div.cpp:63-113 | such an estimate is the true quotient digit or one more |
| `LongDivision.SubtractProduct` | evm/intx/div.cpp:100-107 | the window loses digit * divisor, up to a borrow that is returned |
| `LongDivision.AddBack` | evm/intx/div.cpp:114-120 | the window gains the divisor, up to a carry that is returned |
| `LongDivision.AfterSubtract` | evm/intx/div.cpp:100-112 | a final borrow occurs exactly when the digit was one too large |
| `LongDivision.AfterAddBack` | evm/intx/div.cpp:109-121 | after one add-back the carry cancels the borrow and the remainder is below the divisor |
| `LongDivision.DivideWindow` | evm/intx/div.cpp:63-133 | one step of Algorithm D: window = digit * divisor + new window, which is below the divisor |
| `LongDivision.UdivremKnuth` | evm/intx/div.cpp:57-135 | Algorithm D as a whole: old un = q * vn + new un and new un < vn, and no other word changes |
| `LongDivision.UnshiftWords` | evm/intx/div.cpp:172-173 | the remainder words divided by the normalisation factor, dropping nothing |
| `LongDivision.Udivrem` | evm/intx/div.cpp:139-176 | at any word count and for every nonzero divisor: u = q*v + r and r < v |
| `Multiplication.PortableUmulExact` | evm/intx/int128.hpp:267-285 | four 32-bit products summed by columns give the full 64 x 64 product |
| `Multiplication.AddWithCarryExact` | evm/intx/intx.hpp:481-497 | value plus carry is the exact sum; the two carries out of the high half never occur together |
| `Multiplication.AddLoop` | evm/intx/intx.hpp:499-519 | the ripple-carry loop gives the sum with the last carry dropped |
| `Multiplication.PlusMod` | evm/intx/intx.hpp:521-525 | operator+ is addition modulo 2^N |
| `Multiplication.UmulWideExact` | evm/intx/intx.hpp:554-569 | the recursive product is exact at every size: no column sum overflows |
| `Multiplication.MulLowExact` | evm/intx/intx.hpp:588-598 | the recursive low product is the product modulo 2^N |
| `Multiplication.AddRow` | evm/intx/intx.hpp:622-629 | one row: window plus word times number, with the carry word returned |
| `Multiplication.UmulLoop` | evm/intx/intx.hpp:610-632 | the schoolbook loop gives the exact double-width product |
| `Multiplication.MulLoopOpt` | evm/intx/intx.hpp:634-656 | the cut-off loop gives the product modulo 2^N |
| `ModularArithmetic.Exp` | evm/intx/intx.hpp:677-689 | square-and-multiply returns base^exponent modulo 2^N for every base and exponent |
| `ModularArithmetic.NegateValue` | evm/intx/intx.hpp:527-531 | two's complement negation is 2^N - x, and 0 for 0 |
| `ModularArithmetic.Sdivrem` | evm/intx/intx.hpp:747-762 | the quotient truncates towards zero, the remainder has the sign of the dividend; the quotient fits exactly unless the least number is divided by -1 |
| `ModularArithmetic.SignedIs` | evm/intx/intx.hpp:750-753 | a word sequence read as signed is the congruent number from -2^(N-1) up to 2^(N-1) - 1 |
| `ModularArithmetic.Addmod` | evm/intx/intx.hpp:947-951 | the residue of the unbounded sum for every nonzero modulus |
| `ModularArithmetic.Mulmod` | evm/intx/intx.hpp:953-956 | the residue of the unbounded product for every nonzero modulus |
| `Trie.SharedNibbles` | evm/libdevcore/TrieCommon.h:21-31 | the loop counts the longest common prefix |
| `Trie.CleveKeepsLookup` | evm/libdevcore/TrieDB.h:1078-1093 | splitting a two-item node changes no lookup |
| `Trie.BranchKeepsLookup` | evm/libdevcore/TrieDB.h:1133-1161 | turning a two-item node into a branch changes no lookup |
| `Trie.AtAfterMerge` | evm/libdevcore/TrieDB.h:794-888 | insertion is map update: every key looks up as before but the inserted one, also when keys are prefixes of others |
| `Trie.MergeKeepsCanonical` | evm/libdevcore/TrieDB.h:799-869 | insertion of a nonempty value keeps extensions over branches and two used slots in every branch |
| `Trie.AtAfterDelete` | evm/libdevcore/TrieDB.h:913-1032 | removal is map removal and keeps the canonical form, for keys of any lengths; a key that is absent leaves the trie alone |
| `Trie.RejoinLookup` | evm/libdevcore/TrieDB.h:998-1012 | making a two-item node of a branch with one slot left, also when that is its value, changes no lookup and is canonical |
| `Trie.FaultIffBlocked` | evm/libdevcore/TrieDB.h:913-1013 | removal misreads exactly when the entries present block it: the key goes on from a stored key that no other key goes on from, and is absent or leaves beside it a value taken for a node; or the key is absent and two stored keys part where it ends |
| `Trie.CanonicalUnique` | evm/libdevcore/TrieDB.h:762-792 | two canonical tries that look up alike are the same trie |
| `Trie.RunRefines` | evm/libdevcore/TrieDB.h:743-755 | over keys of any lengths a sequence of insertions and removals completes exactly when no removal is blocked by the map it meets; it then refines the finite map and ends in a canonical trie |
| `Trie.UniformRunCompletes` | evm/libdevcore/TrieDB.h:743-755 | over keys of one length every sequence completes |
| `Trie.MisreadingRun` | evm/libdevcore/TrieDB.h:913-960 | a sequence of two calls, with keys of one and two bytes, that does not complete |
| `Trie.HistoryIndependent` | evm/libdevcore/TrieDB.h:743-900 | two sequences that complete end in the same trie exactly when they end in the same map |
| `HeapMerkle.RefreshLeaf` | lib/heapmerkletree.ex:270-286 | an oversized leaf is split, again where need be, into the one tree its items determine |
| `HeapMerkle.JoinIsBuild` | lib/heapmerkletree.ex:242-268 | two current children are joined, or merged into a leaf at sixteen items, into the tree their union determines |
| `HeapMerkle.Refresh` | lib/heapmerkletree.ex:242-290 | updating hashes turns any tree between updates into the tree determined by its contents |
| `HeapMerkle.UpdateBucket` | lib/heapmerkletree.ex:208-221 | walks to the key's leaf, changes exactly that key, drops the caches on the way |
| `HeapMerkle.New` | lib/heapmerkletree.ex:20-23 | the empty tree is current and holds nothing |
| `HeapMerkle.InsertItems` | lib/heapmerkletree.ex:103-127 | the result is the one tree for the contents updated item by item, zero values deleting |
| `HeapMerkle.OneItemInserted` | lib/heapmerkletree.ex:103-118 | after any run one more item removes its key when the value is 32 zero bytes or an integer that 2^256 divides, else maps the key to the value in binary, and touches no other key |
| `HeapMerkle.InsertedInOrder` | lib/heapmerkletree.ex:103-122 | items inserted together are items inserted in order |
| `HeapMerkle.IntegerInBinary` | lib/heapmerkletree.ex:103-118 | an integer key or value is 32 bytes, its big-endian form modulo 2^256 |
| `HeapMerkle.PutOneDeletes` | lib/mapmerkletree.ex:59-82 | the plain map deletes on the same values |
| `HeapMerkle.LeafIndexIsLow` | lib/heapmerkletree.ex:236-240 | the lane of a key is its hash as a number modulo sixteen |
| `HeapMerkle.Delete` | lib/heapmerkletree.ex:74-86 | the result is the one tree for the contents without the key |
| `HeapMerkle.Get` | lib/heapmerkletree.ex:54-57 | finds exactly the stored value of every key, present or not |
| `HeapMerkle.Run` | lib/heapmerkletree.ex:74-127 | after any operations the tree is the one determined by the final contents, so its shape has no history |
| `HeapMerkle.RunIsCurrent` | lib/heapmerkletree.ex:242-290 | every reachable inner node holds more than sixteen items, every leaf at most sixteen, and every cached hash list and count is current |
| `HeapMerkle.ReferenceAgrees` | lib/mapmerkletree.ex:51-70 | on binary keys and values the tree holds what the plain map holds after the same operations |
| `HeapMerkle.StepMatchesIff` | lib/mapmerkletree.ex:59-82 | one put or deletion, with keys and values of any kind, keeps tree and plain map in agreement exactly when the plain map has no other spelling of its key |
| `HeapMerkle.MatchThroughoutIffSpelled` | lib/mapmerkletree.ex:59-82 | they agree at every point of a run exactly when no key ever comes in a second spelling |
| `HeapMerkle.SpelledRunMatches` | lib/mapmerkletree.ex:51-82 | tree operations, with several items a call, end in agreement with the plain map when their steps keep to one spelling |
| `HeapMerkle.IntegerKeysDiffer` | lib/mapmerkletree.ex:59-82 | the failing input: an integer key and its 256-bit form are one key in the tree and two in the plain map |
| `HeapMerkle.LanesDecide` | lib/heapmerkletree.ex:242-286 | equal lane hashes mean equal contents, or two different signed lists with one signature |
| `HeapMerkle.RootHashDecides` | lib/heapmerkletree.ex:35-45 | after any two histories, root hashes are equal exactly when the contents are, if the signature does not collide on the lists the two trees sign |
| `HeapMerkle.SpreadIsLanes` | lib/heapmerkletree.ex:292-318 | the lane lists built in one pass are the lists filtered lane by lane |
| `HeapMerkle.ProofFolds` | lib/heapmerkletree.ex:148-158 | folding the proof of any key, present or absent, gives the entry of its lane in the root hashes |
| `HeapMerkle.ProofShowsMember` | lib/heapmerkletree.ex:148-158 | the list at the end of a proof has the key exactly when it is a member, with its value |
| `HeapMerkle.RunProofs` | lib/heapmerkletree.ex:47-51 | both for the tree after any operations |
| `HeapMerkle.ProofSound` | lib/heapmerkletree.ex:148-158 | any proof that folds to a root entry and ends in a leaf list shows exactly the entries of that lane under its prefix, unless it holds a collision |
| `OpenMap.EmptySlotMeansAbsent` | evm/host.hpp:155-160 | a probe that ends at an empty slot proves the key absent |
| `OpenMap.PushKeepsValid` | evm/host.hpp:160-166 | writing a new key into that slot keeps every entry on its probe path and one slot per entry |
| `OpenMap.PresentKeysAreFound` | evm/host.hpp:155-159 | the probe for a stored key always ends, whatever the capacity |
| `OpenMap.EverySlotVisited` | evm/host.hpp:155-159 | a probe visits every slot when 1051 does not divide the capacity |
| `OpenMap.EndsIffStrideCoprime` | evm/host.hpp:155-159 | probing ends for every content exactly when 1051 does not divide the capacity |
| `OpenMap.HangWitness` | evm/host.hpp:155-159 | for every multiple of 1051, a valid table and a key whose lookup never ends |
| `OpenMap.FillSeeded` | evm/host.hpp:121-168 | a run that gets there: seeded for 24 entries, 8308 keys with one hash are all stored, and the growth the next one asks for never ends |
| `OpenMap.SeededTableMeetsTheStride` | evm/host.hpp:121-151 | after seeding with 24 entries the ninth growth gives such a capacity, and none before it |
| `OpenMap.Map.Probe` | evm/host.hpp:155-167 | ends exactly when some step of the endless loop would, at the key's slot or an empty one |
| `OpenMap.Map.Find` | evm/host.hpp:146-168 | maps an absent key to the initial value on demand and else changes no entry; grows at a quarter load |
| `OpenMap.Map.Resize` | evm/host.hpp:121-134 | rehashing keeps all entries in order and finds each again |
| `OpenMap.Map.Set` | evm/host.hpp:170-178 | is map update; fails only when the probed capacity is a multiple of 1051 |
| `OpenMap.Map.Get` | evm/host.hpp:146-168 | returns the value of the key, or none exactly when it is absent |
| `OpenMap.Map.Clear` | evm/host.hpp:180-184 | leaves the empty map |
| `HostCache.UpdatedSlot` | lib/evm.ex:734-757 | after an update each slot holds the value written last, or what it held |
| `HostCache.ResendIsIdempotent` | lib/evm.ex:734-743 | sending retained writes again changes nothing |
| `HostCache.CacheAccount` | lib/evm.ex:480-502 | the seed lists the account exactly, or says it is too large |
| `HostCache.Host.GetCache` | evm/host.cpp:29-41 | a hit, also on a missing key of a complete account, tells what uncached storage holds |
| `HostCache.Host.GetStorage` | evm/host.cpp:58-76 | returns what uncached storage would and keeps the cache coherent |
| `HostCache.Host.SetStorage` | evm/host.cpp:78-86 | is a write to uncached storage; the status compares with what it held |
| `HostCache.Host.SendUpdates` | evm/host.cpp:88-100 | makes the peer's state the uncached storage |
| `HostCache.Host.ReadUpdates` | evm/host.cpp:102-124 | restarts coherent from the seed, with nothing unsent |
| `HostCache.Perform` | evm/host.cpp:214-255 | one operation, also a sub-call that fails or succeeds, keeps host and peer in step with uncached storage |
| `HostCache.UncachedAnswers` | lib/evm.ex:559-700 | on uncached storage every read, also inside a sub-call that fails, answers the last surviving write that it sees or what the peer held, and a write tells whether it changes that |
| `HostCache.UncachedStore` | lib/evm.ex:690-699 | the final store is the first one with the surviving writes, which skip every failed sub-call, at any depth |
| `HostCache.FailedCallVanishes` | lib/evm.ex:690-699 | without a failed sub-call the script ends with the same store |
| `HostCache.SucceededCallInlines` | lib/evm.ex:690-699 | a successful sub-call answers and stores what its script in its place would |
| `HostCache.EffectIsSettling` | lib/evm.ex:663-699 | a static execution leaves the writes made before its last sub-call and those that reach the state from sub-calls that succeed |
| `HostCache.Execute` | evm/main.cpp:38-82 | a whole execution with nested sub-calls answers as uncached storage does, every read with the last surviving write it sees, and ends with the last surviving writes; a static one ends with those that settle |
| `HostCache.SameStorageSameTrees` | lib/evm.ex:734-743 | equal storage means equal trees, as no tree keeps a zero |
| `HostCache.StaticChangesNothingIff` | lib/evm.ex:559-700 | a static execution changes no state exactly when none of its writes is followed by a sub-call |
| `HostCache.StaticLeakExample` | lib/evm.ex:559-700 | a write followed by a call of nothing reaches the state |
| `RangeMask.CanonicalUnique` | evm/libdevcore/RangeMask.h:50-104 | sorted separate ranges are determined by their elements |
| `RangeMask.ChoiceAdds` | evm/libdevcore/RangeMask.h:217-275 | one round of the merge loop adds exactly the elements from i to the new i that belong to the range |
| `RangeMask.RangeMask.UnionWithRange` | evm/libdevcore/RangeMask.h:217-275 | adds exactly the range and keeps ranges sorted, separate and inside the ground range; the index rises in every round |
| `RangeMask.RangeMask.UnionWith` | evm/libdevcore/RangeMask.h:86-93 | union with a mask, also with itself, over the hull of both ground ranges |
| `RangeMask.HullIsLeast` | evm/libdevcore/RangeMask.h:86-93 | the ground range of a union is the least one with both in it |
| `RangeMask.RangeMask.Inverted` | evm/libdevcore/RangeMask.h:62-75 | the complement relative to the ground range, again sorted and separate |
| `RangeMask.ComplementIsInvolution` | evm/libdevcore/RangeMask.h:62-79 | complementing twice gives back the same ranges |
| `RangeMask.RangeMask.Subtract` | evm/libdevcore/RangeMask.h:82 | the set difference exactly when the mask holds all numbers its ground range adds; with itself the mask stays as it is, which is the difference exactly when it is empty |
| `RangeMask.SubtractWiderExample` | evm/libdevcore/RangeMask.h:82 | a difference of two empty masks with an element |
| `RangeMask.RangeMask.Contains` | evm/libdevcore/RangeMask.h:107-113 | membership |
| `RangeMask.RangeMask.Next` | evm/libdevcore/RangeMask.h:167-176 | the least element above the argument, or the end of the ground range; from the last number the search starts again at zero |
| `RangeMask.RangeMask.Enumerate` | evm/libdevcore/RangeMask.h:141-164 | iteration meets every element once, in order |
| `RangeMask.RangeMask.Size` | evm/libdevcore/RangeMask.h:179-185 | the number of elements |
| `RangeMask.RangeMask.Lowest` | evm/libdevcore/RangeMask.h:50-56 | the least elements in the number asked for, exactly when no begin plus that number leaves 32 bits; else a broken mask |
| `RangeMask.LowestBreaksExample` | evm/libdevcore/RangeMask.h:50-56 | one element and a number asked for that leaves 32 bits |
| `CodeRewrite.Vm.BuildTable` | evm/libaleth-interpreter/VMOpt.cpp:42-78 | the table lists exactly the JUMPDEST bytes at instruction starts in ascending order; synthetic opcodes at starts become undefined and nothing else changes |
| `CodeRewrite.Vm.VerifyJumpDest` | evm/libaleth-interpreter/VMCalls.cpp:79-93 | binary search decides membership of destinations below 2^63 |
| `CodeRewrite.VerifiedExactly` | evm/libaleth-interpreter/VMCalls.cpp:79-93 | a destination is accepted exactly when it is a JUMPDEST byte at an instruction start |
| `CodeRewrite.JumpStep` | evm/libaleth-interpreter/VM.cpp:1250-1256 | JUMP goes to the word on top of the stack if that is a JUMPDEST byte at an instruction start, takes it off and pays, and fails otherwise |
| `CodeRewrite.JumpIfStep` | evm/libaleth-interpreter/VM.cpp:1258-1267 | JUMPI goes on when its second word is zero and else to the first, if that is such a byte, takes both off and pays, and fails otherwise |
| `CodeRewrite.PushStep` | evm/libaleth-interpreter/VM.cpp:1195-1248 | a push puts its constant on the stack, goes on behind it and pays |
| `CodeRewrite.PushedByte` | evm/libaleth-interpreter/VM.cpp:1237-1246 | the constant is the number in the bytes behind the opcode, the first of them the highest |
| `CodeRewrite.OtherStep` | evm/libaleth-interpreter/VM.cpp:213-223 | any other instruction replaces the words it requires by its results and goes on to the next byte |
| `CodeRewrite.StackChecks` | evm/libaleth-interpreter/VM.cpp:160-170 | underflow and overflow are told from the words required and the change in height |
| `CodeRewrite.SoundStep` | evm/libaleth-interpreter/VM.cpp:1195-1267 | a step of prepared code reads inside the code and leads to an instruction start or just behind the last instruction, with at most 1024 words on the stack |
| `CodeRewrite.RunStaysSound` | evm/libaleth-interpreter/VM.cpp:160-170 | the same over every run |
| `CodeRewrite.Vm.Decode` | evm/libaleth-interpreter/VMOpt.cpp:92-96 | the loop reads the pushed bytes as one big-endian number |
| `CodeRewrite.Vm.RewritePush` | evm/libaleth-interpreter/VMOpt.cpp:88-149 | one push: the constant joins the pool when it is wide, and the jump behind it becomes a verified one exactly when the constant is a destination |
| `CodeRewrite.PushOver` | evm/libaleth-interpreter/VMOpt.cpp:86-149 | treating one push and the jump behind it carries the pass to the next instruction |
| `CodeRewrite.Vm.RewritePushes` | evm/libaleth-interpreter/VMOpt.cpp:80-153 | every wide push ends as PUSHC with its constant in the pool, every verified constant jump as JUMPC or JUMPCI, all else as it was |
| `CodeRewrite.Vm.Optimize` | evm/libaleth-interpreter/VMOpt.cpp:42-156 | with the pass off the code is the prepared copy, with it on the rewritten form of that copy |
| `CodeRewrite.PreparedByte` | evm/libaleth-interpreter/VMOpt.cpp:42-78 | preparation replaces the opcodes 0xac to 0xae at instruction starts by 0xaf and nothing else |
| `CodeRewrite.RewrittenPush` | evm/libaleth-interpreter/VMOpt.cpp:100-117 | a push of at most five bytes stays; a wider one becomes 0xac with the number of its constant in two bytes, the higher first, and the count of bytes left |
| `CodeRewrite.RewrittenJump` | evm/libaleth-interpreter/VMOpt.cpp:120-147 | a jump becomes 0xad or 0xae exactly when the push before it pushes a destination |
| `CodeRewrite.PrimedStep` | evm/libaleth-interpreter/VMOpt.cpp:120-147 | a rewritten jump is reached only from the push before it, with the constant on top of the stack |
| `CodeRewrite.StepAgrees` | evm/libaleth-interpreter/VM.cpp:1174-1296 | in every such state rewritten and original code make the same step |
| `CodeRewrite.RunAgrees` | evm/libaleth-interpreter/VMOpt.cpp:80-153 | from every such state both programs are in the same state after every number of steps, or have ended alike |
| `CodeRewrite.EntryRunAgrees` | evm/libaleth-interpreter/VM.cpp:160-170 | so it is from the entry on, and no run of the rewritten code reads outside code or pool |
| `CodeRewrite.AgreesIffFits` | evm/libaleth-interpreter/VMOpt.cpp:103-117 | every single instruction keeps its meaning exactly when the constant of each wide push of the code is the one its 16-bit offset names |
| `CodeRewrite.RunsAgreeIff` | evm/libaleth-interpreter/VMOpt.cpp:80-153 | a run agrees for ever exactly when the original never comes to a wide push that goes through and whose constant does not fit |
| `CodeRewrite.PoolIsConstants` | evm/libaleth-interpreter/VMOpt.cpp:103-117 | the pool is the list of those constants |
| `CodeRewrite.SmallCodeFits` | evm/libaleth-interpreter/VMOpt.cpp:103-117 | so it is with at most 65536 wide pushes |
| `CodeRewrite.DetourDiffers` | evm/libaleth-interpreter/VMOpt.cpp:103-117 | a code with 65537 wide pushes whose rewritten form, from the entry, is in another state after four rounds |
| `CodeRewrite.RewriteDetour` | evm/libaleth-interpreter/VMOpt.cpp:42-156 | the preparation makes that pair of programs of that code |
| `VmGas.MemCostMonotone` | evm/libaleth-interpreter/VM.cpp:172-178 | a larger memory never costs less |
| `VmGas.MemCostIs` | evm/libaleth-interpreter/VM.cpp:172-178 | a memory of w words costs 3w and a 512th of the square of w, rounded down |
| `VmGas.PaysIff` | evm/libaleth-interpreter/VM.cpp:180-202 | a payment goes through exactly when the gas covers the price and the growth, and 63 bits count the memory needed |
| `VmGas.NeedIs` | evm/libaleth-interpreter/VM.cpp:121-124 | an access needs the memory up to its end, and none when it is empty |
| `VmGas.RoundedIs` | evm/libaleth-interpreter/VM.cpp:196-202 | memory grows to the next whole word |
| `VmGas.PricesAre` | evm/libaleth-interpreter/VM.h:27-47 | the other prices as numbers |
| `VmGas.Vm.UpdateGas` | evm/libaleth-interpreter/VM.cpp:187-194 | adds the price of growth and copying without a 64-bit wrap, and fails exactly when that is not affordable |
| `VmGas.Vm.UpdateMem` | evm/libaleth-interpreter/VM.cpp:196-202 | memory grows by whole words and never shrinks; the charge is the difference of the two prices |
| `VmGas.Vm.PayWithMemory` | evm/libaleth-interpreter/VM.cpp:180-202 | gas plus price of memory falls by exactly the charges that are not for memory, and the expansion charges so far stay equal to the price of memory |
| `VmGas.Vm.Access` | evm/libaleth-interpreter/VM.cpp:380-408 | a memory access that is paid lies inside memory, at the offset asked for when the budget is below the bound |
| `VmGas.CastExactIff` | evm/libaleth-interpreter/VM.cpp:380-408 | the 32-bit cast of offsets is exact for all paid accesses exactly below a budget just above 2^45 |
| `VmGas.CastCutsExample` | evm/libaleth-interpreter/VM.cpp:380-408 | at that budget a paid access at offset 2^32 goes to offset 0 |
| `VmGas.Vm.MLoad` | evm/libaleth-interpreter/VM.cpp:380-388 | loads the word at the offset under that budget |
| `VmGas.Vm.MStore` | evm/libaleth-interpreter/VM.cpp:390-398 | stores the word there and changes no other byte |
| `VmGas.Vm.MStore8` | evm/libaleth-interpreter/VM.cpp:400-408 | stores the byte there and changes no other |
| `VmGas.StoreThenLoad` | evm/libaleth-interpreter/VM.cpp:380-398 | a stored word is loaded back |
| `VmGas.StoredByte` | evm/libaleth-interpreter/VM.cpp:390-398 | byte i of a stored word counts 256^(31 - i) |
| `VmGas.LoadedByte` | evm/libaleth-interpreter/VM.cpp:380-388 | and so does byte i of a loaded one |
| `VmGas.Vm.Sha3` | evm/libaleth-interpreter/VM.cpp:410-425 | succeeds exactly when price and memory are covered, and loses the price per word |
| `VmGas.Vm.Log` | evm/libaleth-interpreter/VM.cpp:204-211 | succeeds exactly when price and memory are covered, and loses the price per byte and topic |
| `VmGas.Vm.Copy` | evm/libaleth-interpreter/VM.cpp:988-998 | CALLDATACOPY, and CODECOPY likewise, succeeds exactly when price and memory are covered; the copied bytes are the data from the index on, then zeros; nothing else changes and the price is per word |
| `VmGas.Vm.ReturnDataCopy` | evm/libaleth-interpreter/VM.cpp:1000-1014 | fails apart from that exactly when the access ends behind the returned data, whatever the gas, and else copies that data alone |
| `VmGas.Vm.ExtCodeCopy` | evm/libaleth-interpreter/VM.cpp:1041-1062 | the memory named holds what the host gives from the index, cut to 64 bits, on, then zeros, and nothing else changes |
| `VmGas.Vm.CopyDataToMemory` | evm/libaleth-interpreter/VMCalls.cpp:10-23 | copies and zero-fills exactly, for every 256-bit index |
| `VmGas.Vm.Create` | evm/libaleth-interpreter/VMCalls.cpp:100-160 | succeeds exactly when price and memory are covered; the callee gets all but a 64th and only what it uses is lost, so gas falls by at least the creation price |
| `VmGas.Vm.CallSetup` | evm/libaleth-interpreter/VMCalls.cpp:193-290 | succeeds exactly when price and memory are covered; the callee gets the gas asked for up to all but a 64th, with the stipend on top |
| `VmGas.CallPriceIs` | evm/libaleth-interpreter/VMCalls.cpp:221-228 | a call costs 700, 9700 with value, and 34700 when a CALL sends it to an absent account; DELEGATECALL and STATICCALL never pay for value |
| `VmGas.GivenIs` | evm/libaleth-interpreter/VMCalls.cpp:243-275 | the callee gets what is asked for, at most what is left less a 64th of it rounded down, and 2300 more when value is sent |
| `VmGas.Vm.CallOut` | evm/libaleth-interpreter/VMCalls.cpp:162-191 | what is lost apart from memory is 700, 9700 or 34700, by kind, value and presence of the account, less the stipend of 2300 and with what the callee uses, nothing when it is not entered; gas falls by at least 700; memory takes the output as far as there is room |
| `VmGas.ReturnedBytes` | evm/libaleth-interpreter/VMCalls.cpp:173-177 | the first bytes of the output arrive, and no other byte changes |
| `VmGas.Vm.Leave` | evm/libaleth-interpreter/VM.cpp:308-338 | RETURN and REVERT cost their memory growth only |
| `VmGas.Vm.Step` | evm/libaleth-interpreter/VM.cpp:261-1445 | every instruction that does not end the run lowers the gas and never shrinks memory; below the bound of the casts it leaves the memory that the instruction means |
| `VmGas.Vm.Execute` | evm/libaleth-interpreter/VM.cpp:238-256 | no run makes more steps than it has gas, none holds more gas than at its start, and its expansion charges add up to the price of the memory it gained; started below the bound of the casts it ends with the memory that its instructions mean at 256-bit offsets |
| `KBuckets.BucketsAreDepth` | lib/kbuckets.ex:84-95 | there is one bucket more than splits on the way to the own key |
| `KBuckets.SpreadNeverRefuses` | lib/kbuckets.ex:321-328 | while a full bucket with the own node is spread over its halves nothing is refused |
| `KBuckets.Split` | lib/kbuckets.ex:321-328 | a split keeps all items, however far it cascades |
| `KBuckets.Insert` | lib/kbuckets.ex:311-347 | maps exactly the item's key, or leaves the tree as it is, the latter exactly when the bucket is full and neither it nor the item is about the own node |
| `KBuckets.RefusedIff` | lib/kbuckets.ex:311-333 | an item is refused exactly when its bucket holds nineteen others, and neither they nor the item are the own node |
| `KBuckets.Delete` | lib/kbuckets.ex:245-255 | removes exactly the key |
| `KBuckets.Update` | lib/kbuckets.ex:257-271 | maps the key of an item that is there to the new item, and else changes nothing |
| `KBuckets.RunShape` | lib/kbuckets.ex:245-347 | in every reachable tree items are found under their keys and buckets hold fewer than twenty; when only the miner is marked as the own node, only buckets on its way have split |
| `KBuckets.SelfIsNeverRefused` | lib/kbuckets.ex:318-333 | the own node is never refused |
| `Arithmetic.NumberParts` | lib/kbuckets.ex:370-372 | keys are numbers with the first bit the highest: of two that part at a bit the one with the 1 is greater, by less than the bits from there on can hold |
| `KBuckets.SharedPrefixNear` | lib/kbuckets.ex:187-195 | keys that share n bits are less than 2^(256 - n) apart |
| `KBuckets.PartedKeys` | lib/kbuckets.ex:187-195 | keys that part at a later bit than the first are as far apart as their numbers |
| `KBuckets.NeighbourKeys` | lib/kbuckets.ex:187-195 | keys that differ in the last bit only are at distance one |
| `KBuckets.DistanceOffByOne` | lib/kbuckets.ex:177-195 | the distance is the shorter way round the ring of 2^256 keys, but comes out one short for keys half a ring or more apart |
| `KBuckets.ZeroDistance` | lib/kbuckets.ex:187-195 | distance zero means equal keys, or the two ends of the ring |
| `KBuckets.LookupExactIff` | lib/kbuckets.ex:273-294 | lookup by distance is exact exactly when the tree does not hold the key and the other end of the ring |
| `KBuckets.LookupMissExample` | lib/kbuckets.ex:273-294 | after inserting items at both ends of the ring a lookup of the first finds nothing |
| `KademliaSearch.WorkersAddUp` | lib/kademliasearch.ex:56-76 | waiting and busy workers are always three |
| `KademliaSearch.SettledAfter` | lib/kademliasearch.ex:60-76 | a queried node has answered and counts in the least distance, or is still asked |
| `KademliaSearch.CoveredAfter` | lib/kademliasearch.ex:58-76 | every node heard of is no nearer than the nearest answer or has a stand-in still to be asked |
| `KademliaSearch.NextKeepsInv` | lib/kademliasearch.ex:48-94 | every answer keeps this, never raises the least distance, and leaves someone asked unless the search ends |
| `KademliaSearch.AsksNearest` | lib/kademliasearch.ex:64-94 | as many candidates as workers are free are asked, the nearest first, all nearer than every node that has answered |
| `KademliaSearch.RunIsSound` | lib/kademliasearch.ex:56-94 | in every run: three workers accounted for, someone asked in every unfinished state, answers counted by queries |
| `KademliaSearch.RepeatsIff` | lib/kademliasearch.ex:64-76 | some search over a set of nodes queries a node twice exactly when the set has both ends of the ring and a farther node, two of these when two candidates are kept; never when one is |
| `KademliaSearch.TripleRepeats` | lib/kademliasearch.ex:64-76 | the repeating search over both ends and a farther node |
| `KademliaSearch.RunIsMetered` | lib/kademliasearch.ex:64-76 | in every run a node is queried at most three times, and while it is nearer than all that answered no more often than there are workers asking it |
| `KademliaSearch.SearchEnds` | lib/kademliasearch.ex:56-94 | on every finite set of nodes a search ends: no run has more than three states for each node and three besides |
| `KademliaSearch.SearchEndsSooner` | lib/kademliasearch.ex:56-94 | one state for each node and three besides when no node is queried twice |
| `KademliaSearch.AnswerIsNearest` | lib/kademliasearch.ex:78-82 | when the caller is answered without a value some queried node is as near as any heard of |
| `KademliaSearch.AnswerIsHandled` | lib/kademliasearch.ex:48-94 | every answer of a worker has a next state |

## Left out

- `HeapMerkle.InsertItems`: asks that at most sixteen stored keys share a whole hash; with more the code stops with an error, which is not an outcome of the model.
- `HeapMerkle.RootHashDecides`: the injectivity of the list encoding is part of the assumption that signatures do not collide on the lists signed.
- `KBuckets.RunShape`: that only buckets on the way to the own key split is stated for runs that mark no other item as self; a bucket with another such item splits too.
- `KBuckets.LookupExactIff`: the order of equally near items is left open, as the sort gets a strict comparison.
- `HostCache.Execute`: caches are maps and so always answer; whether the hash table does is `OpenMap`'s subject. Balances, code, logs, account existence, gas and selfdestruct are not modelled.
- `OpenMap.Map.Find`: entry counts stay below 2^32, where the index vector would be cut; returned pointers are positions.
- `CodeRewrite.AgreesIffFits`: exact for single instructions; a program whose ill-addressed constant is never reached also behaves the same, which `CodeRewrite.RunsAgreeIff` tells from its run.
- `VmGas.Vm.Step`: stack contents, host state and static-mode errors are not part of the gas model.
- `VmGas.Vm.ExtCodeCopy`: takes the host at its word not to fill more bytes than asked for.
- `VmGas.Vm.SStore`: the check of the stipend that later revisions make is not modelled.
- `Trie.RunRefines`: asks for nonempty values, as a lookup cannot tell an empty one from none; single insertions of it are covered by `Trie.AtAfterMerge`.
- `Trie.FaultIffBlocked`: whether a value is taken for a node, being longer than a hash or the padded hash of a stored two-item node, is a parameter of the model. The node database, its reference counts and the RLP encoding are not modelled; nodes are values.
- `RangeMask.RangeMask.UnionWithRange`: a range outside the ground range, where the code asserts.
- Gas tables of other revisions than Constantinople.
- Byte order and framing on the port, time-outs, worker crashes and restarts of the search, and the retry back-off of items.
- `nearer_n`, ring lists, `do_nearest_n`, trie iterators, string conversion of integers, `to_list` order: easier claims than those above.
- Kademlia's network calls, chain storage, transactions, tickets, RPC and TLS.
- `lib/abi.ex`, `lib/json.ex`, `lib/base16.ex` and the caches in `lib/lru.ex` and `lib/etslru.ex`: smaller claims.
- LegacyVM, ethash and the other seal engine headers: declarations whose bodies are not part of this model.
