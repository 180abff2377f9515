# Verified model of the pktizr scanner core

pktizr is a stateless network scanner. It walks over all pairs of a target address and a port in a
scrambled order, builds a probe for each pair, sends it at a bounded rate, and recognises replies by
a cookie instead of keeping state. This project models the parts of it where correctness is not
obvious, in Dafny 4.11, and proves what they promise. `dafny verify dfyconfig.toml` checks everything.

| files | what they model |
|---|---|
| `Feistel`, `FeistelTheorems`, `CycleWalk`, `Shuffle`, `RoundValues`, `FeistelLimits`, `ShuffleLimits`, `UnshuffleLimits` | the permutation of `[0, range)`: a generalized Feistel cipher with cycle walking, and its inverse |
| `Ranges`, `RangeOrder`, `RangePick`, `Cidr` | lists of address and port ranges: adding, counting, picking, CIDR blocks |
| `Scan`, `Duplicates`, `Targets`, `Bucket`, `ScanLoop` | the send loop: which pair is probed when, and the token bucket |
| `Queue` | the queue between the receiving threads and the send loop, as atomic steps |
| `Headers`, `Encode`, `Fields`, `Pack`, `Unpack`, `RoundTrip`, `Framing` | the packet codec |
| `Frames`, `FrameBytes` | the codec in numbers: which byte of a frame is which field |
| `Chksum`, `Checksums` | the Internet checksum and where the packer puts it |
| `Hash`, `Cookie`, `Syn`, `SynFrames`, `SynLimits` | the cookie hash and the probe/reply protocol of the SYN script |
| `Words`, `Bits`, `WordBytes`, `Finite`, `Counting`, `HashTrace` | arithmetic, bitwise operations on naturals, finite maps, counting, hashes of particular messages |

## How the model reads the code

- Integers are unbounded in Dafny; every 8-, 16-, 32- and 64-bit wrap-around that the code can reach is
  written out as a remainder. Bitwise operations are functions on naturals.
- The host is little-endian, as the casts in src/pkt_chksum.c and src/pkt_cookie.c need for the results
  described here. IPv4 addresses are the four bytes in memory order.
- `double` in src/bucket.c becomes `real`, and `sqrt` in src/shuffle.c the integer square root.
- The atomic operations of src/queue.h interleave under sequential consistency. Enqueued nodes are not in
  the queue and have a NULL link, as src/pkt.c:88 leaves them; a returned node may be enqueued again.
- The clock, the answers of the queue, of the script and of the packer in each turn of the send loop, the
  `stop` flag and the end of the run are arbitrary inputs.
- The round function of the cipher is arbitrary in `Feistel` and `FeistelTheorems`, and the shipped hash in
  `Shuffle`, `ShuffleLimits` and `UnshuffleLimits`.
- A packet is a sequence or array of layers, innermost layer first for the packer and outermost first from
  the decoder, as in the code's linked lists.

## What is not as promised

Some natural claims about the code are false. Each has an input on which it fails and the exact condition
under which it holds.

- *The shuffle is a permutation.* Adding the round value wraps at 2^64. For do_shuffle on [0, a*b),
  `CipherPermutesIff`: a permutation if and only if no round wraps harmfully. For shuffle on [0, range),
  `VisitOrderPermutesIff`: every walk ends and every index is visited once if and only if the cipher keeps
  the points of the walks apart; no harmful wrap is sufficient (`ExactSeparates`) and not necessary
  (`HarmfulWrapUnvisited`). `ShippedShuffleCollides`: with the shipped hash and one particular seed the walks
  from indices 1 and 2 of a scan of four pairs coincide. The test in tests/shuffle.c:36 counts the argument
  instead of the result and cannot see this.
- *unshuffle undoes shuffle.* The code compares the difference, not the operands, to decide about the sign.
  `UnroundInvertsIff` gives the exact window of a round. `DecryptEncryptIff`: do_unshuffle recovers
  everything if and only if all rounds are in their windows, provided that peculiar round values, at most
  one for each side, occur in at most one round; `WrongRoundsCancel` shows why those are set apart.
  `RetracesIff`: unshuffle retraces the walks of shuffle if and only if do_unshuffle undoes do_shuffle at the
  points that they visit. `ShippedUnshuffleFails`: with the shipped hash, one particular seed and 121 pairs,
  shuffle(22) is 20 and unshuffle(20) is 28.
- *The number of addresses is counted.* `CountIff`: right if and only if no range spans all 2^32 values.
  `EverythingCountsZero`: `0.0.0.0/0` counts as zero addresses.
- *Adding ranges adds their addresses, once.* `AddsExactIff`: the list is exact after every add if and only
  if no add finds a list on which it drops or overlaps something. `WideLastLoses`: a range that strictly
  contains the first range it matches loses its upper part. `TouchingCountedTwice`: a range that starts where
  another one ends is kept beside it, and the address they share is counted twice.
- *`--count` sends duplicates of every probe* (docs/pktizr.rst:43-45). `CountTimesIff`: each pair is handed out
  count times if and only if the count is 1 or there is a single target. `PairMultiplicity` gives the number
  for every pair: with n targets the t-th one comes with each port count * min(count, n - t * count) times, or
  never if that is not positive. The model follows the code.
- *A reply to a probe is recognised.* `ReplyMatchedIff`: if and only if the sequence number of the probe is
  not 2^32 - 1. `UnmatchedProbe`: a seed, addresses and a port for which it is.

## Model

| member | source | states |
|---|---|---|
| `Feistel.DoShuffle` | src/shuffle.c:122-139 | the loop over L, R and tmp computes the composition of the rounds, for every round function, every number of rounds and every side lengths |
| `Feistel.DoUnshuffle` | src/shuffle.c:141-179 | the backward loop, with the wrapped difference and its comparison with R, computes the composition of the backward rounds |
| `Feistel.MixResidue` | src/shuffle.c:130-131 | unless an addition wraps harmfully, a round adds the round value modulo the side |
| `Feistel.MixInjective` | src/shuffle.c:130-131 | and then the left half can be told from the result |
| `Feistel.MixCollides` | src/shuffle.c:130-131 | otherwise two different left halves collide |
| `Feistel.UnmixInverts` | src/shuffle.c:154-172 | inside the window of round values the branches on the difference recover the left half |
| `Feistel.UnmixFails` | src/shuffle.c:154-172 | outside it, some left half is not recovered |
| `Feistel.UnmixCollides` | src/shuffle.c:154-172 | and, but for one peculiar value of each side, two right halves are merged |
| `FeistelTheorems.CipherPermutes` | src/shuffle.c:122-139 | without harmful wraps the cipher permutes [0, a*b), for odd and even numbers of rounds |
| `FeistelTheorems.StateReached` | src/shuffle.c:126-135 | every pair of halves in range occurs after any number of such rounds |
| `FeistelTheorems.BadRoundCollides` | src/shuffle.c:129-135 | the first round that wraps harmfully makes two inputs of the whole cipher collide |
| `FeistelTheorems.CipherPermutesIff` | src/shuffle.c:122-139 | the cipher permutes [0, a*b) if and only if no round wraps harmfully |
| `FeistelTheorems.UnroundInvertsIff` | src/shuffle.c:153-176 | a backward round undoes its round on all states if and only if all its round values are in the window |
| `FeistelTheorems.DecryptEncrypt` | src/shuffle.c:122-179 | with all rounds in the window do_unshuffle undoes do_shuffle on all of [0, a*b), odd and even numbers of rounds |
| `FeistelTheorems.MergedNotRecovered` | src/shuffle.c:153-176 | states that some backward round merges cannot be told apart by any other rounds, so that some index is not recovered |
| `FeistelTheorems.DecryptEncryptIff` | src/shuffle.c:122-179 | however many rounds are outside the window: everything is recovered if and only if all are inside, as long as peculiar values occur in at most one round |
| `FeistelLimits.WrongRoundsCancel` | src/shuffle.c:141-179 | five rounds of which two are wrong backwards and which still recover everything, because the two peculiar values make up for each other |
| `FeistelLimits.HarmfulWrapUnvisited` | src/shuffle.c:122-139 | a round function with a harmful wrap under which all indices of the range stay where they are |
| `CycleWalk.MeetBack` | src/shuffle.c:92-94 | if visited points are kept apart, two walks that meet outside have the same start and the same length |
| `CycleWalk.NoRepeat` | src/shuffle.c:92-94 | and a walk that stays out of range never meets a point twice |
| `CycleWalk.OutsidePointsDistinct` | src/shuffle.c:92-94 | a walk still outside after k steps has used up k of the n - range outside points |
| `CycleWalk.WalkReturns` | src/shuffle.c:89-97 | it is back in range after at most n - range + 1 applications |
| `CycleWalk.FirstReturnSeparates` | src/shuffle.c:89-97 | two indices with the same first return are the same index |
| `CycleWalk.PermutedSeparates` | src/shuffle.c:89-97 | conversely, if all walks return and no two to the same index, visited points are kept apart |
| `CycleWalk.WalkPermutesIff` | src/shuffle.c:89-97 | for every map of [0, n) to itself: all walks return and the first returns permute [0, range), if and only if the map sends different visited points to different points |
| `CycleWalk.FirstReturnPermutes` | src/shuffle.c:89-97 | in particular, cycle walking turns a permutation of [0, n) into one of [0, range) |
| `CycleWalk.RetracesIff` | src/shuffle.c:99-107 | backward walks visit the points of the walks in reverse, if and only if the backward map undoes the map at every visited point |
| `CycleWalk.WalkBackReturns` | src/shuffle.c:99-107 | and then a backward walk returns to the start, in as many steps and not earlier |
| `Shuffle.IsqrtIs` | src/shuffle.c:52-78 | the integer part of the square root, which is all that the set-up uses |
| `Shuffle.SidesAre` | src/shuffle.c:51-82 | the first side is one less than the root (1, 1, 2 for ranges 1, 2, 3), the second one the least that makes a*b exceed the range |
| `RoundValues.RoundMessage` | src/shuffle.c:109-120 | F hashes sixteen bytes, which are the eight bytes of the round number and the eight bytes of the right half |
| `RoundValues.RightHalvesSeparate` | src/shuffle.c:109-120 | right halves that differ in exactly one of their eight bytes have round values that differ in the low 16 bits, for every seed and round |
| `RoundValues.RoundNumbersSeparate` | src/shuffle.c:109-120 | the same for round numbers |
| `Shuffle.VisitOrderPermutesIff` | src/shuffle.c:51-97 | for every seed and every range whose a*b does not overflow: a shuffled scan ends each walk and visits each index exactly once, if and only if the cipher keeps the points of the walks apart |
| `Shuffle.ExactSeparates` | src/shuffle.c:51-97 | it does whenever no round wraps harmfully |
| `Shuffle.Shuffle.Init` | src/shuffle.c:51-87 | the set-up ends, with a >= 1 and range < a*b <= range + a, and with the sides that the order is defined by |
| `Shuffle.Shuffle.Shuffle` | src/shuffle.c:89-97 | for every index whose walk returns, the do-while ends at its first return; after at most a*b - range + 1 <= a + 1 rounds if visited points are kept apart |
| `Shuffle.Shuffle.Unshuffle` | src/shuffle.c:99-107 | for every index whose backward walk returns, the backward do-while ends at its first return |
| `Shuffle.Shuffle.OrderPermutesIff` | src/shuffle.c:89-97 | the same equivalence for the object: all walks return and visit each index once, if and only if visited points are kept apart |
| `Shuffle.Shuffle.UnshuffleTarget` | src/shuffle.c:99-107 | where visited points are undone, walking back from m returns, to the index that shuffle sends to m |
| `Shuffle.Shuffle.InvertibleUndoes` | src/shuffle.c:99-107 | visited points are undone whenever all rounds are in their windows |
| `Shuffle.Shuffle.RoundTrip` | tests/shuffle.c:30-34 | where visited points are undone, unshuffle(shuffle(m)) = m and shuffle(unshuffle(m)) = m for every m below the range |
| `ShuffleLimits.SecondRound` | src/shuffle.c:109-120 | with one particular seed the shipped hash gives 2^64 - 2 for round 2 and right half 0 |
| `ShuffleLimits.SecondRoundCollides` | src/shuffle.c:122-139 | any round function with that value merges the indices 1 and 2 for the sides 1 and 5 |
| `ShuffleLimits.ShippedShuffleCollides` | src/shuffle.c:43-120 | four pairs give the sides 1 and 5; with that seed the cipher is no permutation and the walks from 1 and 2 agree at every step |
| `UnshuffleLimits.ShippedUnshuffleFails` | src/shuffle.c:43-179 | 121 pairs give the sides 10 and 13; with one particular seed shuffle(22) = 20 and unshuffle(20) = 28 |
| `Ranges.RangeList.constructor` | src/ranges.c:55 | a new list is empty |
| `Ranges.RangeList.Add` | src/ranges.c:150-181 | the two loops change the list in place to the value that the set-level results below are about |
| `Ranges.AddedCovers` | src/ranges.c:150-181 | exactly the addresses from start up to the kept end are added; the kept end is end, unless the first match lies strictly inside |
| `Ranges.AddedProper` | src/ranges.c:150-181 | adding keeps every range well-formed |
| `Ranges.AddedIsUnionIff` | src/ranges.c:150-181 | the new set is the union if and only if everything above the kept end was covered before |
| `RangeOrder.AddedDisjointIff` | src/ranges.c:150-181 | a sorted disjoint list stays so if and only if the new range is clean, a condition on the first match and its neighbour |
| `RangeOrder.AddedAllSound` | src/ranges.c:150-181 | over any run of adds no address outside the specifications ever enters the list |
| `RangeOrder.AddsExactIff` | src/ranges.c:150-181 | over any run of adds: the list is sorted, disjoint and exact after every add, if and only if no add finds a list on which it drops something uncovered or is not clean |
| `RangeOrder.AddedAllApart` | src/ranges.c:150-181 | pairwise disjoint ranges are kept as they are, sorted, whatever their order |
| `RangeOrder.SortedUnique` | src/ranges.c:173-180 | a sorted disjoint list is determined by which ranges it holds |
| `RangeOrder.OrderIrrelevant` | src/ranges.c:150-181 | any reordering of pairwise disjoint ranges gives the same list |
| `RangePick.CountList` | src/ranges.c:139-148 | the loop adds up the lengths as they are computed in 32 bits |
| `RangePick.Pick` | src/ranges.c:119-133 | the loop computes the picked value, or 0 behind the end of the list |
| `RangePick.CountShort` | src/ranges.c:139-148 | the count falls short of the number of elements by 2^32 for every range that spans everything |
| `RangePick.CountIff` | src/ranges.c:139-148 | the count is the number of elements if and only if no range spans all 2^32 values |
| `RangePick.TouchingCountedTwice` | src/ranges.c:154-180 | for r.start <= r.end < e, adding [r.end, e] to [r] gives two ranges, counts r.end twice and picks it twice |
| `RangePick.TouchingBelowMerged` | src/ranges.c:157-160 | a range that ends where another one starts is merged with it |
| `RangePick.PickedIsElement` | src/ranges.c:119-133 | index k picks the k-th element of the flattened list |
| `RangePick.FlattenCovers` | src/ranges.c:119-133 | the elements are exactly the values that the list covers |
| `RangePick.FlattenIncreasing` | src/ranges.c:119-133 | on a sorted disjoint list picking is strictly increasing in the index |
| `RangePick.DisjointCountBound` | src/ranges.c:139-148 | a sorted disjoint list has at most 2^32 elements |
| `Cidr.BlockBounds` | src/ranges.c:69-72 | the shift, the mask and the complement give the aligned start and the last address of the block |
| `Cidr.BlockIs` | src/ranges.c:69-74 | a prefix of n bits stands for the aligned block of 2^(32-n) addresses around the address |
| `Cidr.BlocksNestedOrApart` | src/ranges.c:69-72 | any two blocks are nested or disjoint |
| `Cidr.ParseTargets` | src/ranges.c:55-77 | the loop adds the blocks of the resolved specifications in order |
| `Cidr.BlocksList` | src/ranges.c:57-75 | for ranges that are nested or disjoint, wide ones first: the list is sorted, disjoint, made of given ranges and covers exactly their union |
| `Cidr.TargetsExact` | src/ranges.c:57-75 | the same for every list of specifications in which no block follows one it strictly contains |
| `Cidr.WideFirstOrderly` | src/ranges.c:57-75 | such a list meets the exact condition of AddsExactIff |
| `Cidr.WideLastLoses` | src/ranges.c:157-160 | a range followed by one strictly around it: what lies above the first range is lost, and nothing else |
| `Scan.ProbeIs` | src/pktizr.c:383-388 | with count 1 an index is split into an element of the targets and an element of the ports |
| `Scan.ProbeInjective` | src/pktizr.c:383-388 | different indices give different pairs |
| `Scan.ProbeOnto` | src/pktizr.c:383-388 | every wanted pair has an index |
| `Scan.Trace` | src/pktizr.c:383-390 | the pairs handed out in the first n steps, in the order of the visited indices |
| `Scan.ScanComplete` | src/pktizr.c:335-390 | a whole scan with count 1 has every wanted pair at exactly one place of its trace and nothing else, whatever permutation orders the indices |
| `Scan.ScanCompleteIff` | src/pktizr.c:335-390 | and only if a permutation orders them |
| `Duplicates.IndicesOfPair` | src/pktizr.c:337-388 | for every count, the number of indices that pick the t-th of n addresses and any one port is count * min(count, n - t * count), or 0 if that is not positive |
| `Duplicates.PairMultiplicity` | src/pktizr.c:337-390 | and so often the pair occurs in the trace of every scan that visits each index once, whatever the order |
| `Duplicates.IndexPair` | src/pktizr.c:385-388 | each index picks address number (index % n) / count and port number (index / n) / count of the flattened lists, so that only wanted pairs are handed out |
| `Duplicates.ReachedIff` | src/pktizr.c:385-388 | the t-th of n addresses is reached at all if and only if t * count < n |
| `Duplicates.AllReachedIff` | src/pktizr.c:335-388 | all wanted pairs are reached if and only if the count is 1 or there is a single target |
| `Duplicates.CountTimesIff` | docs/pktizr.rst:43-45 | every wanted pair is handed out exactly count times if and only if the count is 1 or there is a single target |
| `Targets.TargetsScannable` | src/ranges.c:55-77 | specifications that are parsed exactly, to no full range, give a list that is counted and picked from correctly |
| `Targets.DescendingIsGood` | src/ranges.c:55-77 | specifications without /0, no block after one strictly inside it, are of this kind |
| `Targets.EverythingCountsZero` | src/ranges.c:69-74 | 0.0.0.0/0 is parsed to all addresses and counted as none |
| `Targets.ScanSpecs` | src/pktizr.c:335-390 | from the specifications through parsing, shuffling and the send loop: a run that is through has handed out exactly the addresses of the union of the blocks at the wanted ports, each pair once |
| `Bucket.ReadyIff` | src/bucket.c:55-58 | the comparison of the accrued tokens with 1 in terms of elapsed time and rate |
| `Bucket.Bucket.Init` | src/bucket.c:40-44 | the bucket starts full |
| `Bucket.Bucket.Consume` | src/bucket.c:46-71 | waits for the first clock reading at which a token has accrued, never less or longer; a bucket short of at most one token is full afterwards; rate 0 does not wait |
| `ScanLoop.OrderPermutesIff` | src/pktizr.c:383 | the visited indices are a permutation, if and only if shuffling, if any, keeps the points of its walks apart |
| `ScanLoop.PickProbe` | src/pktizr.c:383-388 | the pair of step i, including the truncations to 32 and 16 bits |
| `ScanLoop.SpacedStretch` | src/bucket.c:46-71 | any stretch of sends takes at least as long as the rate asks for |
| `ScanLoop.AwaitToken` | src/pktizr.c:366 | after the wait the tokens equal the rate and a token's time has passed since the last send; the wait fails only if the clock ends before that |
| `ScanLoop.Send` | src/pktizr.c:305-321 | a packet that fits is counted and keeps the spacing; one token is taken either way |
| `ScanLoop.TokensStep` | src/pktizr.c:366-399 | what a turn leaves in the bucket: one token less exactly if a packet was handed to pkt_send |
| `ScanLoop.HandOut` | src/pktizr.c:379-392 | a turn for the script extends the trace of pairs by the next one |
| `ScanLoop.CountedStep` | src/pktizr.c:368-399 | what a turn adds to the counters, and that the first idle turns, as many as there are steps, are the ones that hand out pairs |
| `ScanLoop.SendLoop` | src/pktizr.c:360-403 | in every run the counters, the tokens, the trace of pairs and the send times are what the turns so far determine; the run stops early only for want of a token |
| `ScanLoop.RateBound` | docs/pktizr.rst:33 | spaced sends: (packets sent) * 10^6 <= (now - start) * rate |
| `ScanLoop.CompleteScanIff` | src/pktizr.c:335-390 | once through with count 1 and proper lists, every wanted pair has been handed out exactly once, if and only if shuffling, if any, keeps the points of its walks apart |
| `ScanLoop.StepsSplit` | src/pktizr.c:383-388 | step k hands out the pair that k, or the first return of the cipher's walk from k if shuffled, is split into |
| `ScanLoop.LoopCb` | src/pktizr.c:323-408 | at any point of any run over any lists: counters, trace, spacing and the rate bound; over proper lists, which pair each step handed out; once through, how often each pair was handed out for any count, and the exact condition for each pair exactly once with count 1 |
| `Queue.ExchangeKeepsInv` | src/queue.h:57-58 | the exchange of the tail keeps the invariant |
| `Queue.LinkKeepsInv` | src/queue.h:59 | the late store of the link keeps the invariant |
| `Queue.AdvanceKeepsInv` | src/queue.h:73-94 | every load, store and compare-and-swap of the dequeuer keeps the invariant |
| `Queue.NextKeepsInv` | src/queue.h:57-94 | every step of every enqueuer and of the dequeuer keeps the invariant |
| `Queue.RunInv` | src/queue.h:47-94 | the invariant holds at every point of every interleaving |
| `Queue.StepIsFifo` | src/queue.h:57-94 | seen from outside, each step is a step of a first-in first-out queue |
| `Queue.RunHistories` | src/queue.h:57-94 | the exchanged and returned nodes of a stretch of a run are appended to the histories in order |
| `Queue.Fifo` | src/queue.h:57-94 | in every interleaving the nodes returned so far are a prefix of the nodes in the order of their exchanges |
| `Queue.NullMeansEmpty` | src/queue.h:52-77 | NULL is answered only at an instant at which everything exchanged has been returned |
| `Queue.EnqueuerWritesLive` | src/queue.h:59 | an enqueuer writes only into the head or into a node that has not been returned |
| `Queue.ReturnedStaysFree` | src/queue.h:73-94 | in every interleaving, from its return until it is enqueued again, a node is not in the queue, nobody has its address and no enqueuer is about to write it, so that freeing it is safe |
| `Queue.SpinHasCause` | src/queue.h:64-71 | a spin waits only for an enqueuer between its exchange and its store |
| `Queue.EnqueueResult` | src/queue.h:57-62 | in every interleaving the answer of queue_enqueue is whether something was enqueued and not yet returned at the instant of its exchange |
| `Queue.AloneProgresses` | src/queue.h:73-94 | with no enqueuer in between every step brings the call closer to its return |
| `Queue.AloneDequeues` | src/queue.h:73-94 | left alone, a call returns the oldest node, or NULL exactly if there is none |
| `Chksum.Sum` | src/pkt_chksum.c:40-50 | the loop adds up the little-endian words and an odd last byte, without overflow up to 0x20000 bytes |
| `Chksum.PktChksum` | src/pkt_chksum.c:52-59 | the folding loop takes at most two rounds; the result is the complement of the folded sum |
| `Chksum.FoldIsOnes` | src/pkt_chksum.c:55-56 | folding gives the ones-complement representative of the sum |
| `Chksum.ComplementVerifies` | src/pkt_chksum.c:55-58 | adding the complement makes the sum fold to all ones |
| `Chksum.ByteOrderIndependent` | src/pkt_chksum.c:40-59 | the folded little-endian sum is the byte-swapped folded big-endian sum, for every length (section 2(B) of RFC 1071) |
| `Chksum.StoredBytesAreNetworkOrder` | src/pkt_chksum.c:40-59 | the little-endian store of the little-endian checksum puts the bytes of the big-endian definition on the wire |
| `Chksum.SealedVerifies` | src/pkt_chksum.c:40-59 | a block whose checksum field was zero verifies once the checksum is stored at an even offset |
| `Headers.FlagsInvert` | src/pkt_tcp.c:40-95 | the TCP flags are recovered from their byte |
| `Headers.TcpInverts` | src/pkt_tcp.c:40-95 | the TCP decoder recovers every field that was encoded |
| `Headers.Ip4Inverts` | src/pkt_ip4.c:40-96 | the same for the IPv4 header |
| `Headers.ArpInverts` | src/pkt_arp.c:90-153 | the same for ARP, with addresses of any announced lengths |
| `Headers.EthInverts` | src/pkt_eth.c:53-81 | the same for Ethernet |
| `Headers.ParseWire` | src/pkt.c:155-237 | decoding an encoded layer of any kind gives it back, whatever follows it |
| `Unpack.ParseShrinks` | src/pkt.c:202-246 | each turn of the decoder leaves fewer bytes, or as many and a lower kind, also where a header length from the wire is 0 |
| `Unpack.PktUnpack` | src/pkt.c:192-251 | ends on every byte string, reads only inside it, gives the decoded layers or 0, and never more than (length + 1) / 4 of them |
| `Frames.RefusedIff` | src/pkt.c:192-251 | exactly which buffers give 0: shorter than 14, cut in an ARP, IPv4, ICMP, UDP or TCP header, or with a version other than 4 where IPv4 is announced, down to the innermost quoted packet |
| `Frames.TcpFrame` | src/pkt.c:192-251 | type 08 00 and protocol 6: the fields of all three headers at their byte offsets, whatever the header lengths, and the payload behind the TCP options |
| `Frames.UdpFrame` | src/pkt_udp.c:55-70 | the same for protocol 17 |
| `Frames.IcmpFrame` | src/pkt_icmp.c:52-74 | the same for protocol 1 with a type other than 3, 4, 5 and 11 |
| `Frames.IcmpErrorFrame` | src/pkt_icmp.c:66-70 | behind types 3, 4, 5 and 11 the quoted packet is decoded, or refused, as it would be in a frame of its own |
| `Frames.ArpFrame` | src/pkt_arp.c:115-153 | type 08 06: the fields and the four addresses at their offsets, and nothing behind them |
| `Frames.OtherFrame` | src/pkt_eth.c:72-81 | frames of any other type, or that end there, are just their Ethernet header |
| `Frames.OtherProtocol` | src/pkt_ip4.c:84-95 | behind any other protocol, or where the IPv4 header reaches to the end, nothing is decoded |
| `Unpack.LayersLinear` | src/pkt.c:202-246 | the number of layers is linear in the length, for every starting kind |
| `Unpack.DecodeAnnounced` | src/pkt.c:202-246 | in every decoded stack each layer is of the kind that the layer before it announced |
| `Encode.SealChangesOnlyChecks` | src/pkt.c:155-187 | writing a layer changes nothing in it but the checksum and the reserved TCP bits |
| `Encode.FilledIsBuilt` | src/pkt.c:98-148 | the first pass keeps a well-built stack well-built and does not change its total length |
| `Encode.EncodedSuffix` | src/pkt.c:153-187 | the inner layers are the end of the bytes of the whole stack |
| `RoundTrip.DecodeIffChained` | src/pkt.c:192-251 | the bytes of a filled stack decode to its layers if and only if every layer announces the one above it |
| `RoundTrip.ChainedIffCarries` | src/pkt.c:98-148 | the first pass makes layers announce each other exactly where the caller stacked kinds that can carry each other |
| `RoundTrip.RoundTripIff` | src/pkt.c:93-251 | for every stack of headers without options, of any depth: pkt_unpack of pkt_pack's bytes gives the same layers outermost first, with the fields that were filled in, if and only if the stack is an Ethernet frame in which every layer carries the next |
| `Framing.DecodeFramed` | src/pkt.c:192-251 | frames of other hosts: with any IP and TCP options, at any depth, the decoder finds exactly the layers of the frame |
| `Checksums.LayerVerifies` | src/pkt.c:153-187 | every layer with a checksum verifies over the bytes and the pseudo header it was computed from, and the field is exactly the complement of the folded sum of the rest |
| `Checksums.SegmentLength` | src/pkt_chksum.c:70 | the 16-bit length of the pseudo header is the length of the segment |
| `Checksums.SegmentVerifies` | src/pkt_chksum.c:61-79 | in the finished buffer, at any depth, a UDP or TCP segment directly above IPv4 verifies with the pseudo header read from the wire, with exactly the complement of the folded sum in its field |
| `Checksums.HeaderVerifies` | src/pkt.c:153-187 | the same for every IPv4 header, every ICMP message and every segment that is not above IPv4 |
| `FrameBytes.EthBytes` | src/pkt.c:102-116 | in the finished buffer the addresses and the type of an Ethernet header are at their offsets, the type being 08 06 below ARP and 08 00 below IPv4 |
| `FrameBytes.Ip4Bytes` | src/pkt.c:118-137 | every field of an IPv4 header is at its offset; the length is the number of bytes up to the end of the frame modulo 2^16, the protocol 1, 17 or 6 below ICMP, UDP or TCP |
| `FrameBytes.UdpBytes` | src/pkt.c:139-141 | the ports of a UDP header are at their offsets, and its length is the number of bytes up to the end of the frame modulo 2^16 |
| `FrameBytes.TcpBytes` | src/pkt_tcp.c:44-60 | every field and flag of a TCP header is at its offset and bit, and the reserved bits are those the buffer held |
| `FrameBytes.IcmpBytes` | src/pkt_icmp.c:43-47 | type, code, identifier and sequence number of an ICMP header are at their offsets |
| `FrameBytes.ArpBytes` | src/pkt_arp.c:90-113 | the fields and the four addresses of an ARP packet are at their offsets |
| `FrameBytes.RawBytes` | src/pkt_raw.c:41-43 | a payload is copied as it is |
| `Fields.Store` | src/pkt_raw.c:41-43 | a copy into the buffer changes exactly the bytes it covers |
| `Fields.StoreFields` | src/pkt_arp.c:90-113 | fields stored one after the other leave exactly their concatenation in the buffer |
| `Fields.TcpIs` | src/pkt_tcp.c:44-60 | the fields and bit-fields of a TCP header make up its wire form, except that the reserved bits keep what the buffer held |
| `Fields.Ip4Is` | src/pkt_ip4.c:43-53 | the fields of an IPv4 header make up its wire form, with checksum zero |
| `Pack.PackHeader` | src/pkt.c:155-187 | the stores of each packer up to the checksum write the header and nothing else |
| `Pack.StoreChecksum` | src/pkt_ip4.c:51-55 | the checksum of the bytes up to the end is stored over its own field, and nothing else changes |
| `Pack.PackChecked` | src/pkt_tcp.c:40-66 | the packers of the four headers with a checksum write the sealed layer in place and nothing else (IPv4, ICMP, UDP and TCP) |
| `Pack.PackLayer` | src/pkt.c:155-187 | one turn of the second pass, for every kind of layer |
| `Pack.FillLayer` | src/pkt.c:99-147 | one turn of the first pass |
| `Pack.FirstPass` | src/pkt.c:98-148 | the stack is filled in in place, each layer once, and the total length is computed |
| `Pack.ProgressStep` | src/pkt.c:155-187 | packing the next layer outwards leaves everything written so far alone |
| `Pack.SecondPass` | src/pkt.c:153-187 | the layers are written from the end of the frame backwards |
| `Pack.PktPack` | src/pkt.c:93-190 | the stack is filled in; a short buffer gives -1 and stays as it was; otherwise the frame is written, and no byte behind it changes |
| `Hash.Pyrhash` | src/hash.h:40-67 | the loop computes the hash that the results below are about, 0 for the empty message |
| `Hash.TimesLow` | src/hash.h:61 | multiplication by 1000003 is injective modulo every power of two up to 2^64 |
| `Hash.AbsorbLow` | src/hash.h:60-61 | a step of the loop is a bijection of the state modulo 2^k, for every k up to 64 |
| `Hash.ByteSeparates` | src/hash.h:61 | two bytes absorbed into the same state separate in the low 8 bits |
| `Hash.FirstByteSeparates` | src/hash.h:56-61 | the first byte, which enters twice, separates in the low 15 bits |
| `Hash.DigestSeparates` | src/hash.h:40-67 | messages of equal length that differ in one byte have hashes that differ in the low 16 bits, for every key |
| `Cookie.PktCookie` | src/pkt_cookie.c:35-50 | the cookie is the hash of the connection under the doubled seed |
| `Cookie.BufferIs` | src/pkt_cookie.c:44-47 | the sixteen hashed bytes: destination address and port, source address and port, the ports little-endian in 32-bit words |
| `Cookie.CookieSeparates` | src/script.c:303-352 | connections one byte apart have different cookies under every seed, also cut to 16 and to 32 bits |
| `Cookie.NeighbouringPorts` | src/pkt_cookie.c:44-47 | destination ports that differ in one byte are such connections |
| `Syn.AnswerRecognisedIff` | scripts/syn.lua:39-49 | a reply with swapped addresses and ports that acknowledges the number plus one passes the check if and only if the number is not 2^32 - 1 |
| `Syn.OtherConnectionRejected` | scripts/syn.lua:39-49 | the same acknowledgement from a connection one byte away never passes |
| `Syn.RstClosesConnection` | scripts/syn.lua:51-73 | what is sent after a match is a reset of the probed connection, numbered as its target expects: its addresses, ports, header length, numbers and all its flags |
| `Syn.TcpBehindIp4` | src/script.c:193-212 | in any decoded frame the TCP header that recv looks at is the third layer, behind an IPv4 header |
| `SynFrames.ProbeOnWire` | scripts/syn.lua:7-25 | the 54 bytes of a probe in numbers: type 08 00, IPv4 with length 40 and ttl 64, TCP from port 64434 with the cookie as its number, acknowledgement 0, window 5840 and SYN alone |
| `SynFrames.ProbeArrives` | scripts/syn.lua:7-25 | those bytes decode to a SYN of the probed connection with that number |
| `SynFrames.RecvFrameIff` | scripts/syn.lua:27-58 | recv on any frame, in bytes: it reacts if and only if there is a whole TCP header behind an IPv4 header, ACK is set and the acknowledged number minus one is the cookie of the mirrored connection; SYN and RST decide between open and closed |
| `SynFrames.ReplyMatchedIff` | scripts/syn.lua:18-58 | end to end on bytes: any reply to the bytes of a probe is ignored if and only if the number of the probe is 2^32 - 1, and otherwise reported open or dropped as closed by its flags |
| `SynLimits.UnmatchedProbe` | scripts/syn.lua:18-49 | for one seed, pair of addresses and port the number is 2^32 - 1, and then no reply is ever recognised |

## Left out

- DecryptEncryptIff: peculiar round values in two or more rounds, where the equivalence is false (WrongRoundsCancel).
- Shuffle.RoundTrip: sufficient for the values of unshuffle; exact is that it retraces the walks (RetracesIff).
- Shuffle.Init: range 0, for which the loop of the set-up never ends, and ranges for which a*b overflows 64 bits.
- Shuffle.Shuffle: indices whose walk never returns, for which the loop does not end.
- LoopCb: that each pair is handed out once only for count 1, because it is false otherwise (CountTimesIff).
- PktPack: frames up to 0x1FFF0 bytes, beyond which the 32-bit checksum accumulator could overflow.
- SegmentVerifies: IPv4 headers with ihl 5 and datagrams below 2^16 bytes, because the length field cannot hold more.
- RoundTripIff: header lengths other than 5 in what is packed, because the packer writes no options; received options are in DecodeFramed.
- Recv: printing and the refcounts of the packets; the reset is the value passed to send.
- Rounding of `double` and of `sqrt`, and weak memory ordering: see "How the model reads the code".
- Liveness of the queue under interference: only that every spin has a cause and that an undisturbed call returns.
- String parsing of target and port specifications, name resolution, option parsing, the status line, signals.
- Ports above 65535 and reversed ranges, which the port parser lets through; the coverage results are for proper lists.
- The zero-checksum rule for UDP of RFC 768, which the code does not apply.
- pkt_new, pkt_free, refcounts and the linked lists of layers; layers are values in sequences and arrays.
- pkt_build_eth, pkt_build_arp and the field setters of src/script.c: each is a few plain assignments.
- src/netdev*.c, src/routes_linux.c, src/resolv*.c, the rest of src/script.c, the other scripts, the fuzz tool.
