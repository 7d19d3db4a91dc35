# cgminer: a verified model of its data structures and schedulers

This Dafny project models the parts of cgminer whose behaviour is decided by the code alone, without
hardware or network, and proves what they are for. `dafny verify dfyconfig.toml` checks all of it.

| files | what they model |
|---|---|
| `Merkle`, `BlockTemplate` | Merkle branches, Merkle roots and the witness commitment of a block template |
| `CrcSpec`, `Crc16`, `CrcPeriod`, `CrcDistance`, `AvalonPacket` | the table-driven CRC against division by x^16 + x^12 + x^5 + 1, the errors it catches, and the packets framed with it |
| `Priorities`, `PoolRotation`, `QuotaGcd`, `UsageRescale`, `QuotaScheduler`, `PoolManager`, `RotationIndex`, `FairRound` | the pool table: priorities, switching, quotas, selection |
| `Staging`, `CloneWork` | the staged work queue and the loop that rolls and clones work |
| `CurlPool` | the pool of curl handles with its condition variable, under every interleaving |
| `ApiEscape`, `ApiRing` | string escaping, field splitting and the circular `api_data` lists of the API |
| `ShiftBits`, `BfList`, `CmdBuffer` | the BF16 bit shift, linked list and command buffer |
| `AvalonRing` | the Avalon work ring and the table of queued work |
| `Common` | what several of them share |

How things are represented:

- The double SHA-256 of two concatenated digests is a parameter `hash`, so the Merkle results hold for every
  pair hash. A 32-byte digest is one array slot.
- Time, staleness, pool usability, thread interleaving and device answers are arbitrary inputs.
- `malloc` and `free` are allocation and ghost bookkeeping; a freed object is one that left every structure.
- Hash tables are sequences in insertion order (staged work) or sets (queued work, whose ids are never
  reused). `HASH_SORT` is a stable insertion sort; uthash's merge sort is stable too.
- A C string is an array with a NUL in it, and a pointer into one is an index.
- `quota_used` is rescaled with a 32-bit `int` and a 64-bit `unsigned long`.

Where the code does less than its comments or names say, the model follows the code and proves what does hold:

- `adjust_quota_gcd` does not compute the greatest common divisor. `QuotaGcd.AdjustedIsGcdExactly` says for which
  quotas it does, `QuotaGcd.SharesProportionalExactly` that the shares per round are proportional for exactly
  those, and `QuotaGcd.FourAndSix` is an example where they are not.
- A negative `quota_used`, which `discard_work` can leave behind, survives a change of divisor exactly when the
  new divisor divides 2^32 (`UsageRescale.RescaleExactly`); with 3 a usage of -1 turns into 0x55555555.
- `staged_rollable` is only an upper bound. `Staging` counts by how much it exceeds the truth (`lost`), proves
  that the search for a clone is entered exactly when there are more clones than lost items, says after which
  runs the counter is exact (`Staging.CounterExactly`), and gives a run where a staged clone is missed.
- `decode_pkg` rejects a packet for its head only when both head bytes are wrong.
- The number of curl handles is bounded by the limit or by one, whichever is more: the first handle is made
  whatever the limit is (`CurlPool.LimitKeptExactly`).
- On a nonce read `analyze_rx_data` compares the received command checksum with itself.
- An empty password in an `addpool` parameter is taken for a missing one.
- `gbt_merkle_bins` stores one digest per level in a branch of sixteen (miner.h:1439), so it is required that
  there are fewer than 65536 transactions; `BlockTemplate.SixteenSlotsExactly` shows the bound is exact. When a
  transaction lacks data or a readable id the branch stays empty.
- `process_cmd_buffer` counts in a `uint8_t` up to a `uint16_t` copy of the number of commands. Its loop ends
  exactly when that number modulo 65536 is below 256, and with all commands popped exactly when there are fewer
  than 256 (`CmdBuffer.CounterReaches`); a buffer can hold more, even 65536 channel commands without a path
  (`CmdBuffer.ManyCommands`).
- `shift_bits` takes its bit count, three times the depth, as a `uint8_t`, so from a depth of 86 on the answer of
  a command is shifted by too little: what is cut out is the answer, whatever was received, exactly up to 85
  (`CmdBuffer.AnswersExactly`, with the example `CmdBuffer.DepthEightySix`).
- A popped answer and its shift stay inside the 64-byte `rx` array of a command exactly up to a depth of 15 for
  nonce reads, and up to 82 or from 86 to 125 for other commands (`CmdBuffer.InsideExactly`). Layout, order and
  tiling do not depend on it; where the source would run over the array, the model's `Pop` returns no answer.
- Neither `remove_pool` nor `add_pool` adjusts the static rotation index of `select_pool`. Removals keep it inside
  the allocated slots, where the first probe may read a slot behind the live pools; an add keeps it there exactly
  when it is at most one past the new pool (`PoolManager.Manager.AddPool`), and `RotationIndex.RemovalsThenAdd`
  reaches a table where it is not. `SelectPool` requires under load balance that the index names an allocated slot or
  is about to be reset (`InReach`).

## Model

| member | source | states |
|---|---|---|
| Merkle.FoldGivesRoot | cgminer.c:2691-2703 | for every pair hash, leaf and other leaves, folding the leaf through the branch of the others gives the duplicate-last Merkle root of all; the branch does not depend on the leaf |
| Merkle.RootOfHalves | cgminer.c:3037-3047 | the root of two halves of the same power of two of leaves is the hash of the left root and then the right one |
| Merkle.RootOfOddBlocks | cgminer.c:3037-3047 | an odd number of blocks of a power of two of leaves has the root of the list in which the last block stands twice; with the halves this fixes every root |
| Merkle.BranchLength | cgminer.c:2972-2989 | the branch has exactly the least k with 2^k >= the number of leaves |
| BlockTemplate.GbtPool.GbtMerkleBins | cgminer.c:2897-2989 | the branch stored is that of the txids, or of the hash where a txid is missing, and it is empty exactly when a transaction has no data, a malformed txid, or neither txid nor readable hash; the collapse stays inside its n+2 slots |
| BlockTemplate.GbtPool.CollapseIds | cgminer.c:2972-2989 | level after level, what is stored followed by the branch of what is left is the branch of all ids |
| BlockTemplate.CollapseLevel | cgminer.c:2978-2987 | one level: duplicating an odd last digest and hashing in place gives the next level without its first node |
| BlockTemplate.HashTail | cgminer.c:2983-2985 | hashing slots (2,3), (4,5), ... into slots 1, 2, ... gives the next level although it overwrites what it reads from |
| BlockTemplate.GbtPool.MerkleRoot | cgminer.c:7744-7751 | folding the coinbase hash through the stored branch gives the Merkle root of the coinbase and the transactions |
| BlockTemplate.LoadIds | cgminer.c:2917-2970 | behind the free slot stand the txids, or the hash where a txid is missing; it fails exactly when a transaction has no data, a malformed txid, or neither txid nor readable hash |
| BlockTemplate.SixteenSlotsExactly | miner.h:1439 | the sixteen slots of a pool's branch suffice exactly for fewer than 65536 transactions |
| BlockTemplate.GbtWitnessData | cgminer.c:3007-3052 | writes the header and the hash of the witness root over the hash members with the zero nonce, and fails exactly on less than 36 bytes or an unreadable hash |
| BlockTemplate.CollapseAll | cgminer.c:3037-3047 | the overlapping in-place loop leaves the recursive Merkle root in slot 0 |
| BlockTemplate.WitnessRootIsFold | cgminer.c:3037-3052 | the witness root equals folding zero through the branch of the same hashes |
| CrcSpec.Division | crc16.c:36-45 | feeding a message into the register is a polynomial division of message times x^16 |
| CrcSpec.DivisionUnique | crc16.c:36-45 | quotient and remainder of that division are unique, so the register is the remainder |
| CrcSpec.CrcLinear | crc16.c:36-45 | the remainder is linear under exclusive or |
| CrcSpec.BurstDetected | crc16.c:36-45 | messages that differ only inside a window of sixteen bits have different remainders |
| CrcSpec.OddErrorsDetected | crc16.c:36-45 | messages that differ in an odd number of bits have different remainders |
| CrcSpec.ResidueExactly | crc16.c:36-45 | a tail brings the remainder to zero exactly when it is the remainder of what precedes it |
| Crc16.TableCrc | crc16.c:36-45 | the lookup loop computes the bit-serial remainder of its buffer, also for a length of 0 or less |
| Crc16.TableAt | crc16.c:1-34 | every one of the 256 table entries is the remainder of its index byte |
| Crc16.ChecksumIsRemainder | crc16.c:36-45 | the checksum, and no other word, is the remainder of the message bits times x^16 by the generator |
| Crc16.ChecksumLinear | crc16.c:36-45 | the checksum of the exclusive or of two buffers is the exclusive or of their checksums |
| Crc16.ChecksumDetectsBursts | crc16.c:36-45 | buffers that differ in a burst of at most sixteen bits have different checksums |
| Crc16.ChecksumDetectsOddErrors | crc16.c:36-45 | buffers that differ in an odd number of bits have different checksums |
| Crc16.AppendedChecksum | crc16.c:36-45 | two more bytes bring the checksum to 0 exactly when they are the checksum, high byte first |
| CrcPeriod.PowerSum | crc16.c:36-45 | running the register without input multiplies by a power of x, and the powers multiply as the products modulo the generator |
| CrcPeriod.PeriodExactly | crc16.c:36-45 | x^n is 1 modulo the generator exactly when n is a multiple of 32767 |
| CrcDistance.PairUnnoticed | crc16.c:36-45 | two flipped bits leave the remainder as it is exactly when their distance is a multiple of 32767 |
| CrcDistance.ThreeErrorsDetected | crc16.c:36-45 | buffers of at most 4095 bytes that differ in one, two or three bits have different checksums |
| CrcDistance.ThreeErrorsDetectedExactly | crc16.c:36-45 | any one to three flipped bits are caught in buffers of n bytes exactly when n is at most 4095 |
| CrcDistance.TwoErrorsUnnoticed | crc16.c:36-45 | every longer buffer shares its checksum with one that differs in two bits |
| CrcDistance.FourErrorsUnnoticed | crc16.c:36-45 | every buffer of three bytes or more shares its checksum with one that differs in four bits |
| AvalonPacket.AvalonPkg.InitPkg | driver-avalon-miner.c:102-119 | the packet built is a codeword, with its header set and its data untouched |
| AvalonPacket.AvalonPkg.CheckPkg | driver-avalon-miner.c:189-215 | the head test, then dispatch exactly for codewords; the error counter counts head errors only |
| AvalonPacket.BurstBreaksCodeword | driver-avalon-miner.c:205-212 | no packet built passes the check after a burst of at most sixteen bits in data and checksum |
| AvalonPacket.OddErrorBreaksCodeword | driver-avalon-miner.c:205-212 | nor after an odd number of flipped bits |
| AvalonPacket.ThreeErrorsBreakCodeword | driver-avalon-miner.c:205-212 | nor after any one, two or three flipped bits in data and checksum |
| AvalonPacket.FourErrorsMayPass | driver-avalon-miner.c:205-212 | every packet built has another four flipped bits away that passes, so three is the most that is always caught |
| AvalonPacket.UndetectedErrors | driver-avalon-miner.c:205-212 | an error pattern passes the check exactly when it is a codeword itself |
| Priorities.PromoteKeepsOrder | cgminer.c:5195-5205 | promoting a pool keeps the priorities a permutation, puts it first and keeps the order of the others |
| Priorities.RemoveKeepsOrder | cgminer.c:5684-5705 | removing a pool keeps the priorities a permutation and the order of the survivors, through the move of the last slot |
| Priorities.ReprioritiseCorrect | api.c:2896-2937 | listed pools get 0, 1, ... in list order, the others follow in their old order, and the result is a permutation |
| Priorities.ReprioritiseUnique | api.c:2896-2937 | no other permutation has those properties |
| Priorities.EveryRunIsPerm | cgminer.c:5684-5705 | after every sequence of adding, switching, removing and reordering the priorities are a permutation |
| PoolRotation.FullTurn | cgminer.c:5225-5241 | one turn from any slot passes every usable slot once |
| PoolRotation.ReachedAt | cgminer.c:5225-5241 | a usable slot becomes current after as many switches as there are usable slots up to it |
| PoolRotation.EveryUsablePoolGetsItsTurn | cgminer.c:5225-5241 | with k usable pools held fixed every one of them is current within any k consecutive switches |
| PoolRotation.NextPassesUnusable | cgminer.c:5225-5241 | a switch settles on a usable slot or stays, and every slot passed over in cyclic order cannot be used |
| QuotaGcd.AdjustedBounds | cgminer.c:746-783 | the divisor lies between every common divisor and the least nonzero quota |
| QuotaGcd.GcdExists | cgminer.c:746-783 | every list with a nonzero quota has a greatest common divisor |
| QuotaGcd.AdjustedIsHighestEnd | cgminer.c:746-783 | the divisor is the greatest number on which a descent through divisors of the quotas, in pool order from the least nonzero quota, ends |
| QuotaGcd.AdjustedIsGcdExactly | cgminer.c:746-783 | it is the greatest common divisor exactly when no descent through divisors of the quotas, in pool order from the least nonzero quota, ends above that |
| QuotaGcd.SharesBounded | cgminer.c:775-778 | a pool with a quota keeps a share of at least 1, and no share exceeds quota over any common divisor |
| QuotaGcd.SharesProportionalExactly | cgminer.c:746-783 | the shares per round are in the proportion of the quotas for exactly those quotas |
| QuotaGcd.FourAndSix | cgminer.c:746-783 | quotas 4 and 6 give divisor 3 and shares 1 and 2, with the descent that ends too high |
| QuotaScheduler.ProbeEffect | cgminer.c:4261-4272 | a probe charges exactly the pools up to its pick, once each, and picks the first eligible one |
| QuotaScheduler.CallTests | cgminer.c:4243-4272 | a call tests the slots in cyclic order from the index, or from the one behind it when no slot has quota left and the counters are cleared; it picks the first with quota left that is usable, charges the slots up to it once each, and leaves the index on it |
| QuotaScheduler.CallProgress | cgminer.c:4243-4272 | a call that does not restart the round uses some of it up, whichever pools are usable |
| QuotaScheduler.CallAllUsable | cgminer.c:4243-4272 | with all pools usable a call hands out exactly one unit |
| QuotaScheduler.CallsSoFar | cgminer.c:4243-4272 | after k calls with all pools usable, what was picked and what is left make up every quota |
| QuotaScheduler.ExactRound | cgminer.c:4243-4272 | a clean round lasts exactly the sum of the quotas, gives every pool exactly its quota, and the next call is the first to restart |
| QuotaScheduler.RoundInOrder | cgminer.c:4243-4272 | within a clean round the index only moves forward, so the pools are given their whole quotas one after the other in the order of the slots |
| QuotaScheduler.RefundHandedOut | cgminer.c:5267-5272 | once a round is used up, a unit given back to a pool that had its quota is handed out again without a restart |
| QuotaScheduler.RestartBeginsCleanRound | cgminer.c:4253-4259 | a restarting call is the first call of a clean round |
| QuotaScheduler.EveryRunWithinQuota | cgminer.c:4243-4272 | under any usability and any refunds, a round returns a pool at most its quota plus its refunds and lasts at most the sum of the quotas plus all refunds |
| PoolManager.PromoteSelected | cgminer.c:5194-5204 | the loop over the pools gives exactly the promoted priorities |
| PoolManager.CloseGap | cgminer.c:5689-5694 | the loop over the pools lowers exactly the priorities behind the removed pool |
| PoolManager.PriorityPool | cgminer.c:5165-5184 | with permuted priorities every priority in range finds its pool, so the fallback is never reached |
| PoolManager.FirstUsable | cgminer.c:5207-5219 | the usable pool of least priority, or none exactly when no pool is usable |
| PoolManager.NextUsable | cgminer.c:5225-5241 | the increment-and-wrap loop finds the next usable slot, or stays |
| PoolManager.ChoosePool | cgminer.c:5207-5245 | under the rotating strategies the selected pool unless it is idle, else the next usable slot in cyclic order; under the others the usable pool of least priority, else the current one |
| PoolManager.CheckIds | api.c:2897-2923 | accepts exactly the lists of distinct ids in range, records their positions, and otherwise reports the first bad entry, out of range or repeated |
| PoolManager.RefusedFor | api.c:2909-2918 | a list is refused for its first id that is out of range or listed before, named in the reply |
| PoolManager.PlaceListed | api.c:2925-2929 | listed pools get their position, the others keep their priority |
| PoolManager.AppendOthers | api.c:2931-2940 | the unlisted pools follow in their old order |
| UsageRescale.RescaleExact | cgminer.c:774-777 | a usage that is not negative is rescaled exactly for every divisor |
| UsageRescale.RescaleExactly | cgminer.c:774-777 | while the product fits an int, the rescaled usage is the quotient exactly when the usage is not negative or the new divisor divides 2^32 |
| UsageRescale.RescaleCut | cgminer.c:774-777 | whatever the product, it is first cut to an int, and that is divided exactly when it is not negative or the new divisor divides 2^32 |
| UsageRescale.NegativeUsage | cgminer.c:774-777 | a usage of -1 becomes 0x55555555 when the divisor goes from 1 to 3, and survives 2 and 4 |
| PoolManager.FindGcd | cgminer.c:746-772 | the two loops compute the lowered divisor of the quotas |
| PoolManager.ScaleQuotas | cgminer.c:774-779 | every pool's share and rescaled usage |
| PoolManager.BeginRound | cgminer.c:4243-4259 | when no pool has quota left the counters are cleared and the index moves one slot on, otherwise nothing changes |
| PoolManager.ProbeQuota | cgminer.c:4261-4272 | the rotation loop tests the pools in cyclic order, charging each, up to the first with quota left that is usable |
| PoolManager.QuotaRound | cgminer.c:4243-4272 | which slots the quota part of a selection tests and charges, and which it picks; it is one call of the scheduler |
| PoolManager.LeftOverRound | cgminer.c:4243-4272 | for an index behind the live pools: with no quota left the counters are cleared and the tests begin at slot 0; otherwise the left-over slot is tested first and, unless taken, all but the last live slot after it |
| PoolManager.SelectBalanced | cgminer.c:4199-4217 | the first usable pool with the fewest shares, or the current one when none has fewer, is returned and charged one while the others keep theirs |
| PoolManager.Manager.constructor | cgminer.c:462-465 | the empty table is valid |
| PoolManager.Manager.AddPool | cgminer.c:786-808 | a new pool takes the last slot and the last priority, the rest keep theirs, shares and usages are recomputed, and exactly which slots the reallocated array keeps, hence when the rotation index stays inside it |
| PoolManager.Manager.RemovePool | cgminer.c:5684-5705 | slots stay numbered, priorities a permutation in the same order, the last pool moves into the free slot and no slot is given back |
| PoolManager.Manager.SwitchPools | cgminer.c:5186-5257 | the promoted priorities; under the rotating strategies a selected pool that is not idle becomes current, else the next usable one; under the others the usable pool of least priority, so a usable selected one; and whose staged work is thrown away |
| PoolManager.Manager.AdjustQuotaGcd | cgminer.c:746-783 | the divisor, the shares and the usages after a change of quotas |
| PoolManager.Manager.PoolPriority | api.c:2877-2942 | reorders exactly for valid lists, changes nothing otherwise, names the first bad id, and switches when the current pool is no longer first |
| PoolManager.Manager.SelectPool | cgminer.c:4223-4288 | the current pool, the balanced one with the fewest shares, or under load balance the first usable slot with quota left in cyclic order, which slots were charged or cleared, and without such a slot the usable pool of least priority or the current one |
| PoolManager.Manager.SelectLoadBalanced | cgminer.c:4238-4288 | which live or left-over slots are tested, charged and cleared, and which pool that finds, falling back to the usable pool of least priority and then to the current one; the pool is live while left-over slots hold live or disabled pools |
| PoolManager.Manager.RemoveCommand | api.c:3026-3074 | which reply when, which pool is current afterwards, and what a removal leaves; never the last pool and never one that stays current |
| FairRound.SelectOne | cgminer.c:4223-4288 | with every pool usable and quota left, a selection is one scheduler call and returns the slot that call picks |
| FairRound.Round | cgminer.c:4223-4288 | from the start of a round, as many selections as the shares add up to return every pool exactly as often as its share, in the order of the slots from where the round begins, and the next selection starts a round again |
| RotationIndex.CallEndsOn | cgminer.c:4261-4272 | a scheduler call ends with the index on the only pool that has quota left |
| RotationIndex.RemovalsThenAdd | cgminer.c:786-791 | from an empty table, adds, one selection, three removals and one add leave the rotation index on no allocated slot with quota left to hand out |
| Staging.StableSortCorrect | cgminer.c:5593-5616 | sorting by staging second loses nothing, sorts, and keeps the order within a second |
| Staging.SortIsInsert | cgminer.c:5614-5616 | on a sorted list adding and sorting is inserting behind everything not younger |
| Staging.PopTakesOldest | cgminer.c:7599-7610 | the clone search is entered exactly when there are more clones than lost items; it finds the oldest clone and the first of its second, otherwise the oldest item is taken |
| Staging.EveryRun | cgminer.c:5603-5626 | in every run the list is sorted and the counter exceeds the rollable staged items by exactly the lost ones |
| Staging.CounterExactly | cgminer.c:5603-5626 | the counter is exact after precisely those runs in which no rollable item was refused by a frozen queue or dropped |
| Staging.CloneMissed | cgminer.c:7599-7610 | after one dropped master hash_pop takes a master although a clone is staged |
| Staging.Stager.HashPush | cgminer.c:5603-5626 | the item goes behind everything staged in its second or before and before everything younger; the counter moves for a rollable one even when the frozen queue refuses it |
| Staging.Stager.HashPop | cgminer.c:7599-7610 | takes the item of PopTakesOldest and lowers the counter for a rollable one |
| Staging.Stager.DiscardStale | cgminer.c:5288-5305 | drops exactly the stale items, keeps the order, and leaves the counter alone |
| Staging.Stager.ClearPoolWork | cgminer.c:6845-6858 | drops exactly the items of one pool, keeps the order, and leaves the counter alone |
| Staging.FindClone | cgminer.c:7600-7605 | the search loop stops at the first item that cannot be rolled |
| Staging.KeptSorted | cgminer.c:5288-5305 | what is kept is sorted and is exactly what was not to be dropped |
| Staging.KeptStable | cgminer.c:5288-5305 | and the items of every second keep their order |
| CloneWork.Work.Roll | cgminer.c:4736-4756 | one second on, modulo 2^32, one roll more, and a fresh id |
| CloneWork.Work.MakeClone | cgminer.c:4781-4794 | a clone of the same second, marked as one and a second older, with a fresh id |
| CloneWork.CloneWork | cgminer.c:4933-4963 | the clones staged, the clone returned and the restaged master with their seconds, all different, and ids, and how many rounds there were, for any answers of the time tests |
| CloneWork.ProducedDistinct | cgminer.c:4944-4954 | no two items of k rounds share a second while 2k < 2^32 |
| CloneWork.OneCallNeverRepeats | cgminer.c:4933-4963 | in one call no two of the items produced share a second |
| CloneWork.ClonesIncrease | cgminer.c:4933-4963 | over any sequence of calls on one master the seconds of the clones only move ahead and stay behind the master |
| CloneWork.ManyCallsNeverRepeat | cgminer.c:4933-4963 | over any sequence of calls no two clones share a second, nor a clone and the master: the limit on rolls stops the master before its seconds come round |
| CloneWork.MasterIsGreatest | cgminer.c:4948-4953 | the master is ahead of all clones exactly when its own second does not wrap |
| CloneWork.RollsStayBounded | cgminer.c:4881-4885 | a master that enters with at most 7001 rolls leaves with at most 7001, whatever the time tests answer |
| CloneWork.RoundsExactly | cgminer.c:4944-4954 | a call makes rounds for as long as rounds are left, the item is a master with fewer than 7000 rolls and the time tests allow it, and no longer |
| CloneWork.BoundIsReached | cgminer.c:4881-4885 | odd starts do end on 7001 when time never stops the loop |
| CurlPool.EveryRun | cgminer.c:4799-4852 | in every interleaving the counter is idle plus lent handles, every handle is idle, lent or freed and only one of them, and a sleeper implies no idle handle and some lent one |
| CurlPool.EveryRunIsBounded | cgminer.c:4816-4843 | the pool never owns more handles than the greater of the limit and one |
| CurlPool.LimitKeptExactly | cgminer.c:4816-4843 | every run with one limit keeps it exactly when the limit allows one handle |
| CurlPool.PopLends | cgminer.c:4816-4843 | a pop waits or hands out exactly one handle, one that nobody holds and that was never freed |
| CurlPool.ReturnEndsWait | cgminer.c:4845-4852 | returning a handle wakes every sleeper, and the first of them to get the lock receives it |
| CurlPool.RemainingIsPart | cgminer.c:9141-9151 | reaping keeps the order of the rest and never removes the last handle |
| CurlPool.ReapDropsOldest | cgminer.c:9141-9151 | on a ring ordered by age reaping drops the longest idle handles: all expired ones, save that one handle is kept |
| CurlPool.EveryRunIsAged | cgminer.c:4845-4852 | when the clock never runs backwards the ring is ordered by age in every run |
| CurlPool.StampedWithLastReturn | cgminer.c:4845-4852 | in every run an idle handle is stamped with the time of its last return |
| CurlPool.PopTakesLongestIdle | cgminer.c:4836-4838 | when the clock never runs backwards a pop that makes no handle lends the one returned longest ago |
| CurlPool.DroppedExactly | cgminer.c:9141-9151 | only handles idle for more than 300 seconds are dropped, and one of those stays only when no second handle is left |
| CurlPool.HandlePool.PopCurlEntry | cgminer.c:4816-4843 | waits exactly when handles exist, none is idle and the limit is reached; otherwise lends the handle at the head of the ring, or a new one when the ring is empty; it is the step of the state machine |
| CurlPool.HandlePool.PushCurlEntry | cgminer.c:4845-4852 | returning a handle is the step of the state machine |
| CurlPool.HandlePool.ReapLoop | cgminer.c:9141-9151 | the removing loop leaves exactly what the recursive reaping leaves, and counts it |
| CurlPool.HandlePool.ReapCurl | cgminer.c:9132-9152 | reaping is the step of the state machine |
| ApiEscape.EscapeString | api.c:790-846 | the string itself exactly when it holds none of the characters special in its mode, otherwise a new one of exactly the counted length holding the escaped text |
| ApiEscape.EscapeAt | api.c:819-846 | exactly these characters get a backslash: the backslash, and in JSON the double quote, otherwise the comma, the bar and the equals sign |
| ApiEscape.CountPass | api.c:795-814 | the counting pass counts the special characters |
| ApiEscape.WritePass | api.c:819-846 | the writing pass fills exactly the room that was counted |
| ApiEscape.CopyAdvanceAfter | api.c:2761-2776 | copies one field, undoing backslashes, and moves both pointers past it |
| ApiEscape.PoolDetails | api.c:2778-2810 | finds three fields or reports a missing one, never writing beyond strlen(param) + 1 characters |
| ApiEscape.FieldOfEscaped | api.c:2761-2776 | an escaped field before any of the three separators is read back exactly, and so is a string escaped for JSON before its closing double quote |
| ApiEscape.RoundTrip | api.c:2778-2810 | url, user and password escaped and joined by commas are read back exactly when the password is not empty |
| ApiEscape.FewerThanThree | api.c:2778-2810 | one or two fields are reported as missing something |
| ApiEscape.MoreThanThree | api.c:2778-2810 | what follows a third comma is not read |
| ApiEscape.FieldOfQuoted | api.c:2761-2776 | a backslash gives any character to the field, the separator included, and one that ends the string is kept |
| ApiRing.AddDataFull | api.c:873-893 | a new node goes to the end of the ring |
| ApiRing.AddExtra | api.c:848-871 | two rings become the ring of the first followed by the second |
| ApiRing.UnlinkHead | api.c:1305-1314 | removing the head leaves the ring of the rest, or none |
| ApiRing.PrintData | api.c:1148-1329 | prints every entry once in order between the brackets, frees every node once in order, and ends on an empty list |
| ApiRing.Build | api.c:848-893 | whatever sequence of the two calls made it, the ring holds the entries in the order of insertion |
| ApiRing.PrintedReadsBack | api.c:1169-1320 | undoing the backslashes of a printed text line gives back all names and original values |
| ApiRing.PrintedObjectReadsBack | api.c:1161-1325 | reading the members of a printed JSON object gives back all names and original values |
| ApiRing.ItemText | api.c:1174-1223 | an item of a line is the name, an equals sign and the value, which is escaped only when it asks for it |
| ApiRing.MemberText | api.c:1174-1223 | a member of an object is the quoted name, a colon and the value, in quotes unless it is a number and escaped only when it asks for it |
| ShiftBits.ShiftBits | bf16-bitfury16.c:61-72 | in place, result bit k is original bit k + nbits, and nothing behind the rewritten bytes changes |
| ShiftBits.MergeBit | bf16-bitfury16.c:68-70 | where each bit of two merged bytes comes from |
| BfList.List.PushTail | bf16-bitfury16.h:23-32 | the item is appended, and links and count agree |
| BfList.List.PopHead | bf16-bitfury16.h:34-42 | the first item is removed, and links and count agree |
| BfList.List.Remove | bf16-bitfury16.h:54-74 | the item is removed wherever it stands, and links and count agree |
| CmdBuffer.SpiCommandInit | bf16-bitfury16.c:720-772 | the bytes and the checksum of a command, and exactly which commands are refused |
| CmdBuffer.SlotBytes | bf16-bitfury16.c:341-383 | every byte of a slot: 0x01, the chip id in the high half, code, length, payload and zero padding, with its record, and that the checksum is the sum of all its bytes after the first two |
| CmdBuffer.SlotsTile | bf16-bitfury16.c:376-397 | the slots follow one another without gap, each holding its own bytes |
| CmdBuffer.MakeSlot | bf16-bitfury16.c:341-385 | the command record and the bytes that a push lays out |
| CmdBuffer.FitsBuffExactly | bf16-bitfury16.c:344-345 | the stack buffer of a push holds every command exactly up to a depth of 151 |
| CmdBuffer.Buffer.constructor | bf16-bitfury16.c:253-275 | an empty buffer with all bytes free |
| CmdBuffer.Buffer.Push | bf16-bitfury16.c:331-408 | which result code when, and on success one more slot behind the others; on failure nothing changes |
| CmdBuffer.Buffer.Exec | bf16-bitfury16.c:568-580 | only a ready buffer is sent, and the answer fills its first tx_offset bytes |
| CmdBuffer.Buffer.Pop | bf16-bitfury16.c:508-566 | the i-th pop answers the i-th push from exactly its slot, and gives what the source cuts out and its verdict whenever the source stays inside the rx array |
| CmdBuffer.CutReply | bf16-bitfury16.c:536-550 | what is cut out of the last bytes of the slot, the shift count taken modulo 256, for every command whose cut stays inside the rx array |
| CmdBuffer.InsideExactly | bf16-bitfury16.c:61-77 | answer and shift stay inside the rx array exactly up to a depth of 15 for nonce reads, and up to 82 or from 86 to 125 for other commands |
| CmdBuffer.AnswersExactly | bf16-bitfury16.c:61-86 | what is cut out is the answer of the chip, 3 bits per chip passed into the last bytes of the slot, for everything received exactly when the depth is at most 85 |
| CmdBuffer.SafeExactly | bf16-bitfury16.c:61-86 | the source stays inside the rx array and always cuts out the answer exactly up to a depth of 15 for nonce reads and of 82 for other commands |
| CmdBuffer.DepthEightySix | bf16-bitfury16.c:154-155 | a command at a depth of 86 and what may be received for it, where a bit that is not in the answer is cut out as its first |
| CmdBuffer.ExtraBytesSuffice | bf16-bitfury16.c:74-77 | the extra bytes are enough for the shift, so no bit of the answer lies outside its slot |
| CmdBuffer.Analyze | bf16-bitfury16.c:79-193 | the verdict on an answer, whose status, checksums and flags are stated by CommandFlagged and NonceFlagged |
| CmdBuffer.CommandFlagged | bf16-bitfury16.c:154-193 | an answer is flagged exactly when its second byte is neither the checksum of the command nor one less |
| CmdBuffer.NonceFlagged | bf16-bitfury16.c:84-153 | a nonce answer is flagged exactly when its bytes 1 to 49 add up, modulo 256, to neither byte 50 nor one more |
| CmdBuffer.DamageFlagged | bf16-bitfury16.c:121-147 | one damaged byte among those of a right nonce answer is flagged, unless it is one too large and byte 50 is not 255 |
| CmdBuffer.SumIsTotal | bf16-bitfury16.c:760-764 | the uint8_t checksum is the sum of the bytes modulo 256 |
| CmdBuffer.Buffer.PopAll | driver-bitfury16.c:2402-2416 | popping until empty returns the commands in push order, however many, and the slots read tile all that was received |
| CmdBuffer.CounterReaches | driver-bitfury16.c:2402-2413 | the loop ends exactly when the number of commands modulo 65536 is below 256, after that many pops, and with all of them popped exactly when there are fewer than 256 |
| CmdBuffer.ManyCommands | bf16-bitfury16.c:331-408 | buffers with up to 512 of the smallest commands, and with any number of channel commands without a path, are reachable by pushes |
| CmdBuffer.Buffer.Clear | bf16-bitfury16.c:304-329 | the empty buffer again, with both arrays zero |
| AvalonRing.Miner.GetQueued | cgminer.c:8453-8468 | moves the waiting work into the table, or discards it when stale |
| AvalonRing.Miner.WorkCompleted | cgminer.c:8590-8629 | takes the work out of the table |
| AvalonRing.Miner.Place | driver-avalon-miner.c:1278-1284 | refills one slot, completes what it held, and keeps ring and table in agreement |
| AvalonRing.Miner.Fill | driver-avalon-miner.c:1263-1292 | what each case changes; a work is completed a multiple of five rotations after it was placed, and in the same rotation only after a flush |
| AvalonRing.Miner.RotateArray | driver-avalon-miner.c:723-730 | the next of the five groups, with nothing queued in it |
| AvalonRing.Miner.FlushWork | driver-avalon-miner.c:1294-1304 | the current group is filled again from its start |
| AvalonRing.TimedFill | driver-avalon-miner.c:1278-1284 | a slot holds work placed a multiple of five rotations ago, zero exactly when it was filled since the last rotation |
| AvalonRing.Replaced | driver-avalon-miner.c:1281-1284 | refilling a slot with new work keeps every work in at most one slot |
| AvalonRing.AgreeMeans | driver-avalon-miner.c:1263-1292 | the invariant kept by every operation: different slots hold different works, the table holds exactly the works in the ring, and none of them has been completed |

## Left out

- Sockets, curl transfers, JSON-RPC, threads as such, curses, logging and configuration parsing: input and output.
- SPI, I2C, USB and UART transfers, board selectors, fans and temperatures: hardware access; an SPI answer is an arbitrary byte string.
- `decay_time`, `set_target`, `hashmeter` and the other floating-point code: a model over real numbers would not be the code.
- SHA-256 and scrypt internals: the pair hash is a parameter.
- `enabled_pools` and the API commands that enable or disable pools: the counter is bypassed by them, so nothing exact holds.
- Splitting the `poolpriority` and `removepool` parameters with `strchr` and `atoi`: the model starts from the parsed ids.
- The macros `LIST_PUSH_HEAD` and `LIST_POP_TAIL`: mirror images of two that are modelled.
- Hex decoding and byte swapping of transaction ids, and the concatenated `txn_data`: an id is one value, readable or not.
- The twelve nonce words that `analyze_rx_data` assembles, and `find_nonces`.
- NULL arguments of `api_add_data_full` and of the command buffer functions: checked first in the source and answered at once.
- The number formats of `print_data`: a number is the text that `snprintf` made of it.
- AvalonRing: ids are unbounded, so `queued_work` is a set of works; `age_queued_work` and lookups by midstate are not modelled.
- CmdBuffer.Buffer.Push: requires that a command fits the 192-byte stack buffer it is copied from, whose exact bound is `CmdBuffer.FitsBuffExactly`.
- CmdBuffer.Buffer.Pop: does not say what the bytes behind the `rx` array are that the source reads or writes for a command at a depth that `CmdBuffer.InsideExactly` excludes.
- CmdBuffer.Buffer.PopAll: counts without wrapping; when the source's counters end its loop, and after how many pops, is `CmdBuffer.CounterReaches`.
- PoolManager.Manager.SelectPool: does not say what the source reads when the rotation index is outside the allocated slots and no reset is due; when that happens is stated by `AddPool` and `RotationIndex.RemovalsThenAdd`.
- PoolManager.Manager.SelectLoadBalanced: the same as for SelectPool.
- BlockTemplate.GbtPool.GbtMerkleBins: requires fewer than 65536 transactions, the exact capacity of the stored branch.
- Staging.Stager.HashPop: starts when the lock is held and a blocking caller has waited for staged work; the waiting itself is left out.
- CloneWork.Work.Roll: ids are unbounded; that the 32-bit `total_work` comes round after 2^32 ids is not modelled.
- CloneWork.CloneWork: `stale_work` and `should_roll` are one arbitrary answer per round, and the stratum copy of the time is not modelled because stratum work is never rolled here.
- CurlPool.HandlePool.PopCurlEntry: covers the code from `retry` to the wait or the return; the wait is a state of the step machine.
