# Model of the hashminer repository

This project models and verifies the two halves of hashminer, which have to agree with each other.

**The miner.** A CUDA kernel unrolls Keccak-f[1600] in place, builds a padded block directly in lanes and
races its threads on one flag. The host encodes challenge and target into lanes and launches batches. A
loop adopts new challenges between launches and moves a window of nonces. A watcher publishes the
contract's epochs, and a submitter drops what is stale.

- `Keccak`, `KeccakKernel`, `Lanes`: the permutation of FIPS 202 and the kernel's in-place form of it. The
  kernel is proved over any lane type, then used with `bv64` lanes and rotations by funnel shifts.
- `KeccakBits`: the round, the permutation and the digest of every message as equations between bits, which name
  none of the functions above and determine them.
- `Encoding`, `Sponge`, `Challenge`, `Grinder`: bytes, numbers, Keccak-256 with its padding, the contract's
  challenge, and one thread of the kernel.
- `Launch`, `Runtime`: a launch as a concurrent program over all interleavings, and the device buffers it
  runs on.
- `Worker`, `Coverage`: the launch loop, and the nonces its launches cover.
- `Pipeline`, `WatcherAndSubmitter`, `EndToEnd`: all parts of the miner side by side, and the miner against
  the contract.

**The contract.** `Hash` is an ERC20 ledger with a capped genesis sale, one seed of a pool, mining with
halvings, a cap per block and difficulty retargeting, and a swap hook that takes a fee.

- `Words`, `FullMath`, `BitMath`, `TickMath`, `LiquidityAmounts`, `Seeding`: the arithmetic, on naturals
  below 2^256 with explicit wrap-around.
- `TickOrder`, `TickPowers`, `TickAtPrice`: prices rise with ticks by one factor throughout, and the tick found
  for a price is the greatest whose price is not above it, for every valid price.
- `Token`, `Mining`, `HashContract`: the storage as a value, every transaction as a function that commits or
  reverts, and what holds in every reachable state.
- `HashToken`: the contract as an object whose methods update fields and restore them on a revert, proved
  against those functions.
- `Deltas`, `SwapFees`: packed amounts and the fee accounting of a swap.

Code that changes state is modelled by classes, arrays and loops, each method proved against a function on
values; the facts about whole runs are lemmas about those functions.

`dafny verify dfyconfig.toml` checks the whole project; the file sets the resource limit the proofs are kept to.

How the outside enters: a read of the kernel's flag may be stale but never sees a flag that is not set; the
node's answers, the relays, the drawn starting nonces and the order of the parts' steps are arbitrary;
blocks never run backwards; other accounts may make any token calls whenever other code has control, but
nobody calls with the contract's own address or the zero address as sender; what Permit2 and its spenders
pull from the contract is recorded, and solvency is stated for the states where it does not exceed the
pool's share.

Where the code and what is written about it disagree, the model follows the code:

- `src/chain/mod.rs:5` says an update is published when epoch or difficulty changes; the poll loop looks at
  the epoch alone, so a target can be older than the contract's difficulty (`Pipeline.TargetsChangeWithEpochs`).
- `src/gpu/worker.rs:133` says the submitter verifies a hit's hash; `submit` compares epochs only. The hash is
  right because the launch is (`Pipeline.BroadcastsAreSafe`).
- `miningState` and `currentReward` report the reward of the last mint's era, which is not what the next mint
  pays just before a halving (`Mining.ReportedRewardIsPaidIff`).
- `getAmountsForLiquidity` divides by zero at price 0 with a boundary at 0, though liquidity was computed for it
  (`LiquidityAmounts.RoundTripFailsAtZero`).
- The fee of an exact input is cast to int128 unchecked, so it is credited as taken only below 2^127
  (`SwapFees.LargeFeeTurnsNegative`).

## Model

| member | source | states |
|---|---|---|
| `Keccak.WalkGivesOffsets` | kernel/keccak_grinder.cu:64-89 | the 24 rotation amounts of the chain are the offsets (t + 1)(t + 2)/2 mod 64 that the walk of section 3.2.2 of FIPS 202 assigns to the lanes it visits, every lane but (0, 0) once |
| `Keccak.PiAt` | kernel/keccak_grinder.cu:64-89 | lane (x, y) after pi is lane (x + 3y, x) before it |
| `KeccakKernel.ThetaInPlace` | kernel/keccak_grinder.cu:46-62 | column parities into five temporaries and five passes of xor leave theta of the old state |
| `KeccakKernel.RhoPiInPlace` | kernel/keccak_grinder.cu:64-89 | the chain of 24 dependent lane moves through one temporary leaves pi of rho of the old state |
| `KeccakKernel.RhoPiChain` | kernel/keccak_grinder.cu:64-89 | the chain of moves, as a function of the state, is pi after rho on every state |
| `KeccakKernel.ChiInPlace` | kernel/keccak_grinder.cu:91-110 | rewriting row by row from five saved lanes leaves chi of the old state |
| `KeccakKernel.KeccakF1600InPlace` | kernel/keccak_grinder.cu:42-115 | 24 in-place rounds are 24 applications of the round function of section 3.3 to the old state, constants in order; what a round is, bit by bit, says `KeccakBits.RoundBits` |
| `Lanes.OffsetRotates` | kernel/keccak_device.cuh:7-20 | ROL64 by two 32-bit funnel shifts is 64-bit rotation for every amount the kernel uses: bit z comes from bit z - n |
| `Lanes.SameRounds` | kernel/keccak_grinder.cu:42-115 | rounds with the kernel's rotations are rounds with the standard's, on every state |
| `Lanes.ConstantsFollowRegister` | kernel/keccak_grinder.cu:27-34 | the 24 entries of RC are the round constants that the feedback register of section 3.2.5 produces |
| `Lanes.ThetaBits` | kernel/keccak_grinder.cu:46-62 | theta bit by bit as section 3.2.1 writes it, on every state |
| `Lanes.RhoBits` | kernel/keccak_grinder.cu:64-89 | rho bit by bit: every bit of a lane moves by the lane's offset (section 3.2.2) |
| `Lanes.PiBits` | kernel/keccak_grinder.cu:64-89 | pi bit by bit (section 3.2.3) |
| `Lanes.ChiBits` | kernel/keccak_grinder.cu:91-110 | chi bit by bit (section 3.2.4) |
| `Lanes.IotaBits` | kernel/keccak_grinder.cu:112-113 | iota changes lane (0, 0) only, by the bits of the constant (section 3.2.5) |
| `KeccakBits.RoundBits` | kernel/keccak_grinder.cu:44-114 | one whole round as an equation for each bit of the new state in bits of the old one: two neighbouring column parities, the lane it comes from and that lane's offset, the product with the complement of the next bit in the row, and the constant (sections 3.2.1 to 3.3) |
| `KeccakBits.KeccakFIsChain` | kernel/keccak_grinder.cu:42-115 | the permutation leads through 25 states, each related to the one before by that equation under constants 0 to 23 in order |
| `KeccakBits.RegisterSteps` | kernel/keccak_grinder.cu:27-34 | a step of the feedback register, bit by bit (Algorithm 5 of section 3.2.5) |
| `KeccakBits.RegisterRuns` | kernel/keccak_grinder.cu:27-34 | the register starts at 1 and steps once a time |
| `KeccakBits.ConstantBits` | kernel/keccak_grinder.cu:27-34 | bit 2^j - 1 of a round's constant is what the register puts out at j + 7 * round, and every other bit is clear |
| `KeccakBits.PaddingBits` | kernel/keccak_grinder.cu:157-161 | the padded message, bit by bit: the message, a one bit, zeros, and a one bit at the end of the fewest blocks of 136 bytes that hold them (pad10*1, section 5.1) |
| `KeccakBits.DigestBits` | src/chain/challenge.rs:23-29 | Keccak-256 of every message in bits: from the blank state, add each block's bits and go through a chain of rounds, and read the first 256 bits of the last state |
| `KeccakBits.BitsDefineDigest` | src/chain/challenge.rs:23-29 | the converse: states and 32 bytes related in this way are those of the message, so the equations leave no other digest |
| `Grinder.BswapReverses` | kernel/keccak_grinder.cu:36-40 | the two byte permutations and the exchange of halves reverse the eight bytes of every word |
| `Grinder.OneBlock` | kernel/keccak_grinder.cu:21-24 | a message that pads to one block is hashed by one permutation of its lanes |
| `Grinder.FirstBlock` | kernel/keccak_grinder.cu:145-161 | the 25 lanes the thread fills in are the padded block of challenge and nonce (pad10*1, section 5.1, no suffix) |
| `Grinder.AbsorbsMessage` | kernel/keccak_grinder.cu:139-163 | Keccak-256 of challenge and 32-byte nonce is read off the permutation of the thread's lanes |
| `Grinder.KernelPermutes` | kernel/keccak_grinder.cu:42-115 | the kernel's rounds on its own table are Keccak-f[1600] of section 3.4 |
| `Grinder.LimbsCompare` | kernel/keccak_grinder.cu:166-179 | the four-limb comparison is the comparison of the 256-bit numbers the limbs spell |
| `Grinder.ChallengeArrives` | src/gpu/kernel_ffi.rs:104-112 | little-endian lanes carry the challenge's bytes unchanged into the block |
| `Grinder.TargetArrives` | src/gpu/kernel_ffi.rs:114-121 | big-endian lanes spell the target, for every 256-bit target |
| `Grinder.TryNonce` | kernel/keccak_grinder.cu:139-179 | the thread's `less`, for any device buffers and any 64-bit nonce: the big-endian Keccak-256 of challenge and nonce is below the target |
| `Challenge.ComputeChallenge` | src/chain/challenge.rs:6-13 | copying the four fields into a zeroed 128-byte buffer hashes abi.encode of the four values |
| `Challenge.ChallengeLayout` | docs/superpowers/specs/_contract/Hash.sol:384-391 | the hashed text is 128 bytes, zero but for the chain id in bytes 24 to 31, the contract in 44 to 63, the miner in 76 to 95 and the epoch in 120 to 127 |
| `Challenge.OneText` | src/chain/challenge.rs:6-13 | that layout leaves exactly one text |
| `Challenge.ComputeInnerHash` | src/chain/challenge.rs:16-21 | the number the contract compares with its difficulty |
| `Challenge.WorkIs` | docs/superpowers/specs/_contract/Hash.sol:354 | the hashed text is the challenge and 32 bytes spelling the nonce, and the work is the digest read most significant byte first |
| `EndToEnd.KernelAgreesWithContract` | docs/superpowers/specs/_contract/Hash.sol:354-355 | for every challenge, difficulty and 64-bit nonce the kernel reports a hit exactly when the contract's InsufficientWork test fails |
| `EndToEnd.KernelHitsAreMints` | docs/superpowers/specs/_contract/Hash.sol:349-376 | in every sound state with room for a mint, mine commits exactly for the 64-bit nonces for which the kernel's comparison holds on the lanes the host encodes of the miner's challenge and the contract's difficulty |
| `Launch.StepKeeps` | kernel/keccak_grinder.cu:134-183 | every step of every thread keeps: at most one thread takes the flag, only with a good nonce, and while the flag is unset no thread with a good nonce has left |
| `Launch.LaunchSettles` | kernel/keccak_grinder.cu:134-183 | after every interleaving, stale early-out reads included, the flag is set exactly when some nonce of the launch is good, and then exactly one thread has written, its own good nonce |
| `Launch.LaunchEnds` | kernel/keccak_grinder.cu:134-183 | no interleaving is longer than four steps a thread and none gets stuck |
| `Runtime.LaunchesBatch` | src/gpu/kernel_ffi.rs:161-168 | the launch tries exactly the batch if and only if the block size divides it and the quotient survives the cast to 32 bits; it never tries more |
| `Runtime.ThreadsAreNumbered` | kernel/keccak_grinder.cu:134 | block and thread numbers give every thread of the grid its own index, from 0 to the launched count without gap |
| `Runtime.WindowIs` | kernel/keccak_grinder.cu:134-140 | the nonces of a launch are those fewer than `count` steps from the start, counting modulo 2^64 |
| `Runtime.HitsAre` | kernel/keccak_grinder.cu:140-180 | a hit is a nonce of that window whose hash is below the target |
| `Runtime.SettledLaunch` | src/gpu/kernel_ffi.rs:186-198 | flag and result read back mean: some nonce of the window hits, and this one does |
| `Runtime.GpuRuntime.HotSwap` | src/gpu/kernel_ffi.rs:104-136 | afterwards the device holds this challenge, this target and this epoch |
| `Runtime.GpuRuntime.MoveThread` | kernel/keccak_grinder.cu:134-183 | each branch of the thread's code is one enabled step of the concurrent program, on the device buffers |
| `Runtime.GpuRuntime.RunGrid` | kernel/keccak_grinder.cu:127-184 | whatever order the threads run in, the flag says whether the window has a hit and the result is one |
| `Runtime.GpuRuntime.LaunchMine` | src/gpu/kernel_ffi.rs:143-199 | rejected exactly when the driver refuses the cast grid; otherwise returns a nonce exactly when the launched window modulo 2^64 holds one that hashes below the device's target, and then such a nonce; the device's challenge and target stay |
| `Worker.GpuWorker.HotSwap` | src/gpu/worker.rs:162-165 | a posted swap replaces one that was not taken yet, and changes nothing else |
| `Worker.GpuWorker.AdoptPending` | src/gpu/worker.rs:107-121 | a taken swap is on the device and tags the hits that follow, from a fresh starting nonce |
| `Worker.LaterSwapWins` | src/gpu/worker.rs:105-121 | of two swaps posted between launches the later is adopted, once; with none posted nothing changes |
| `Worker.GpuWorker.Iterate` | src/gpu/worker.rs:105-145 | one turn: adopt, launch if there is a challenge, send at most one hit, tagged with the epoch of the device's challenge, and move on by a batch modulo 2^64 |
| `Coverage.StartIs` | src/gpu/worker.rs:144 | launch k starts k batches after the first, modulo 2^64 |
| `Coverage.LaunchesCover` | src/gpu/worker.rs:98-144 | no gap: the launches between two swaps try one window of consecutive nonces |
| `Coverage.LaunchesNeverRepeat` | src/gpu/worker.rs:98-144 | no nonce is tried twice while the launches have tried at most 2^64 |
| `Coverage.RunSends` | src/gpu/worker.rs:124-144 | over any number of launches: one hit for each window with a valid nonce and none for the others, each hit valid and tagged with the epoch of the device's challenge |
| `WatcherAndSubmitter.ChainWatcher.constructor` | src/chain/watcher.rs:46-98 | the initial state is published without telling the poll loop its epoch |
| `WatcherAndSubmitter.ChainWatcher.Tick` | src/chain/watcher.rs:116-150 | another epoch than the last appends exactly one update, with that epoch's challenge and the difficulty just read; the same epoch appends none; a failed call changes nothing it did not read |
| `WatcherAndSubmitter.TickIsSteps` | src/chain/watcher.rs:112-154 | a tick is a poll step, followed by a publication step if the poll prepared one |
| `WatcherAndSubmitter.TxSubmitter.Submit` | src/tx/submitter.rs:61-155 | a hit reaches a relay exactly when every condition before the broadcast holds, its epoch equal to the snapshot's among them, and the first relay to take it is reported |
| `Pipeline.StepKeeps` | src/main.rs:193-252 | every step of watcher, forwarder, launch loop, queue and submitter keeps: what is pending or on the device was published, and every hit under way is backed by a published update of its epoch |
| `Pipeline.BroadcastsAreSafe` | src/tx/submitter.rs:61-70 | over every interleaving: a broadcast nonce hashes, under the challenge of its epoch tag, below the target of an update published for that epoch (or the test override), and that epoch is the one read under the gate |
| `Pipeline.BroadcastsBeatReadings` | src/tx/submitter.rs:61-70 | over every interleaving: a broadcast nonce hashes, under the challenge of its epoch tag, below a difficulty the node reported together with that epoch at some earlier state (or below the test override) |
| `Pipeline.BroadcastsWereCurrent` | src/tx/submitter.rs:62-70 | the epoch of every broadcast is one the watcher had read by then |
| `Pipeline.BroadcastsAreTaken` | src/tx/submitter.rs:57-70 | only hits taken from the channel are broadcast, each at most once |
| `Pipeline.HitsArriveInOrder` | src/gpu/worker.rs:130-142 | the submitter takes the hits in the order in which the launches produced them, and none is lost or taken twice; at most 16 wait in the channel and one at its door |
| `Pipeline.UpdatesWereRead` | src/chain/watcher.rs:140-148 | in every run each published update carries the challenge of its epoch and the difficulty read together with that epoch at some earlier state |
| `Pipeline.NewestIsCurrent` | src/chain/watcher.rs:130-150 | the newest update is for the epoch read last, unless one that is is about to be published |
| `Pipeline.SettledMinerIsCurrent` | src/main.rs:193-218 | whenever watcher, forwarder and launch loop have caught up, the device holds the challenge of the epoch read last and a difficulty read for it |
| `Pipeline.TargetsChangeWithEpochs` | src/chain/watcher.rs:140-150 | after the poll loop's first publication no two consecutive updates are for the same epoch |
| `EndToEnd.BroadcastsHashBelowTarget` | src/chain/watcher.rs:73-80 | the same with compute_challenge and Keccak-256 and no override: below a difficulty the node reported for that epoch |
| `EndToEnd.BroadcastsAreAccepted` | docs/superpowers/specs/_contract/Hash.sol:349-376 | such a nonce, in a block of its epoch and with the difficulty no lower than the node ever reported it for that epoch, is mined exactly when supply, block cap, proof reuse and retarget allow it |
| `FullMath.FitsIff` | docs/superpowers/specs/_contract/FullMath.sol:28-30 | the guard on the high word holds exactly when the denominator is not 0 and the quotient fits in a word |
| `FullMath.HighWord` | docs/superpowers/specs/_contract/FullMath.sol:21-26 | the high word of the product from its residues modulo 2^256 and 2^256 - 1 |
| `FullMath.SubtractRemainder` | docs/superpowers/specs/_contract/FullMath.sol:46-54 | taking the remainder off the two words, with its borrow, leaves an exact multiple of the denominator |
| `FullMath.FlipTwos` | docs/superpowers/specs/_contract/FullMath.sol:70-75 | the flipped power of two is 2^256 / twos, also when the subtraction wraps |
| `FullMath.ShiftDown` | docs/superpowers/specs/_contract/FullMath.sol:66-76 | the two words shifted down by the factors of two, modulo 2^256 |
| `FullMath.SeedInverts` | docs/superpowers/specs/_contract/FullMath.sol:78-82 | (3d)^2, with ^ as exclusive or, inverts every odd d modulo 16 |
| `FullMath.NewtonDoubles` | docs/superpowers/specs/_contract/FullMath.sol:86-91 | one step doubles the number of correct bits |
| `FullMath.NewtonInverse` | docs/superpowers/specs/_contract/FullMath.sol:78-91 | six steps from the seed give the inverse modulo 2^256 of every odd word |
| `FullMath.DivideExactly` | docs/superpowers/specs/_contract/FullMath.sol:56-100 | an exact 512-bit multiple divided by multiplying with the inverse |
| `FullMath.MulDiv` | docs/superpowers/specs/_contract/FullMath.sol:14-102 | for all words: floor(a * b / d) when d > floor(a * b / 2^256), and a revert otherwise |
| `FullMath.MulDivRoundingUp` | docs/superpowers/specs/_contract/FullMath.sol:109-116 | the ceiling, and a revert when the quotient or its increment does not fit |
| `FullMath.CeilIsLeast` | docs/superpowers/specs/_contract/FullMath.sol:104-108 | that ceiling is the least q with q * d >= a * b; a revert means the denominator is 0 or no word is large enough |
| `BitMath.MostSignificantBit` | docs/superpowers/specs/_contract/BitMath.sol:12-25 | 2^r <= x < 2^(r+1) for every nonzero x, a revert for 0 |
| `BitMath.LeastSignificantBit` | docs/superpowers/specs/_contract/BitMath.sol:31-48 | bit r of x is set and the bits below it are clear, for every nonzero x, a revert for 0 |
| `BitMath.UpperIndexOf` | docs/superpowers/specs/_contract/BitMath.sol:39-43 | the de Bruijn product and nibble table give the upper three bits of the index, for all 256 indices |
| `TickMath.MaskedAbs` | docs/superpowers/specs/_contract/TickMath.sol:59-67 | xor with the sign mask after adding it is the absolute value |
| `TickMath.GetSqrtPriceAtTick` | docs/superpowers/specs/_contract/TickMath.sol:57-116 | the twenty conditional products, inversion and rounding compute the product of the ratios of the bits of the absolute tick, without overflow, for every int24 |
| `TickMath.ExtremePrices` | docs/superpowers/specs/_contract/TickMath.sol:20-33 | the smallest and the largest price are the prices at the smallest and the largest tick, past which the call reverts |
| `TickOrder.CarrySteps` | docs/superpowers/specs/_contract/TickMath.sol:69-103 | for each of the twenty carries from a tick to the next, the product of the ratios below the carry and the ratio at it differ by a factor of 1.0001^(1/2) to ten digits |
| `TickOrder.BitsKeepStep` | docs/superpowers/specs/_contract/TickMath.sol:69-103 | each further bit keeps that factor up to one rounding |
| `TickOrder.TickRaises` | docs/superpowers/specs/_contract/TickMath.sol:57-116 | each of the 1,774,544 steps from a tick to the next raises the price, by one part in 20000 to 20001 to within two units |
| `TickOrder.PricesIncrease` | docs/superpowers/specs/_contract/TickMath.sol:57-116 | a higher tick has a strictly higher price |
| `TickMath.MantissaStays` | docs/superpowers/specs/_contract/TickMath.sol:143-148 | squaring never overflows, yields one bit, and leaves r in [2^127, 2^128) |
| `TickMath.StepBelow` | docs/superpowers/specs/_contract/TickMath.sol:143-148 | a block keeps r / 2^127 * 2^e <= price^n while n doubles |
| `TickMath.StepAbove` | docs/superpowers/specs/_contract/TickMath.sol:143-148 | what a block rounds away: the slack grows from s to at most 4s + 3 units of r |
| `TickMath.Log2Step` | docs/superpowers/specs/_contract/TickMath.sol:143-148 | a block turns an approximation with k fraction bits into one with k + 1, in the same word |
| `TickMath.Log2OfPrice` | docs/superpowers/specs/_contract/TickMath.sol:121-223 | for every valid price log_2 is e / 2^14 - 128 with 64 fraction places, where 2^e <= price^16384 < 2^(e+1) * (1 + 2^-98) and e / 2^14 has the exact integer part; a revert exactly outside the valid prices |
| `TickPowers.TickAtMost` | docs/superpowers/specs/_contract/TickMath.sol:225 | the factor of a tick, raised to 2^64 times the scale 255738958999603826347141, is at most 2^(2^128 + 2^100), by 45 squarings rounded up |
| `TickPowers.TickAtLeast` | docs/superpowers/specs/_contract/TickMath.sol:225 | raised to the same power it is at least 2^(2^128 - 2^100), by 45 squarings rounded down |
| `TickPowers.PowerAtTick` | docs/superpowers/specs/_contract/TickMath.sol:57-104 | over up to 887,272 ticks the power of the price stays within that drift for each |
| `TickAtPrice.RawPower` | docs/superpowers/specs/_contract/TickMath.sol:57-116 | the same for the price of every tick of either sign, inversion included |
| `TickAtPrice.LogDecides` | docs/superpowers/specs/_contract/TickMath.sol:225-233 | with the code's two error constants a scaled logarithm that clears a tick proves its price at most the given one, and one that falls short proves it above |
| `TickAtPrice.Candidates` | docs/superpowers/specs/_contract/TickMath.sol:227-233 | the tick of the price is between the two candidates, which are at most one apart |
| `TickAtPrice.SomeTick` | docs/superpowers/specs/_contract/TickMath.sol:118-121 | every valid price lies between those of a tick and the next |
| `TickAtPrice.OneTick` | docs/superpowers/specs/_contract/TickMath.sol:118-121 | of no other tick |
| `TickAtPrice.TickOfItsPrice` | docs/superpowers/specs/_contract/TickMath.sol:57-235 | the tick at a tick's own price is that tick |
| `TickAtPrice.GetTickAtSqrtPrice` | docs/superpowers/specs/_contract/TickMath.sol:121-235 | for every valid price the greatest tick whose price is not above it; a revert exactly for all others |
| `LiquidityAmounts.AmountsReturnIff` | docs/superpowers/specs/_contract/LiquidityAmounts.sol:117-133 | liquidity has a value exactly when the price or the smaller boundary is not 0 |
| `LiquidityAmounts.Liquidity0Is` | docs/superpowers/specs/_contract/LiquidityAmounts.sol:23-31 | exactly x * floor(lo * hi / 2^96) / (hi - lo), and a revert exactly for equal prices or beyond 128 bits; the boundaries may come in either order |
| `LiquidityAmounts.Liquidity1Is` | docs/superpowers/specs/_contract/LiquidityAmounts.sol:39-46 | exactly y * 2^96 / (hi - lo), with the same reverts |
| `LiquidityAmounts.LiquidityIs` | docs/superpowers/specs/_contract/LiquidityAmounts.sol:56-75 | which token decides in each price region, exactly, and the smaller of the two between the boundaries |
| `LiquidityAmounts.LiquidityIsLargest` | docs/superpowers/specs/_contract/LiquidityAmounts.sol:55-75 | the liquidity is the largest the amounts cover: exactly the liquidities up to it are covered, by the token or the tokens that decide in the price's region |
| `LiquidityAmounts.AmountsAre` | docs/superpowers/specs/_contract/LiquidityAmounts.sol:117-133 | what liquidity is worth in each price region, exactly: one token outside the boundaries and both, split at the price, inside |
| `LiquidityAmounts.RoundTripNeverOverspends` | docs/superpowers/specs/_contract/LiquidityAmounts.sol:56-133 | amounts to liquidity to amounts is at most the amounts, in all three price regions and for either order of the boundaries |
| `LiquidityAmounts.RoundTripFailsAtZero` | docs/superpowers/specs/_contract/LiquidityAmounts.sol:82-91 | the excluded case is reachable: amounts become liquidity that has no value |
| `Seeding.Sqrt` | docs/superpowers/specs/_contract/Hash.sol:480-489 | terminates with z^2 <= x < (z+1)^2 and no overflow for every x but 2^256 - 1, where x + 1 reverts |
| `Seeding.ComputeSqrtPriceX96` | docs/superpowers/specs/_contract/Hash.sol:469-478 | the unchecked shifts, the division, the root and the uint160 check, for all amounts |
| `Seeding.SeedPriceIsFixed` | docs/superpowers/specs/_contract/Hash.sol:469-478 | for every amount of ether the price of 100,000 times as much token is floor(sqrt(100000 * 2^192)) |
| `Seeding.BoundaryPrices` | docs/superpowers/specs/_contract/Hash.sol:198-204 | the prices at the two boundary ticks |
| `Seeding.ComputeSeedLiquidity` | docs/superpowers/specs/_contract/Hash.sol:195-207 | price, boundary prices and liquidity, and a revert for liquidity 0, as the function whose value `Seeding.SeedLiquidityIs` gives |
| `Seeding.PriceOfAmounts` | docs/superpowers/specs/_contract/Hash.sol:469-478 | for all amounts the square of the price and of the next one bracket the shifted ratio; a revert exactly for a zero amount or the one word the root does not take |
| `Seeding.SeedLiquidityIs` | docs/superpowers/specs/_contract/Hash.sol:195-207 | for every amount the genesis can raise the token side decides, and the liquidity is exactly 100000 * eth * 2^96 / (price - lower price) |
| `Seeding.SoldOutLiquidity` | docs/superpowers/specs/_contract/Hash.sol:195-207 | a sold-out genesis is seeded with liquidity 3320391543176798298599 |
| `Seeding.SeedNeverReverts` | docs/superpowers/specs/_contract/Hash.sol:195-207 | for every amount the genesis can raise the liquidity is positive and fits in 128 bits |
| `Token.TotalWith` | docs/superpowers/specs/_contract/ERC20.sol:176-204 | writing one balance changes the sum of all balances by the difference |
| `Token.DebitIsExact` | docs/superpowers/specs/_contract/ERC20.sol:176-189 | the checked half leaves the books short by exactly the value |
| `Token.CreditIsExact` | docs/superpowers/specs/_contract/ERC20.sol:191-201 | the unchecked half never wraps and closes the books |
| `Token.UpdateConserves` | docs/superpowers/specs/_contract/ERC20.sol:176-204 | the balances sum to the supply across every transfer, mint and burn, and every balance and the supply change by exact amounts |
| `Token.UpdateFails` | docs/superpowers/specs/_contract/ERC20.sol:176-189 | exactly when an update reverts |
| `Token.SpendingKeepsBalances` | docs/superpowers/specs/_contract/ERC20.sol:294-304 | an allowance is spent exactly if unlimited, or large enough and between accounts other than the zero address; only it falls, by the value, and not if unlimited |
| `Token.TransferCommits` | docs/superpowers/specs/_contract/ERC20.sol:159-204 | a transfer commits exactly between accounts other than the zero address and for a value the sender has; then the sender has exactly the value less, the receiver the value more, and nobody else's balance, no allowance and not the supply changes |
| `Token.TransferFromCommits` | docs/superpowers/specs/_contract/ERC20.sol:142-147 | a transfer by allowance commits exactly when the transfer would and the allowance is unlimited, or large enough and not the zero address's; it moves the value the same way and lowers that one allowance by it |
| `Token.MintCommits` | docs/superpowers/specs/_contract/ERC20.sol:214-219 | a mint commits exactly to an account while the supply stays a word, and adds the value to both |
| `Token.BurnCommits` | docs/superpowers/specs/_contract/ERC20.sol:229-234 | a burn commits exactly from an account that has the value, and takes it from both |
| `Token.ApproveCommits` | docs/superpowers/specs/_contract/ERC20.sol:273-284 | an approval records its value, the unlimited one included, and changes nothing else |
| `Token.CallDoes` | docs/superpowers/specs/_contract/ERC20.sol:99-147 | for each of the three public calls, exactly when it reverts and what it does to balances and allowances |
| `Token.CallKeeps` | docs/superpowers/specs/_contract/ERC20.sol:99-147 | what any call by another account can do to an owner: the books stay balanced, the owner's allowances do not grow, and the balance falls only by what an allowance let the caller pull |
| `Token.Erc20.MoveBalances` | docs/superpowers/specs/_contract/ERC20.sol:176-204 | the storage afterwards, or unchanged storage on a revert |
| `Token.Erc20.Move` | docs/superpowers/specs/_contract/ERC20.sol:159-167 | the storage after a transfer; the zero address reverts |
| `Token.Erc20.Issue` | docs/superpowers/specs/_contract/ERC20.sol:214-219 | the storage after a mint |
| `Token.Erc20.Destroy` | docs/superpowers/specs/_contract/ERC20.sol:229-234 | the storage after a burn |
| `Token.Erc20.SetAllowance` | docs/superpowers/specs/_contract/ERC20.sol:273-284 | the storage after an approval |
| `Token.Erc20.UseAllowance` | docs/superpowers/specs/_contract/ERC20.sol:294-304 | the storage after spending an allowance |
| `Token.Erc20.MoveFrom` | docs/superpowers/specs/_contract/ERC20.sol:142-147 | the storage after a transfer by allowance, as `Token.TransferFromCommits` describes it; a failed transfer restores the allowance |
| `Mining.EmissionByEra` | docs/superpowers/specs/_contract/Hash.sol:368-375 | the sum of the rewards era by era, up to the last mint |
| `Mining.NeverClamped` | docs/superpowers/specs/_contract/Hash.sol:368-373 | in the first 424,015 mints the reward is positive and fits in what is left, and the last one takes exactly the rest |
| `Mining.CountedKeeps` | docs/superpowers/specs/_contract/Hash.sol:352-362 | a counted mint adds one to its block, which stays at ten or fewer, and one proof to those used |
| `Mining.RetargetSpacing` | docs/superpowers/specs/_contract/Hash.sol:364-366 | every retarget is at least 201 blocks after the last, so the branch for 0 blocks is dead |
| `Mining.RetargetIs` | docs/superpowers/specs/_contract/Hash.sol:397-410 | a retarget commits exactly when neither product overflows, and sets floor(old * taken / 10080), or a quarter for 0 blocks, clamped by the function that follows |
| `Mining.ClampIs` | docs/superpowers/specs/_contract/Hash.sol:406-408 | the clamp: within a factor of four and at least 1, and the unclamped value where that is allowed |
| `Mining.EnvelopeWidens` | docs/superpowers/specs/_contract/Hash.sol:397-410 | one retarget widens the bounds on the difficulty by a factor of four |
| `Mining.MineKeeps` | docs/superpowers/specs/_contract/Hash.sol:349-375 | every mint pays exactly the scheduled reward, uses a fresh proof, and keeps emission, retarget schedule, block counts and difficulty bounds |
| `Mining.MineCommitsIff` | docs/superpowers/specs/_contract/Hash.sol:349-373 | in a sound state mine commits exactly if fewer than 18.9 million tokens are mined, the block holds fewer than ten mints, the proof is unused, the work is below the difficulty, and a due retarget does not overflow: the reward clamp, the zero-reward revert and the branch for eras past 63 are dead |
| `Mining.MintsHaveWork` | docs/superpowers/specs/_contract/Hash.sol:350-359 | in any state at all a committed mint passed every guard, the work included |
| `Mining.MineCommits` | docs/superpowers/specs/_contract/Hash.sol:356-375 | everything a mint leaves behind: 100 tokens halved every 100,000 mints are paid, its block counts one more, its proof is used, and the difficulty and the two retarget marks change exactly on every 2016th mint, to the clamped floor |
| `Mining.ReportedEpoch` | docs/superpowers/specs/_contract/Hash.sol:439-455 | the blocks reported as left are those until the epoch changes |
| `Mining.ReportedRewardIsPaidIff` | docs/superpowers/specs/_contract/Hash.sol:434-449 | the reported reward is what the next mint pays if and only if the next mint does not start an era |
| `HashContract.CallsKeep` | docs/superpowers/specs/_contract/Hash.sol:160-163 | what any sequence of token calls made while other code has control can do to the contract |
| `HashContract.SeedLedger` | docs/superpowers/specs/_contract/Hash.sol:181-233 | the ledger a seed leaves: supply, the contract's balance up to what was pulled, and Permit2 as the only spender |
| `HashContract.TransactionKeeps` | docs/superpowers/specs/_contract/Hash.sol:146-382 | every transaction, committed or reverted, keeps the contract's invariant |
| `HashContract.EmissionClosedForm` | docs/superpowers/specs/_contract/Hash.sol:349-382 | in every reachable state the mined total is the sum of BASE_REWARD >> (k / ERA_MINTS) for k up to totalMints, and totalMints <= 424,015 with equality exactly at exhaustion |
| `HashContract.DifficultyEnvelope` | docs/superpowers/specs/_contract/Hash.sol:397-415 | in every reachable state lastAdjustmentMint = 2016 r and the difficulty is between floor(D0 / 4^r), at least 1, and D0 * 4^r for r = totalMints / 2016; the blocks' counts sum to totalMints, as do the used proofs, with at most ten in a block |
| `HashContract.SupplyIsFixed` | docs/superpowers/specs/_contract/Hash.sol:146-187 | in every reachable state the balances sum to the supply, which is genesisMinted before the seed and 2 * genesisMinted + MINING_SUPPLY <= TOTAL_SUPPLY after it, and genesisMinted is 100,000 times genesisEthRaised |
| `HashContract.MiningIsSolvent` | docs/superpowers/specs/_contract/Hash.sol:371-376 | while no more than the pool's share was pulled, the contract's balance covers all that is still to be mined and the transfer in mine cannot fail |
| `HashContract.MinersAreAdmitted` | docs/superpowers/specs/_contract/Hash.sol:349-376 | in every reachable state with mining open and the pool's share not exceeded, mine commits exactly under those five conditions |
| `HashContract.MinersArePaid` | docs/superpowers/specs/_contract/Hash.sol:371-376 | in every reachable state a mint moves exactly the reward of its era from the contract to the miner, and no other balance, allowance or genesis figure changes |
| `HashContract.MinersDidTheWork` | docs/superpowers/specs/_contract/Hash.sol:349-355 | whatever the state, mine commits only with mining open and for work below the difficulty |
| `HashContract.GenesisCommits` | docs/superpowers/specs/_contract/Hash.sol:146-165 | in every reachable state a purchase commits exactly before the seed, for one to five units at 0.01 ether paid in full within the cap, if a due refund succeeds; the buyer gets 1000 tokens a unit and both counters grow by tokens and cost |
| `HashContract.SeedCommitsIff` | docs/superpowers/specs/_contract/Hash.sol:167-241 | in every reachable state the seed commits exactly for a sold-out genesis, and the early one exactly for the controller half an hour after deployment once anything is sold, provided the outside calls succeed: no arithmetic, mint or approval on the way can fail |
| `HashContract.SeedCommits` | docs/superpowers/specs/_contract/Hash.sol:181-241 | everything a seed leaves behind: tokens issued to the contract, an unlimited allowance for Permit2, and mining open from this block at difficulty 2^224 - 1 with nothing mined |
| `HashContract.PerformedInOrder` | docs/superpowers/specs/_contract/Hash.sol:158-161 | calls made while other code has control are performed in order, and a failed one changes nothing |
| `HashContract.SeedIsDeterministic` | docs/superpowers/specs/_contract/Hash.sol:181-207 | in every reachable state with any genesis the seed meets the one price and none of its arithmetic reverts |
| `HashToken.Hash.AdjustDifficulty` | docs/superpowers/specs/_contract/Hash.sol:397-415 | the storage after a retarget computed with the 512-bit division, or a revert exactly as specified |
| `HashToken.Hash.Mine` | docs/superpowers/specs/_contract/Hash.sol:349-382 | the storage after mine with the Keccak-256 work of the attempt, or unchanged storage on a revert, as a step of the runs that are studied; success means that mining was open and the work below the difficulty |
| `HashToken.Hash.CallToken` | docs/superpowers/specs/_contract/ERC20.sol:99-147 | a call of the inherited token, as a step of those runs |
| `HashToken.Hash.MintGenesisUnits` | docs/superpowers/specs/_contract/Hash.sol:146-165 | the storage after a genesis purchase, calls made during the refund included, or unchanged storage |
| `HashToken.Hash.SeedWholePool` | docs/superpowers/specs/_contract/Hash.sol:167-171 | the storage after the seed of a sold-out genesis, or unchanged storage |
| `HashToken.Hash.SeedPartially` | docs/superpowers/specs/_contract/Hash.sol:173-179 | the storage after the controller's early seed, or unchanged storage |
| `HashToken.Hash.ReportState` | docs/superpowers/specs/_contract/Hash.sol:439-455 | the seven values reported, field by field; a revert exactly if the subtraction underflows |
| `Deltas.PackRoundTrip` | docs/superpowers/specs/_contract/BalanceDelta.sol:14-18 | unpacking gives back both int128 amounts, for all amounts and signs |
| `Deltas.UnpackRoundTrip` | docs/superpowers/specs/_contract/BalanceDelta.sol:61-71 | packing gives back every word: the two are inverse bijections |
| `Deltas.PackIs` | docs/superpowers/specs/_contract/BalanceDelta.sol:14-18 | the first amount is the high half of the word, in two's complement, and the second the low half |
| `Deltas.TruncationIs` | docs/superpowers/specs/_contract/Hash.sol:296-297 | the unchecked cast gives the one int128 congruent to the number modulo 2^128 |
| `Deltas.CastIs` | docs/superpowers/specs/_contract/SafeCast.sol:40-43 | the cast returns exactly the values that fit in int128, unchanged |
| `Deltas.AddIsExact` | docs/superpowers/specs/_contract/BalanceDelta.sol:20-32 | both amounts add exactly, or the operation reverts, exactly when one does not fit |
| `Deltas.SubIsExact` | docs/superpowers/specs/_contract/BalanceDelta.sol:34-46 | both amounts subtract exactly, or the operation reverts, exactly when one does not fit |
| `Deltas.SubThenAdd` | docs/superpowers/specs/_contract/BalanceDelta.sol:20-46 | adding back what was subtracted gives the same word |
| `SwapFees.PermissionsAre` | docs/superpowers/specs/_contract/Hash.sol:244-261 | an address passes the constructor's check exactly if its low 14 bits are 0x20cc |
| `SwapFees.BeforeSwapCommitsIff` | docs/superpowers/specs/_contract/Hash.sol:270-298 | exactly when beforeSwap reverts, and the fee it takes: one percent of an exact input of ether, nothing otherwise |
| `SwapFees.AfterSwapCommitsIff` | docs/superpowers/specs/_contract/Hash.sol:300-332 | exactly when afterSwap reverts, and the fee it takes: one percent of the ether the pool moved when that was not specified |
| `SwapFees.AcceptsIff` | docs/superpowers/specs/_contract/Hooks.sol:247-314 | exactly when a whole swap goes through, in terms of the swap, the pool's delta and the contract's state |
| `SwapFees.BeforeSwapReturns` | docs/superpowers/specs/_contract/Hash.sol:270-298 | the returned delta is the fee taken, as far as 128 bits hold it, and nothing else; an exact input stays negative |
| `SwapFees.AfterSwapReturns` | docs/superpowers/specs/_contract/Hash.sol:300-332 | the returned delta is exactly the fee taken, one percent of the ether the pool moved, or 0 when the fee was taken before |
| `SwapFees.BeforeSwap` | docs/superpowers/specs/_contract/Hooks.sol:247-281 | the amount left to swap, which for an exact input never changes sign: the guard against it never fires |
| `SwapFees.AfterSwap` | docs/superpowers/specs/_contract/Hooks.sol:284-314 | hook delta (fee, 0) in every mode, and caller delta plus hook delta is the pool's delta; a revert exactly when the contract's hook reverts or the caller's amount does not fit |
| `SwapFees.LargeFeeTurnsNegative` | docs/superpowers/specs/_contract/Hash.sol:286-297 | an input whose fee does not fit in 127 bits comes back from the cast with the other sign |
| `SwapFees.Swap` | docs/superpowers/specs/_contract/Hooks.sol:247-314 | over a whole swap: the hook is credited with exactly the ether it took, and no token, if and only if that is below 2^127; caller plus hook is always the pool's delta; selling for an exact output is refused |

## Left out

- The pool manager, the position manager and Permit2: they enter as outcomes and token calls.
- Error reasons and events of the contract: a revert is a revert, and commits are compared by storage.
- The 256-bit width of the mint counters and of the genesis counters: they are unbounded here and proved far below 2^256. Ether balances, `claimFees` and gas are not modelled.
- Collisions of the proof key keccak256(abi.encode(miner, nonce, epoch)): keys are tuples.
- Failures of CUDA calls other than a refused grid, and memory reordering beyond stale reads of the flag.
- Runtime.GpuRuntime.LaunchMine: takes a positive block size, because the division by it panics on zero.
- Runtime.GpuRuntime.RunGrid: models one grid at a time, because a stream runs launches in order.
- The value gate's floating-point estimate, hashrate sampling, metrics, configuration, keystore, signing and relays' protocols: a submission meets them as yes, no or an error.
- WatcherAndSubmitter.TxSubmitter.Submit: says nothing about the transaction nonce after the call, because an early return can leave it ahead of the chain; receipts are not waited for.
- Liveness of the miner: that a published challenge is eventually mined depends on scheduling.
- `Hooks` callbacks other than the two around swaps, and fees other than the contract's own.
- `validateHookPermissions` for other permission sets: the fee methods assume the set the contract's constructor demands.
- The unused `StateMachine`, the fakes, and the deploy scripts.
