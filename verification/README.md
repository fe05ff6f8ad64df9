# DEX aggregator: verified model

A Dafny 4.11 model of the quote-and-route pipeline of the aggregator, with proofs
over every input, every table and every run. `dafny verify dfyconfig.toml` checks
the whole project.

What is modelled, bottom up:

- **AMM arithmetic** (`TickMath`, `TickAccuracy`, `SwapStep`, `SwapV2`, `SwapV3`, `Ranges`, `Amm`
  in `Scratch.dfy`). All amounts are exact integers. `SwapV3.Quote` is the pure,
  on-demand swap, and `Ranges` says what it adds up to over the tick ranges, without
  the walk; `Amm.SwapV3Into` is the imperative one with cached tick prices over
  the reused workspace. The workspace is a set of distinct big-integer cells passed and
  returned by reference, so the contracts say which cells a call may write, which may be
  aliased, and that a result lives in `out` until the next quote.
- **Pools and the graph** (`Dex`, `Snapshots`). `BuildSnapshot` is a class mutated in
  place; a built snapshot is used as a value (`Graph`).
- **Routing** (`Relaxation`, `Routing`, `Router`). `Relaxation.Rounds` is the pure table of
  best amounts per (hops, token); `Router.Relax` fills real rows whose cells are
  overwritten in place and is proved to hold that table, while the caller's amount,
  stored in round 0 by reference, is never written and no row shares a cell with the
  workspace.
- **Arbitrage** (`Arbitrage`, `ArbitrageSearch`). The probes are visited in an arbitrary
  order, as a Go map is.
- **RPC control** (`Breakers`, `Limiters`, `RpcPool`). Breaker and limiter are classes proved
  against step functions; `Pool.Do` is a state machine over the steps of any number of
  callers. Time is integer nanoseconds passed in, tokens are reals.
- **ABI codec** (`Abi`, `Multicall`). `Abi.Enc` is the encoder of the Contract ABI
  Specification, section "Formal Specification of the Encoding", with its own fixed-width
  words and padding; the program's helpers and encoder are proved equal to it and its
  decoder to read every encoding the offset rules allow.

Shared conventions:

- A V3 pool is `Consistent` when every tick at or below the current one is priced at or
  below `SqrtPriceX96` and every other tick at or above it. The program does not check
  this; `SwapV3.SlotConsistent` proves it for any pool whose price lies in the range its
  own tick names.
- A tick's cached price is either absent or the price of its index, as the field's
  comment says (`CachesValid`). Tick indices are 32-bit; the one decrement is modelled
  with wrap-around.
- Addresses are ASCII; `strings.EqualFold` and `strings.ToLower` are the ASCII lower-case map
  and `strings.TrimSpace` removes the six ASCII blanks.
- `nil` numbers are absent options, `null` cells or non-positive integers, whichever the
  code treats alike.

Where code and comments disagree, the code is followed: `Pool.Do` holds its slot while
it sleeps between retries (internal/rpc/pool.go:123-130 says otherwise), so `Backoff` is
among the holding phases of `RpcPool`. `mulDivInto` is documented as needing a destination
apart from all operands (internal/amm/scratch.go:71-72); only the denominator matters. `usable` compares untrimmed addresses while the
index trims them, so `Arbitrage.SelfEdgesIff` states exactly when the graph has no
self-edge and `Arbitrage.BlankSlipsThrough` shows a pool that gets one. `DecodeHex` strips
"0x" and then "0X", so case matters for that one spelling (`Multicall.CaseIgnoredIff`).

## Model

| member | source | states |
|---|---|---|
| TickMath.SqrtRatioMonotone | internal/amm/tickmath.go:30-103 | the sqrt price is strictly increasing in the tick, over the whole range and across the reciprocal at zero |
| TickMath.SqrtRatioBounds | internal/amm/tickmath.go:19-20 | every price lies within the declared bounds, each attained exactly at its end of the range |
| TickMath.RatioGap | internal/amm/tickmath.go:75-88 | going one tick further from zero lowers the Q128 ratio by at least 2^33, whatever bits carry |
| TickMath.RatioBounds | internal/amm/tickmath.go:90-93 | the ratio is never zero, so the reciprocal branch never divides by zero |
| TickMath.MultiplyFactors | internal/amm/tickmath.go:75-88 | the factor loop computes the bit decomposition, starting from the bit-0 factor or from one |
| TickMath.GetSqrtRatioAtTick | internal/amm/tickmath.go:65-103 | fails exactly outside -887272..887272, otherwise returns the sqrt price, within the price bounds |
| TickAccuracy.TickStepsPrice | internal/amm/tickmath.go:5-6 | neighbouring ticks differ in price by a factor 1.0001 to within one part in 10^8, at every tick |
| TickAccuracy.RatioNeighbours | internal/amm/tickmath.go:23-51 | the 20-factor table steps by sqrt(1.0001) to within 20 units in the last place |
| SwapStep.InputDown | internal/amm/v3.go:246-265 | the doubly rounded-up token0 cost is the least amount covering L*2^96*(p-n)/(p*n) |
| SwapStep.InputUp | internal/amm/v3.go:269-280 | the rounded-up token1 cost is the least amount covering L*(n-p)/2^96 |
| SwapStep.OutputDown | internal/amm/v3.go:269-280 | the token1 output is the largest amount covered by L*(p-n)/2^96 |
| SwapStep.OutputUp | internal/amm/v3.go:246-265 | the doubly rounded-down token0 output is the largest amount covered by L*2^96*(n-p)/(n*p) |
| SwapStep.NextDown | internal/amm/v3.go:284-298 | the price after adding token0 is the least one paying for the input |
| SwapStep.NextUp | internal/amm/v3.go:300-304 | the price after adding token1 rises by the whole units the input buys |
| SwapStep.StepSafe | internal/amm/v3.go:189-242 | a step never passes its target, costs at most what remained, and a step stopping short consumes all of it, so the negative-fee clamp never fires |
| SwapStep.StepWithinSpot | internal/amm/v3.go:211-240 | no step pays more than the price it starts at |
| SwapStep.StepMono | internal/amm/v3.go:189-242 | in one range a larger input reaches the boundary whenever a smaller one does, a crossed range costs and pays the same, and otherwise more input pays at least as much |
| SwapStep.NetOfFee | internal/amm/v3.go:190-193 | what trades is the input less the pool's fee in basis points, rounded down |
| SwapStep.GrossIsLeast | internal/amm/v3.go:235-237 | a crossed range costs the least input whose net amount covers it |
| SwapStep.RangeDown | internal/amm/v3.go:284-298 | selling token0 inside a range never exceeds the constant product over the virtual reserves and falls short by less than L/2^96 + 1 |
| SwapStep.RangeUp | internal/amm/v3.go:300-304 | the token1 direction, with bound L*2^96/P^2 + 1 |
| SwapV3.NextTickNearest | internal/amm/v3.go:337-353 | in sorted ticks no tick lies between the price and the boundary picked |
| SwapV3.NextTickAhead | internal/amm/v3.go:337-353 | the boundary picked is one of the ticks ahead of the price, and none is picked only when none is ahead |
| SwapV3.SortUnique | internal/amm/v3.go:312-321 | with distinct indices every sort of the ticks gives the same order, so the model's sort is the library's |
| SwapV3.CrossingAligned | internal/amm/v3.go:168-174 | crossing a tick keeps every remaining tick on the right side of the new price and leaves strictly fewer of them |
| SwapV3.WalkSafe | internal/amm/v3.go:129-181 | a walk over aligned ticks ends filled with nothing left over, out of ticks or out of liquidity, and pays within spot |
| SwapV3.WalkMono | internal/amm/v3.go:129-181 | two walks from one state share every crossed range; if the larger input fills, the smaller fills for no more |
| SwapV3.QuoteExits | internal/amm/v3.go:157-180 | for a consistent pool the no-progress return, the bad-tick return and the code after the loop are unreachable and a filled swap consumes exactly its input |
| SwapV3.QuoteErrors | internal/amm/v3.go:107-115 | which error a consistent pool's quote gives, and when |
| SwapV3.QuoteWithinSpot | internal/amm/v3.go:106-181 | over any number of crossings out*2^192 <= in*P^2 selling token0 and out*P^2 <= in*2^192 selling token1 |
| SwapV3.QuoteMonotone | internal/amm/v3.go:106-181 | if y is quotable then every positive x <= y is, for no more output |
| SwapV3.RoundTripNeverProfits | internal/amm/v3.go:106-181 | selling and selling back through one pool at one snapshot never profits |
| SwapV3.QuoteWithinOneRange | internal/amm/v3.go:189-242 | a swap staying in its first range quotes the constant product over virtual reserves for in*(10000-fee)/10000, to within one price unit |
| Ranges.QuoteByRanges | internal/amm/v3.go:129-181 | over any number of crossings, a quote is the sum of the crossed ranges' outputs plus what the rest of the input buys in the last one, each range at the pool's liquidity less (going down) or plus (going up) the net of every tick crossed before it |
| Ranges.QuotableIff | internal/amm/v3.go:129-181 | a quote succeeds exactly when the input runs out in some range whose predecessors all have liquidity, and fails as insufficient liquidity otherwise |
| Ranges.NextLiquidity | internal/amm/v3.go:168-174 | the active liquidity of neighbouring ranges differs by the net of the tick between them |
| Ranges.LadderExists | internal/amm/v3.go:337-353 | every consistent pool has the list of boundaries these results speak of |
| SwapV3.SlotConsistent | internal/amm/v3.go:60-67 | a pool whose price lies in the range its tick names is consistent, whatever ticks were fetched |
| SwapV3.PreparedQuote | internal/amm/v3.go:31-51 | preparation sorts, caches and bounds the ticks and changes no quote |
| SwapV3.PrepareFails | internal/amm/v3.go:40-49 | preparation fails exactly when some tick is out of the protocol bounds |
| SwapV2.OutputLargest | internal/amm/v2.go:58-67 | the output is the largest integer keeping the fee-adjusted reserve product from shrinking |
| SwapV2.OutputBelowReserve | internal/amm/v2.go:29-31 | no input drains the pool |
| SwapV2.OutputMonotone | internal/amm/v2.go:58-67 | the output is non-decreasing in the input |
| SwapV2.OutputSubadditive | internal/amm/v2.go:29-31 | f(x+y) <= f(x) + f(y) + 1 |
| SwapV2.OutputWithinSpot | internal/amm/v2.go:58-67 | the output never beats the marginal rate of the reserves |
| Amm.Scratch.constructor | internal/amm/scratch.go:47-69 | a new workspace of fresh cells, no two of them the same object |
| Amm.Scratch.MulDivInto | internal/amm/scratch.go:73-76 | floor(a*b/d) written to `dst`, which may be a factor but not the denominator |
| Amm.Scratch.MulDivRoundingUpInto | internal/amm/scratch.go:79-85 | ceil(a*b/d) written to `dst`, whatever the remainder cell held and even if `dst` is a factor |
| Amm.Scratch.DivRoundingUpInto | internal/amm/scratch.go:88-93 | ceil(dst/d) in place, whatever the remainder cell held |
| Amm.Scratch.GetAmount0DeltaInto | internal/amm/v3.go:246-265 | the token0 amount between two prices in either order; only `dst` and the named temporaries are written |
| Amm.Scratch.GetAmount1DeltaInto | internal/amm/v3.go:269-280 | the token1 amount between two prices in either order; only `dst` and the named temporaries are written |
| Amm.Scratch.GetNextSqrtPriceFromInputInto | internal/amm/v3.go:284-304 | the price after an input, for the price and liquidity cells |
| Amm.Scratch.ComputeSwapStep | internal/amm/v3.go:189-242 | leaves the pure step in the step cells and writes neither the loop cells nor the target |
| Amm.SwapV2Into | internal/amm/v2.go:47-70 | the returned cell is the workspace's `out`, holding the pure V2 quote, errors included; the amount may itself be a workspace cell, and reserves outside the workspace are not written |
| Amm.QuoteV2 | internal/amm/v2.go:35-41 | a fresh copy of the same quote |
| Amm.NextInitializedTick | internal/amm/v3.go:337-353 | the downward and upward scans find the boundary the pure walk uses |
| Amm.IsSorted | internal/amm/v3.go:323-330 | comparing neighbours decides sortedness |
| Amm.BoundaryPrice | internal/amm/v3.go:143-149 | the cached price and the derived price agree |
| Amm.LoopTurn | internal/amm/v3.go:129-175 | one turn either returns the walk's result or leaves the cells where the walk goes on |
| Amm.WalkTicks | internal/amm/v3.go:129-181 | the bounded loop computes the pure walk |
| Amm.SwapV3Into | internal/amm/v3.go:106-181 | the returned cell is the workspace's `out`, holding the pure on-demand quote, errors included, whatever is cached, leftover or already sorted; nothing outside the workspace is written and the amount may be the result of an earlier quote |
| Amm.QuoteV3 | internal/amm/v3.go:82-88 | a fresh copy of the same quote |
| Amm.PrepareTicksLoop | internal/amm/v3.go:31-51 | the preparation loop computes the pure preparation |
| Dex.AmountOutInto | internal/dex/pool.go:118-173 | dispatches by direction and protocol to the pure quote, with every error of the original; the result is the workspace's `out` cell |
| Dex.AmountOut | internal/dex/pool.go:104-110 | a fresh copy of the same quote |
| Dex.V2Quotable | internal/dex/pool.go:146-158 | when a V2 quote succeeds, and which error it gives otherwise |
| Dex.V2QuoteLargest | internal/dex/pool.go:146-158 | the output is the largest integer keeping (10000*Rin + in*(10000-fee))*(Rout-out) >= 10000*Rin*Rout at the pool's own fee, Rin being the reserve of the token sold |
| Dex.V3QuoteByRanges | internal/dex/pool.go:160-173 | a V3 quote is the sum over ranges at the pool's own fee, tick and ticks |
| Dex.QuoteRefuses | internal/dex/pool.go:118-144 | a token outside the pool and an unknown protocol are refused exactly as such |
| Text.EqualFoldIff | internal/dex/pool.go:195-197 | folded comparison ignores exactly the case of ASCII letters |
| Text.TrimSpaceSpec | internal/dex/pool.go:195-197 | trimming removes the blanks at both ends, all of them, and nothing else |
| Dex.QuoteMonotone | internal/dex/pool.go:118-132 | for either protocol a smaller input is quotable whenever a larger one is, never for more |
| Dex.QuoteLosesValue | internal/dex/pool.go:118-132 | at prices matching a pool's marginal rate no quote pays out more value than it takes in |
| Dex.ThereAndBack | internal/dex/pool.go:118-144 | selling through a pool and back never profits, for either protocol |
| Snapshots.PreparedPoolQuotes | internal/graph/snapshot.go:112-125 | preparing a pool at build time changes none of its quotes |
| Snapshots.KeptIff | internal/graph/snapshot.go:84-125 | a pool is kept exactly when both addresses are named and differ beyond case, and its protocol's state is loaded, positive and within tick bounds |
| Snapshots.KeptAppends | internal/graph/snapshot.go:62-77 | a list keeps, in order, what its parts keep |
| Snapshots.Snapshot.Intern | internal/graph/snapshot.go:128-139 | a token gets one index for all spellings; existing indices never change |
| Snapshots.Snapshot.AddEdge | internal/graph/snapshot.go:141-144 | appends one edge at its source token |
| Snapshots.Snapshot.AddPool | internal/graph/snapshot.go:70-77 | adds the pool with one edge each way and disturbs no other pool's edges |
| Snapshots.Snapshot.TokenIndex | internal/graph/snapshot.go:208-217 | finds the token with the normalised address, or there is none |
| Snapshots.BuildSnapshot | internal/graph/snapshot.go:56-144 | keeps exactly the usable pools in order, gives each its two opposite edges once each, and indexes every token once, as a kept pool describes it |
| Relaxation.Bellman | internal/graph/router.go:228-263 | the filtered Bellman equation: seen iff some offer, amount the maximum offer, predecessor the first edge in scan order attaining it |
| Relaxation.RoundsPrefix | internal/graph/router.go:228-263 | round k depends on earlier rounds only |
| Relaxation.CellDominates | internal/graph/router.go:236-262 | in every round a cell holds at least every positive quote of an edge whose target is not on the chain, or is the start of a closed loop |
| Relaxation.SeenIff | internal/graph/router.go:148-169 | a token is seen in round k exactly when such an edge exists |
| Relaxation.ScanOrder | internal/graph/router.go:229-236 | edges are scanned by token index, then in insertion order |
| Relaxation.PathFollows | internal/graph/router.go:270-293 | a seen cell's chain is a path of exactly k edges from the start that replays to the cell's amount |
| Relaxation.ChainSimple | internal/graph/router.go:148-169 | on simple paths no token occurs twice on a chain |
| Relaxation.DistinctTokensDistinctPools | internal/graph/router.go:191-197 | a path through distinct tokens never meets a pool twice |
| Routing.BestRoundSpec | internal/graph/router.go:171-182 | the chosen round is maximal and ties go to the fewest hops |
| Routing.PriceImpactBounds | internal/graph/router.go:305-350 | the impact is at least 0 and below 10000 bps, so the int64 fallback is never taken |
| Routing.RouteImpact | internal/graph/router.go:305-350 | a route's impact is the basis points, rounded down, by which its output falls short of a thousandth-size probe re-sold along its own path and scaled up; zero when the probe cannot be sold |
| Routing.BestRouteExecutable | internal/graph/router.go:83-123 | every returned route runs from tokenIn to tokenOut within maxHops through distinct tokens and pools, chains its amounts and replays to AmountOut |
| Routing.DistinctPoolAddresses | internal/graph/router.go:278-288 | with unique pool addresses the reported hop addresses are distinct |
| Routing.BestRouteRefuses | internal/graph/router.go:84-103 | which requests are refused and with which error |
| Routing.NoRouteIff | internal/graph/router.go:105-109 | there is no route exactly when no round up to maxHops reaches the target |
| Routing.BeatsDirect | internal/graph/router.go:70-78 | in a built snapshot a route is returned and pays at least what any direct pool between the two tokens quotes |
| Routing.BeatsTwoHops | internal/graph/router.go:70-78 | with maxHops >= 2 the returned route pays at least what any two pools through a third token quote, if the second still quotes the best one-hop output |
| Routing.BeatsTwoHopsV2 | internal/graph/router.go:70-78 | on V2-only snapshots the same of every quotable two-hop path, unconditionally |
| Routing.MoreHopsNeverWorse | internal/graph/router.go:83-123 | whenever a route is returned, a larger maxHops also returns one, paying no less; if it pays the same it is the same route |
| Router.Row.Take | internal/graph/router.go:251-261 | an in-place update copies the offered cell into one cell, only for a strictly better amount |
| Router.ChainAllows | internal/graph/router.go:148-169 | the chain walk says yes exactly for a token not on the chain, and for the start exactly on closed loops |
| Router.MakeOffer | internal/graph/router.go:233-248 | quoting in the shared workspace and applying the skip tests yields the edge's offer, as the workspace's `out` cell, and touches no row |
| Router.TakeInto | internal/graph/router.go:255-261 | copying a winner out of the workspace into the current round leaves every finished round as it was |
| Router.RelaxRound | internal/graph/router.go:229-263 | one round over all tokens and edges computes the pure round |
| Router.Relax | internal/graph/router.go:205-267 | the rows hold the pure table and nothing allocated before, the caller's amount included, is written |
| Router.BestRoundFor | internal/graph/router.go:171-182 | the loop picks the pure best round |
| Router.Reconstruct | internal/graph/router.go:270-293 | walking the predecessors back yields the pure hops |
| Router.FindPool | internal/graph/router.go:356-363 | first pool with the address |
| Router.MeasureImpact | internal/graph/router.go:305-350 | equals the pure price impact |
| Router.FindBestRoute | internal/graph/router.go:83-123 | refuses bad requests and unknown tokens and otherwise returns the pure best route |
| Arbitrage.SamePoolsSameKey | internal/graph/arbitrage.go:131-138 | loops over the same pools have the same key wherever they start |
| Arbitrage.SameKeySamePools | internal/graph/arbitrage.go:131-138 | for addresses without the separator, different pool sets never share a key |
| Arbitrage.StringLeqIff | internal/graph/arbitrage.go:92-97 | keys are compared lexicographically |
| Arbitrage.ProfitIs | internal/graph/arbitrage.go:116-123 | the profit is the gain in basis points, rounded down and capped at an int64 |
| Arbitrage.LoopCloses | internal/graph/arbitrage.go:66-82 | a reported loop closes at its start along graph edges, replays to more than it consumed and has non-negative profit |
| Arbitrage.SelfEdgesIff | internal/graph/snapshot.go:84-90 | the graph has no self-edge exactly when every pool's two normalised addresses differ |
| Arbitrage.BlankSlipsThrough | internal/graph/snapshot.go:88 | a pool of one token with itself, spelled once with any trailing blank, is usable |
| Arbitrage.TrimmedTwoTokens | internal/graph/snapshot.go:88 | it cannot be when the addresses are trimmed |
| Arbitrage.EdgeDirection | internal/dex/pool.go:135-144 | an edge sells token0 exactly when it leaves the pool's token0 |
| Arbitrage.ShortLoopsSimple | internal/graph/arbitrage.go:66-83 | with at most three hops a reported loop repeats no token but the start and no pool |
| Arbitrage.TableLosesValue | internal/graph/router.go:205-267 | in a market at one price, value only shrinks along every chain of the table, in either mode |
| Arbitrage.MarketHasNoLoops | internal/graph/arbitrage.go:66-73 | so no loop of any length is profitable |
| Arbitrage.TwoHopLoopFound | internal/graph/arbitrage.go:66-83 | a profitable two-pool loop shows up in round 2 whenever the second pool still quotes |
| ArbitrageSearch.BuildCycle | internal/graph/arbitrage.go:100-127 | the cycle lists its tokens and pools in hop order with capped profit |
| ArbitrageSearch.CollectProbe | internal/graph/arbitrage.go:64-84 | one probe adds its profitable loops, each pool set once, and keeps everything found before |
| ArbitrageSearch.FindArbitrage | internal/graph/arbitrage.go:43-98 | in any probe order: only profitable loops, each pool set once, profits descending and equal profits by key, and every round that returns more than was probed is represented |
| ArbitrageSearch.MarketHasNoArbitrage | internal/graph/arbitrage.go:43-98 | at one consistent price the result is empty for any probes and any hop budget |
| ArbitrageSearch.ReportedCloses | internal/graph/arbitrage.go:43-98 | every reported cycle closes at its probe token and replays to a gain; up to three hops it is simple |
| Breakers.Breaker.AllowCall | internal/rpc/breaker.go:64-98 | the mutex-protected call is the pure step |
| Breakers.Breaker.RecordSuccess | internal/rpc/breaker.go:101-112 | the mutex-protected call is the pure step |
| Breakers.Breaker.RecordFailure | internal/rpc/breaker.go:116-139 | the mutex-protected call is the pure step |
| Breakers.StateFromHistory | internal/rpc/breaker.go:64-139 | the state is a function of the history: closed iff fewer than threshold failures since the last success, half-open iff tripped with exactly one admission since the last outcome, open iff tripped with none |
| Breakers.AdmittedIff | internal/rpc/breaker.go:64-98 | a call is admitted iff not tripped, or no probe is out and the cooldown since the last failure is over |
| Breakers.DisabledAdmits | internal/rpc/breaker.go:65-67 | without a positive threshold every call of every run is admitted |
| Breakers.CooldownRespected | internal/rpc/breaker.go:76-84 | over every run no call is admitted within the cooldown of a failure that left it tripped unless a success intervenes |
| Breakers.SingleProbe | internal/rpc/breaker.go:86-93 | once tripped at most one probe is out between outcomes |
| Limiters.Limiter.Take | internal/rpc/limiter.go:100-125 | the mutex-protected reservation is the pure step and keeps the bucket within its burst |
| Limiters.AdmittedInWindow | internal/rpc/limiter.go:100-117 | in any window, from any bucket, at most burst + rate * window attempts are admitted, by however many callers |
| Limiters.AdmittedExactly | internal/rpc/limiter.go:100-117 | an attempt is admitted exactly when one more admission keeps every window ending at it within burst + rate * window |
| Limiters.BurstAtOnce | internal/rpc/limiter.go:113-116 | a bucket with n tokens admits n attempts at once |
| Limiters.DelayIsLeast | internal/rpc/limiter.go:119-124 | a refused caller is told the least wait of at least a millisecond, one nanosecond past which a token is there |
| Limiters.AccrualPerSecond | internal/rpc/limiter.go:106-107 | tokens accrue at the rate per second |
| Limiters.TwoSleepsSuffice | internal/rpc/limiter.go:68-125 | a sole waiter is admitted after at most two sleeps despite truncation to nanoseconds |
| RpcPool.WithDefaults | internal/rpc/pool.go:48-67 | any raw configuration becomes a usable one: settings in range are kept, the others get the documented defaults |
| RpcPool.StepKeepsInv | internal/rpc/pool.go:122-173 | every step of every caller keeps slots, counters, attempts and the limiter and breaker histories in agreement |
| RpcPool.RunKeepsInv | internal/rpc/pool.go:122-173 | so every reachable state satisfies the invariant |
| RpcPool.PoolSafety | internal/rpc/pool.go:122-173 | in every interleaving transport calls number at most burst + rate * elapsed, at most Workers are in flight, each `Do` starts at most MaxRetries + 1, and admissions and reports are conserved |
| RpcPool.PoolRespectsCooldown | internal/rpc/pool.go:145-161 | in every interleaving the breaker's cooldown is respected |
| RpcPool.FailureRetries | internal/rpc/pool.go:137-173 | a failed, uncancelled call with attempts left backs off holding its slot; it gives up only after MaxRetries + 1 transport calls |
| RpcPool.CancelledStops | internal/rpc/pool.go:140-168 | a cancelled caller is not retried and frees its slot |
| RpcPool.WakeTriesAgain | internal/rpc/pool.go:137-148 | after its backoff a call asks the breaker again with the same attempt |
| RpcPool.AskDecides | internal/rpc/pool.go:145-148 | the breaker's answer decides between going on and being rejected |
| RpcPool.PollDecides | internal/rpc/pool.go:150-154 | the limiter's answer decides between calling now and waiting on |
| RpcPool.SuccessReturns | internal/rpc/pool.go:155-159 | a success completes the call and frees its slot |
| RpcPool.NeverStuck | internal/rpc/pool.go:122-173 | an unfinished call always has a step to take, and a queued one takes a free slot |
| Abi.WordRoundTrip | internal/rpc/abi.go:47-75 | a 64-bit number encodes to one word that reads back as it |
| Abi.EncodeUintFormal | internal/rpc/abi.go:68-75 | `encodeUint` of a 64-bit number is its 32 big-endian bytes |
| Abi.PadLeftFormal | internal/rpc/abi.go:47-54 | left padding a short byte string gives the formal encoding of the number it denotes |
| Abi.PadRightFormal | internal/rpc/abi.go:58-65 | `padRight` appends exactly the zero bytes the specification asks for |
| Abi.UnsignedRoundTrip | internal/rpc/abi.go:114-129 | word i of the data, holding a formally encoded number, reads back as it |
| Abi.SignedRoundTrip | internal/rpc/abi.go:137-157 | word i of the data, holding a value of the declared width in two's complement, reads back exactly |
| Abi.ArrayAtUnique | internal/rpc/multicall.go:207-223 | the offset rules read at most one array out of given data |
| Abi.EntriesEncoding | internal/rpc/multicall.go:136-157 | the length, offsets and bodies the program writes are the formal encoding of the array of (word, bytes) tuples |
| Abi.EntriesRead | internal/rpc/multicall.go:136-157 | data holding that encoding reads back, by offsets, as exactly those entries |
| Multicall.HexRoundTrip | internal/rpc/abi.go:90-111 | every byte string survives the trip through hex |
| Multicall.DecodeHexMeans | internal/rpc/abi.go:90-106 | a string decodes exactly when what follows its prefix is hex digits of either case, and to the bytes that write as those digits in lower case, an odd number led by a zero |
| Multicall.CaseIgnoredIff | internal/rpc/abi.go:90-106 | lower-casing never changes the result, except exactly for "0x0X" before hex digits |
| Multicall.CaseMatters | internal/rpc/abi.go:92-93 | "0x0Xab" decodes and "0x0xab" does not |
| Multicall.EncodeCallTuple | internal/rpc/multicall.go:166-180 | one call encodes as the formal (address, bytes) tuple, and fails exactly on a bad address |
| Multicall.EncodeTryAggregate | internal/rpc/multicall.go:120-163 | while sizes stay below 2^64, the payload is the selector and exactly the formal ABI encoding of the arguments; it fails exactly on a bad address |
| Multicall.EncodedRequests | internal/rpc/multicall.go:120-163 | the payload, read by the offset rules, asks for exactly the calls given |
| Multicall.RequestsUnique | internal/rpc/multicall.go:120-163 | and it can be read no other way |
| Multicall.TupleDecodes | internal/rpc/multicall.go:228-251 | a (bool, bytes) tuple laid out by the offset rules decodes to its result |
| Multicall.AnswersDecode | internal/rpc/multicall.go:183-225 | decoding any well-formed encoding of the results, in any layout, returns exactly them |
| Multicall.WrongCountRefused | internal/rpc/multicall.go:188-206 | data too short for a list and a list of the wrong length are refused as such |
| Multicall.Int64Is | internal/rpc/multicall.go:198-203 | offsets and counts keep their low 64 bits as a signed number |
| Multicall.CanonicalAnswers | internal/rpc/multicall.go:183-225 | the formal encoding of the results is one of those encodings |
| Multicall.DecodeTryAggregate | internal/rpc/multicall.go:183-225 | the decoding loop computes the pure decoder, errors included |
| Multicall.Aggregate | internal/rpc/multicall.go:66-107 | for every batch size, when each batch's payload and answer fit the wire, a conforming node's results line up one-to-one with the calls; any success has one result per call and took as few requests as the batch size allows |
| Multicall.ServerConforms | internal/rpc/multicall.go:66-107 | whatever the calls return, some node conforms: it reads requests by offsets and answers canonically |
| Multicall.AllBatchesFit | internal/rpc/multicall.go:74-78 | calls that would fit a single batch fit batches of every size |

## Left out

- Router.Relax: allocates each row when its round starts instead of all rows first; the rows are the same.
- Amm.SwapV3Into: ticks are values, so that their numbers are not written holds by construction; the pool's price and liquidity are cells.
- Dex.AmountOutInto: a pool is a value of the snapshot whose numbers are handed to the swap in cells of their own.
- Multicall.EncodeTryAggregate: beyond 2^64 bytes the offsets wrap, as in the program, and the formal encoding is not claimed.
- Ranges.QuoteByRanges: needs distinct tick indices, as initialised ticks have; of ticks sharing an index the program crosses one only.
- SwapV3.SortUnique: for ticks sharing an index the library's unstable sort may order them either way; the model's order is fixed.
- Limiters.Limiter.Take: tokens are exact reals, so float64 rounding is not captured.
- Multicall.DecodeTryAggregate: offsets beyond int64 follow the 64-bit conversion; slice panics are an error value, and index overflow past int64 is not modelled.
- RpcPool.PoolSafety: recovery of a tripped breaker is not claimed, because a limiter error returns without reporting an outcome; the retried counter and the backoff jitter are not modelled.
- Optimality of routes from three hops up: the one-best-amount-per-cell rule drops some simple paths by design.
- Simplicity of arbitrage cycles of four hops and more: closed-loop mode may extend a path that already returned to the start.
- `decodeTick` of internal/dex/onchain: does not mask to 128 bits before the sign step.
- Keccak and CREATE2: the tryAggregate selector is a constant of the model.
- JSON, HTTP, Redis, websockets, metrics, the indexer and `Holder`: I/O plumbing.
- The simulator and `parseAmount`: floating point.
- Non-ASCII addresses and Unicode case folding.
- The web front end.
