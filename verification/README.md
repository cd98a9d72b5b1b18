# A verified model of the OxDEX batch auction

OxDEX settles token orders in sealed batches. An order offers an amount of one token and names the least amount of another token it wants in return; the ratio is its limit price, a rational of two integers. For every token pair the matching engine sorts both directions by limit price, fills the heads of the two queues while they cross, derives one clearing price from the last crossing pair, and re-prices every fill at it. The auctioneer repeats rounds: expire stale orders, list the open ones, race the solvers, mark the winner's orders, deliver the solution. Order submission and cancellation happen at any time in between.

The project models the engine, the in-memory repository and the auctioneer in their own imperative form, proves each method against a specification on values, and proves what the engine and the auction promise about those specifications.

| file | part |
|---|---|
| `Numbers.dfy` | saturating and exact arithmetic, floor division |
| `Prices.dfy` | rational prices, comparison, floor application |
| `Orders.dfy` | orders, ids, trades, solutions |
| `Sorting.dfy` | the stable sort by limit price and its uniqueness |
| `Sweep.dfy` | the crossing loop as a step function, with its invariants |
| `BookCrossing.dfy` | exhaustiveness, price priority, fill-or-kill |
| `FillOrKillService.dfy` | when a fill-or-kill order is served |
| `LastCrossing.dfy` | which pair of orders sets the clearing price |
| `ClearingPrices.dfy` | the clearing price and its reciprocal, with saturation |
| `Settlement.dfy` | the outcome of a market; individual rationality |
| `Conservation.dfy` | what flows between the two sides |
| `Samples.dfy` | sample orders; listing a sorted book |
| `CleanRatios.dfy` | when token B is conserved |
| `UncleanRatios.dfy` | books that over-deliver token B, for every other ratio |
| `NarrowSpreads.dfy` | when token A is conserved |
| `Exactness.dfy` | when saturating and unbounded arithmetic agree |
| `MatchPair.dfy` | the imperative `match_pair` |
| `Market.dfy` | guarantees of one market |
| `MarketPriority.dfy` | exhaustiveness, price priority and fill-or-kill service of one market |
| `ReportedConservation.dfy` | the exact conservation conditions, on what the engine reports |
| `CounterOrders.dfy` | a market flooded with counter-orders to one order |
| `Batches.dfy` | the imperative `match_batch` |
| `BatchProperties.dfy` | guarantees of a batch: locality, arrival order, exactness |
| `MarketReports.dfy` | clearing prices, surplus and score, against the trades they come with |
| `Witnesses.dfy` | concrete markets showing where a guarantee stops |
| `Repository.dfy` | the in-memory repository, as a class |
| `Auction.dfy` | the auction as a step system, with its invariants over runs |
| `Runs.dfy` | putting runs together; runs raced by the reference matcher alone |
| `Histories.dfy` | what the history of a run says about an order |
| `ApiCalls.dfy` | the API calls that reach the repository |
| `Rounds.dfy` | the effect of rounds on repository and sink, as values |
| `Auctioneer.dfy` | the auctioneer, as a class, with API calls between and inside its rounds |
| `AuctionWitnesses.dfy` | concrete runs in which a cancellation is overwritten |
| `ReferenceOverwrites.dfy` | which cancellations are final when only the reference matcher answers |

Conventions. `Machine` stands for the program's saturating 128-bit arithmetic and `Exact` for unbounded naturals; a specification takes either as its first argument. Hash-map iteration, and the order in which parallel pairs finish, are arbitrary choices in the methods, so outcomes are compared as multisets of trades. Amounts of zero are not excluded: the engine handles them and so do the proofs. Every lemma switches automatic induction off, so each proof is the one written down.

## Findings

Where the code does not do what its documentation or a first reading suggests, the model follows the code.

- Limits. Sellers of the smaller mint always get their limit, for all u64 amounts, although the price itself may saturate. A seller of the other mint gets it if and only if it sells something other than a single unit, or the price denominator does not saturate, or the saturated price of one unit still covers its limit (`SellersOfBGetTheirLimitIff`). Amounts below 2^63 meet this. `SellerOfBCanMissItsLimit` is a market near 2^64 where an order is short-changed.
- Conservation of token B. Fills are booked at the ratio of one seller of B, rounded down, and then re-priced, so B can be over-delivered. Sellers of B that offer t for c conserve it on every book if and only if one amount is a multiple of the other (`CleanRatioIff`, and `CleanRatioReportedIff` for what the engine reports). Otherwise the loss is not bounded by the number of orders: a unit of B left behind takes any amount of A without being paid out, so two sellers of A and one of B make the engine sell 1 B and hand out 2n + 1 (`TokenBIsOverDelivered`). The excess is below one unit per fill (`NoOverDeliveryOfB`), and only the A on offer bounds the number of fills (`FillsWithinOffers`).
- Conservation of token A. A can be over-delivered too (`TokenAIsOverDelivered`): what is handed out, with the rounding dust of the fills, is what was sold plus the surplus of the sellers of B (`BooksOfTokenA`). It is conserved whenever no crossing pair of limits clears at a price that pays a seller of B a whole unit over what it asks (`NarrowSpreadConservesA`); that can be checked before the call, holds when no two orders cross with a spread (`NoSpreadIsNarrow`), and is exact for uniform orders where one seller of A can fill one of B (`NarrowSpreadIff`, `NarrowSpreadReportedIff`).
- Fill-or-kill. An order that forbids partial fills is passed over for good at the first crossing order that cannot serve it in full, even if several together could. It sells out whenever every crossing order it meets can serve it (`FillOrKillSellersOfASell`, `FillOrKillSellersOfBSell`).
- `Price` comparison is described as exact. It is for limit prices; for arbitrary u128 prices it is exact under the condition of `CmpExactIff`.
- Determinism. The same input gives the same solution up to listing order. Arrival order still decides between equally priced orders (`TiesAreBrokenByArrival`), and only there (`ArrivalOrderOnlyBreaksTies`).
- Marking overwrites. `update_status` is unconditional, so a cancellation that lands inside a round can be overwritten. `CancelledWhileListed` and `CancelledAfterTheRace` are runs from the empty repository in which the reference matcher alone answers and the cancelled order is delivered. `CancellationIsFinalIff` says exactly when a cancellation is final, whatever sound solvers are plugged in. For partially fillable sellers of the smaller mint the same condition is exact when the reference matcher is the only solver (`ReferenceCancellationIsFinalIff`): while the round lists, enough counter-orders can still be submitted to make it pick the order up. No order ever returns to `Open`, which is what at-most-once delivery needs.
- Solver answers are taken as they come: the auctioneer does not check them. Winner selection and the effects of a round are proved for arbitrary answers; the guarantees over runs need every answer to be `Sound` for its batch, which the reference matcher's always is.

## Model

| member | source | states |
|---|---|---|
| Prices.CmpExactIff | crates/oxdex-types/src/price.rs:52-59 | the saturating comparison equals the rational one if and only if the cross products are equal or one is below the u128 maximum |
| Prices.CmpNotAlwaysExact | crates/oxdex-types/src/price.rs:52-59 | two u128 prices, one smaller, that the order calls equal |
| Prices.LimitOrderIsExact | crates/oxdex-types/src/price.rs:41-59 | on prices of u64 amounts the order is the exact rational total preorder and agrees with `ge_rational` |
| Prices.ApplyMono | crates/oxdex-types/src/price.rs:33-38 | applying a price is monotone in price and amount, overflow included on the larger side |
| Prices.PricingTheSumBeatsTheParts | crates/oxdex-types/src/price.rs:33-38 | pricing a sum beats the priced parts by fewer units than there are parts |
| Prices.ApplyIsTheFloor | crates/oxdex-types/src/price.rs:33-38 | applying a price gives the largest amount it covers, or the u128 maximum when the product overflows |
| Sorting.SortSorts | crates/oxdex-matching/src/lib.rs:163-169 | sorting orders a side by limit price and is a permutation |
| Sorting.SortIsStable | crates/oxdex-matching/src/lib.rs:163-169 | orders limited at the same price keep their arrival order |
| Sorting.SortForgetsArrivalOrder | crates/oxdex-matching/src/lib.rs:163-169 | the stable sort is unique: two sides are sorted alike if and only if they agree on the arrival order inside every price level |
| Sweep.RoundsAreBounded | crates/oxdex-matching/src/lib.rs:189-258 | the loop ends within unvisited orders on both sides plus A on offer, despite zero-B fills and rollbacks |
| Sweep.DecideIsExact | crates/oxdex-matching/src/lib.rs:196-224 | with u64 amounts no product of an iteration saturates |
| Sweep.PerformKeepsLedger | crates/oxdex-matching/src/lib.rs:206-257 | every unit that left an order is in its fills, and the two fill lists mirror each other |
| Sweep.StepKeepsInv | crates/oxdex-matching/src/lib.rs:189-258 | one iteration keeps the ledger, the booking ratio, the last crossing pair behind the pointers, fill-or-kill, and spent orders behind the pointers |
| Sweep.RunKeepsInv | crates/oxdex-matching/src/lib.rs:189-258 | the same after the whole loop, which takes no saturating path for any u64 amounts |
| BookCrossing.NoCrossingLeftBehind | crates/oxdex-matching/src/lib.rs:189-258 | exhaustiveness: at exit no two partially fillable orders that could still trade cross, over all pairs |
| BookCrossing.BetterSellersOfAGoFirst | crates/oxdex-matching/src/lib.rs:168-258 | if an A→B order trades, every strictly better priced partially fillable one is fully sold |
| BookCrossing.BetterSellersOfBGoFirst | crates/oxdex-matching/src/lib.rs:168-258 | if a B→A order trades, every strictly better priced partially fillable one keeps less than one unit of A buys |
| BookCrossing.FillOrKill | crates/oxdex-matching/src/lib.rs:226-257 | an order that forbids partial fills is untouched or sold completely |
| FillOrKillService.RunKeepsKills | crates/oxdex-matching/src/lib.rs:189-258 | every unserved fill-or-kill order behind its pointer was passed over at a crossing order that could not serve it in full then, and still cannot |
| FillOrKillService.FillOrKillSellerOfAIsServed | crates/oxdex-matching/src/lib.rs:204-257 | a fill-or-kill seller of A sells out if a partially fillable crossing order can still take A and no crossing order it met took too little |
| FillOrKillService.FillOrKillSellerOfBIsServed | crates/oxdex-matching/src/lib.rs:204-257 | a fill-or-kill seller of B sells out if a partially fillable crossing order still offers A and every crossing order it met could pay for all of it |
| LastCrossing.ClearingPairIsTheLastMet | crates/oxdex-matching/src/lib.rs:196-257 | the remembered pair is the last pair of heads that met: it crosses, both had something to trade, each pointer stands at or one past it, and the heads behind it do not cross |
| ClearingPrices.MidpointIsTheMean | crates/oxdex-matching/src/lib.rs:268-275 | the unsaturated clearing price is the mean of the two limits |
| ClearingPrices.MidpointIsBetweenLimits | crates/oxdex-matching/src/lib.rs:268-275 | it lies between the A→B limit and the inverse B→A limit |
| ClearingPrices.ClearingCoversTheAsk | crates/oxdex-matching/src/lib.rs:271-298 | at the machine price any u64 amount of A brings at least the seller's limit, saturated or not |
| ClearingPrices.ReciprocalCoversTheBidIff | crates/oxdex-matching/src/lib.rs:308-316 | the reciprocal price covers the limit of the crossing seller of B for every amount if and only if the guard on the pair holds |
| ClearingPrices.SpreadIsTheGainIff | crates/oxdex-matching/src/lib.rs:268-316 | the unsaturated price pays the crossing seller of B nothing beyond its limit, for every amount, if and only if the pair crosses without a spread |
| Settlement.SellersOfAGetTheirLimit | crates/oxdex-matching/src/lib.rs:292-306 | every A→B trade respects its limit, wherever the last crossing pair came from, so the surplus guard drops nothing |
| Settlement.SellersOfBGetTheirLimitIff | crates/oxdex-matching/src/lib.rs:308-325 | a B→A trade respects its limit if and only if it does not sell a single unit at a saturated price that no longer covers it |
| Conservation.DeliveryPerOrder | crates/oxdex-matching/src/lib.rs:280-306 | an order is delivered at most what its fills booked plus one unit per later fill |
| Conservation.NoOverDeliveryOfB | crates/oxdex-matching/src/lib.rs:207-325 | B bought plus A→B trades is at most B sold plus fills |
| CleanRatios.RunKeepsLossIsLast | crates/oxdex-matching/src/lib.rs:189-258 | when sellers of B ask clean ratios, a fill that loses B to rounding is the last fill of its A→B order |
| CleanRatios.CleanRatiosConserveB | crates/oxdex-matching/src/lib.rs:189-325 | when every seller of B offers a multiple of what it asks, or asks a multiple of what it offers, no more B is bought than sold |
| UncleanRatios.CoarseBookOverDelivers | crates/oxdex-matching/src/lib.rs:189-325 | for a ratio above one that is not whole, a book of four orders that hands out one B more than is sold |
| UncleanRatios.FineBookOverDelivers | crates/oxdex-matching/src/lib.rs:189-325 | for a ratio below one whose inverse is not whole, a book of three orders that hands out any multiple of the offer more than is sold |
| UncleanRatios.CleanRatioIff | crates/oxdex-matching/src/lib.rs:189-325 | sellers of B offering t for c conserve B on every sorted book if and only if one amount is a multiple of the other |
| Conservation.BooksOfTokenA | crates/oxdex-matching/src/lib.rs:223-325 | A bought plus the dust of the fills is at most A sold plus the surplus of the sellers of B, and equal to it when nothing is clamped |
| Conservation.WholeRatiosConserveAIff | crates/oxdex-matching/src/lib.rs:223-325 | with whole ratios the A over-delivered is the surplus of the sellers of B; none if and only if none of them is paid a whole unit over its bookings |
| NarrowSpreads.NarrowSpreadConservesA | crates/oxdex-matching/src/lib.rs:189-325 | when no crossing pair clears at a price that pays a seller of B a whole unit over what it asks, no more A is bought than sold |
| NarrowSpreads.NoSpreadIsNarrow | crates/oxdex-matching/src/lib.rs:268-316 | a book on which no two orders cross with a spread meets that condition |
| NarrowSpreads.NarrowSpreadIff | crates/oxdex-matching/src/lib.rs:189-325 | for uniform crossing offers where one seller of A can fill one of B, the condition holds if and only if every sorted book conserves A |
| Conservation.UniformPriceIsValueNeutral | crates/oxdex-matching/src/lib.rs:275-325 | at the uniform price the market keeps a non-negative value, below one denominator per trade when nothing is clamped |
| Exactness.SmallMarketsAreExact | crates/oxdex-matching/src/lib.rs:177-325 | amounts below 2^42, fewer than 2^40 orders: prices, trades and surplus equal those over unbounded naturals |
| Exactness.SmallBooksConserve | crates/oxdex-matching/src/lib.rs:177-325 | the conservation laws of both tokens, with their conditions, as the saturating engine keeps them on small books |
| Exactness.SmallBooksConserveAIff | crates/oxdex-matching/src/lib.rs:177-325 | the exact over-delivery of token A per fills, as the saturating engine has it on small books with whole ratios |
| MatchPair.FillHeads | crates/oxdex-matching/src/lib.rs:204-257 | one pass over array buffers, push and pop included, performs exactly the decided move, whose effect over the loop the invariants of `Sweep`, `FillOrKillService` and `LastCrossing` state |
| MatchPair.SweepBook | crates/oxdex-matching/src/lib.rs:177-258 | the array loop ends in the state the step function describes |
| MatchPair.SumPerOrder | crates/oxdex-matching/src/lib.rs:277-287 | the map holds each filled order's total, and the plain additions stay in range |
| MatchPair.PriceSide | crates/oxdex-matching/src/lib.rs:289-325 | in whatever order the hash map is visited, the same trades and the saturated sum of all gains are added |
| MatchPair.MatchPair | crates/oxdex-matching/src/lib.rs:141-341 | reports the specified prices and surplus and the specified multiset of trades |
| MarketReports.PricesComeWithTrades | crates/oxdex-matching/src/lib.rs:260-341 | no trades, no price and no surplus; with trades exactly two prices, of the smaller and the larger mint, that are reciprocal |
| MarketReports.TradesPayTheClearingPrice | crates/oxdex-matching/src/lib.rs:289-341 | uniform pricing: every trade is paid at the price reported for the token it buys |
| MarketReports.ClearingPriceIsTheMean | crates/oxdex-matching/src/lib.rs:268-341 | in a small market the reported price is the mean of the two limits of the last pair that met |
| MarketReports.SurplusIsTheGain | crates/oxdex-matching/src/lib.rs:289-325 | the reported surplus is what the trades of both sides bring beyond their limits, unless a trade was clamped |
| Market.EveryTradeIsFair | crates/oxdex-matching/src/lib.rs:141-341 | each trade is of an order of the market, sells within its offer, respects fill-or-kill and its limit price |
| Market.FillOrKillBuysItsAmount | crates/oxdex-matching/src/lib.rs:141-341 | a fill-or-kill order that trades sells its whole offer and receives at least the amount asked for, as a seller of A always and as a seller of B with amounts below 2^63 |
| Market.SmallMarketsConserve | crates/oxdex-matching/src/lib.rs:141-341 | per token, what a small market hands out against what it takes in: B within one unit per fill and not more for clean ratios, A within the reported surplus and not more for a narrow spread, value bounded by rounding |
| ReportedConservation.CleanRatioReportedIff | crates/oxdex-matching/src/lib.rs:141-341 | for small orders, the engine never reports more B bought than sold if and only if the ratio of the sellers of B is clean |
| ReportedConservation.NarrowSpreadReportedIff | crates/oxdex-matching/src/lib.rs:141-341 | for small uniform offers, the engine never reports more A bought than sold if and only if the clearing price pays less than a unit over the ask |
| MarketPriority.NoTradeLeftBehind | crates/oxdex-matching/src/lib.rs:141-341 | after the reported trades, no partially fillable seller of A with A left crosses a partially fillable seller of B that can still buy a unit |
| MarketPriority.BetterPricedSellersOfASellOut | crates/oxdex-matching/src/lib.rs:141-341 | if a seller of A trades, every strictly better priced, partially fillable one is sold out |
| MarketPriority.BetterPricedSellersOfBAreSpent | crates/oxdex-matching/src/lib.rs:141-341 | if a seller of B trades, no strictly better priced, partially fillable one can still buy a unit of A at its limit |
| MarketPriority.FillOrKillSellersOfASell | crates/oxdex-matching/src/lib.rs:141-341 | a fill-or-kill seller of A is sold out if some partially fillable seller of B crosses it and every crossing one could still take its whole offer after the reported trades |
| MarketPriority.FillOrKillSellersOfBSell | crates/oxdex-matching/src/lib.rs:141-341 | a fill-or-kill seller of B is sold out if some partially fillable seller of A crosses it and every crossing one still offers all it asks for after the reported trades |
| CounterOrders.CountersSellTheOrderOut | crates/oxdex-matching/src/lib.rs:141-341 | a partially fillable seller of A listed with more counter-orders than there is A on offer is sold out |
| Market.AtMostOneTradePerEntry | crates/oxdex-matching/src/lib.rs:277-325 | an order gets at most as many trades as it has entries |
| Market.ArrivalOrderOnlyBreaksTies | crates/oxdex-matching/src/lib.rs:141-341 | two lists make the same book if and only if they agree on the arrival order inside every price level of a side, and then the outcome is the same |
| Market.DistinctPricesForgetArrivalOrder | crates/oxdex-matching/src/lib.rs:141-341 | with pairwise different limits any permutation gives the same outcome |
| Batches.GroupsMeet | crates/oxdex-matching/src/lib.rs:81-87 | both directions of a market meet in one group and the skip branch is never taken |
| Batches.ScheduleDoesNotMatter | crates/oxdex-matching/src/lib.rs:92-113 | merging the pairs in any order gives the same totals |
| Batches.MatchBatch | crates/oxdex-matching/src/lib.rs:75-122 | trades and prices are those of all markets, and the score is the saturated sum of all per-order surpluses |
| BatchProperties.BatchTradesAreFair | crates/oxdex-matching/src/lib.rs:75-122 | every trade of a batch is of a batch order and honours it |
| BatchProperties.BatchTradesPerOrder | crates/oxdex-matching/src/lib.rs:75-122 | an order gets at most as many trades as it has entries in the batch, however trades are listed |
| BatchProperties.PairLocality | crates/oxdex-matching/src/lib.rs:91-103 | a batch reports for a pair exactly the trades of that pair's market alone |
| BatchProperties.OtherPairsDoNotInterfere | crates/oxdex-matching/src/lib.rs:91-103 | adding orders on other pairs leaves a pair's trades, clearing prices and surplus unchanged |
| BatchProperties.BatchForgetsArrivalOrder | crates/oxdex-matching/src/lib.rs:75-122 | without price ties every permutation of a batch gives the same totals |
| BatchProperties.GroupsPartitionTheBatch | crates/oxdex-matching/src/lib.rs:81-87 | the group sizes add up to the batch size |
| BatchProperties.SmallBatchesAreExact | crates/oxdex-matching/src/lib.rs:75-122 | small batches report what unbounded arithmetic would, and the score is the exact surplus sum |
| MarketReports.ScoreIsTheGain | crates/oxdex-matching/src/lib.rs:105-113 | however a batch lists its trades, its surplus is what they bring beyond their limits, unless a trade was clamped |
| MarketReports.ClearingPricesAreOfTradedPairs | crates/oxdex-matching/src/lib.rs:105-113 | every reported price is of a token of an order that trades in the batch |
| MarketReports.BatchTradesPayAClearingPrice | crates/oxdex-matching/src/lib.rs:105-113 | every trade of a batch is paid at a price the batch reports for the token it buys |
| MarketReports.TwoPricesPerTradingMarket | crates/oxdex-matching/src/lib.rs:105-113 | a batch reports two prices for every market that trades, and no more |
| Witnesses.TokenAIsOverDelivered | crates/oxdex-matching/src/lib.rs:407-432 | 100 A sold, 114 A bought |
| Witnesses.TokenBIsOverDelivered | crates/oxdex-matching/src/lib.rs:206-230 | three orders for which 1 B is sold and 2n + 1 B bought, for every n |
| Witnesses.SellerOfBCanMissItsLimit | crates/oxdex-matching/src/lib.rs:271-316 | near 2^64 an order receives less than its limit |
| Witnesses.TiesAreBrokenByArrival | crates/oxdex-matching/src/lib.rs:163-169 | permuting two equally priced orders changes who trades |
| Repository.InMemoryOrderRepository.Insert | crates/oxdex-storage/src/memory.rs:39-65 | stores a fresh open unfilled record and no other, is idempotent on the same signed order, rejects another signature |
| Repository.InMemoryOrderRepository.ListOpen | crates/oxdex-storage/src/memory.rs:74-88 | lists each open record that sells and buys the given mints, exactly once |
| Repository.InMemoryOrderRepository.UpdateStatus | crates/oxdex-storage/src/memory.rs:90-107 | overwrites the status unconditionally, the fills only when given, and no other field or record |
| Repository.InMemoryOrderRepository.Cancel | crates/oxdex-storage/src/memory.rs:109-120 | an open order named by its owner becomes cancelled and nothing else changes; another owner or status changes nothing and gets false; NotFound otherwise |
| Repository.InMemoryOrderRepository.ExpireDue | crates/oxdex-storage/src/memory.rs:122-132 | open orders whose validity ends at or before now become expired, every other record is untouched, and the count is that of the expired |
| Auction.BestIsTheWinner | crates/oxdex-auctioneer/src/lib.rs:137-154 | the winner has the maximum score among successes and arrived first with it; none if and only if all failed |
| Auction.ReferenceMatcherIsSound | crates/oxdex-solver/src/lib.rs:50-65 | every answer of the reference solver is sound for its batch |
| Auction.StepKeepsInv | crates/oxdex-auctioneer/src/lib.rs:91-176 | every step of every interleaving keeps the auction invariant and only evolves the store |
| Auction.RepositoryStaysConsistent | crates/oxdex-storage/src/memory.rs:39-132 | in every reachable state keys are order ids, orders not auctioned are unfilled, fills stay within the signed amount |
| Auction.RunKeepsInv | crates/oxdex-auctioneer/src/lib.rs:70-176 | over whole runs no record disappears, signed orders never change, no order returns to Open |
| Auction.DeliveredAtMostOnce | crates/oxdex-auctioneer/src/lib.rs:70-176 | over every interleaving no order id appears in two delivered trades |
| Auction.NeverOversold | crates/oxdex-auctioneer/src/lib.rs:70-176 | over a whole run no order sells more than it signed for, and fill-or-kill orders sell all or nothing |
| Auction.DeliveredTradesRespectLimits | crates/oxdex-auctioneer/src/lib.rs:70-176 | over a whole run every delivered trade respects its signed limit when stored amounts are below 2^63 |
| Auction.BooksAgree | crates/oxdex-auctioneer/src/lib.rs:101-174 | between rounds of any run an order is auctioned if and only if it was delivered, and its recorded fills are what its deliveries sold and bought |
| Histories.StoredOrdersWereSubmitted | crates/oxdex-types/src/order.rs:122-141 | over a whole run every stored order was submitted, with positive amounts of two different mints and before its time was up |
| Histories.StatusTellsTheHistory | crates/oxdex-storage/src/memory.rs:90-132 | over any run an order ends auctioned if and only if it was marked, otherwise cancelled if and only if its owner was the first to touch it, expired if and only if a sweep at or past its time was, open if and only if nothing touched it |
| Auction.CancelOutsideRoundIsFinal | crates/oxdex-storage/src/memory.rs:90-120 | a cancelled order that no round under way has read stays cancelled and is never delivered |
| Auction.CancellationIsFinalIff | crates/oxdex-auctioneer/src/lib.rs:101-170 | with arbitrary sound solvers, a cancellation is final over all continuations if and only if the order is not in the round under way |
| AuctionWitnesses.CancelledWhileListed | crates/oxdex-auctioneer/src/lib.rs:101-174 | a run from the empty repository, raced by the reference matcher alone, that delivers an order cancelled while the round lists it |
| AuctionWitnesses.CancelledAfterTheRace | crates/oxdex-auctioneer/src/lib.rs:137-174 | the same for an order cancelled between the race and its marking |
| ReferenceOverwrites.ReferenceCancellationIsFinalIff | crates/oxdex-auctioneer/src/lib.rs:91-174 | with the reference matcher as the only solver, the cancellation of a partially fillable seller of the smaller mint is final if and only if the order is not in the round under way |
| Auctioneers.Auctioneer.RaceSolvers | crates/oxdex-auctioneer/src/lib.rs:125-148 | for arbitrary results in every arrival order, the kept answer has the maximum score and arrived first with it, and never scores below the reference solver if that is in time |
| Auctioneers.Auctioneer.Serve | crates/oxdex-intent-pool/src/handlers.rs:48-66 | submissions reach the repository only if they validate and their signature verifies, cancellations always |
| ApiCalls.StoredIffPlaced | crates/oxdex-intent-pool/src/handlers.rs:48-66 | after any calls an order is stored if and only if it was before or a call placed it, well-formed, not expired and verified |
| ApiCalls.CancelledIffWithdrawn | crates/oxdex-storage/src/memory.rs:109-120 | calls leave a stored order as it was, unless it was open and its owner withdrew it; then it is cancelled |
| ApiCalls.PlacedThenWithdrawn | crates/oxdex-intent-pool/src/handlers.rs:48-66 | a new order is stored as its first placing call signed it, unfilled, and open unless its owner withdrew it afterwards |
| Auctioneers.Auctioneer.RunOneAuction | crates/oxdex-auctioneer/src/lib.rs:91-176 | the round seals the open orders under its tick's id and time, all good past the sweep or placed since, marks and delivers the best of arbitrary answers, or nothing if there is none; with sound answers the round is a run of the step system |
| Auctioneers.Auctioneer.Run | crates/oxdex-auctioneer/src/lib.rs:70-88 | between consecutive ticks the calls are served and the effect of a whole round follows; the sink grows by exactly the winners, in order; with sound answers the invariant is kept, so no order is delivered twice |
| Rounds.SweepIsARun | crates/oxdex-storage/src/memory.rs:122-132 | a whole expiry sweep is a run of single-entry steps |
| Rounds.SealedBatchIsFresh | crates/oxdex-auctioneer/src/lib.rs:101-120 | every order of a sealed batch is valid past the time of the sweep, unless it was placed between the sweep and the listing |
| Rounds.WinnersTradeFreshOrders | crates/oxdex-auctioneer/src/lib.rs:101-174 | with sound answers a round delivers trades only of orders of its batch, none of them expired at the sweep |
| Rounds.LastTradeIsRecorded | crates/oxdex-auctioneer/src/lib.rs:156-172 | whatever calls land between the marks, a traded order ends auctioned with the amounts of its trade |
| Rounds.UntradedStaysUnmarked | crates/oxdex-auctioneer/src/lib.rs:156-172 | marking changes no order without a trade, except one that is open and withdrawn by its owner meanwhile, which is cancelled |
| Rounds.RoundsDeliverTheWinners | crates/oxdex-auctioneer/src/lib.rs:70-88 | over any number of rounds the sink receives exactly the winners, in order |

## Left out

- The HTTP server, metrics, tracing and configuration: plumbing. A submission enters the step system once `Order::validate` accepts it.
- The Postgres repository: its SQL runs in a foreign engine. Nothing here says it behaves like the in-memory one.
- Signatures, hashing and encodings: ids are idealised as injective, and whether a signature verifies is an opaque fact of each submission.
- Timers, timeouts and threads: a solver answers or fails, results arrive in any order, pairs finish in any order. The parallel and the serial branch of `match_batch` are one method.
- Auctioneers.Auctioneer.Run: API calls land between the repository calls of a round; calls that land inside a sweep or a listing are covered by the step system, not by the method.
- The Jito client and the on-chain settlement program: delivery appends to a history.
- `Solution::price_of` and one price per mint: a mint traded in several pairs has several prices.
- The sort itself is the standard library's; it is specified as a stable sort, which is unique, and not modelled step by step.
- Record timestamps come from a parameter; one repository call uses one reading of the clock, and a submission is validated and stored at the same reading.
- Conservation of one given book: the exact conditions on the orders are over all books with the given offers; whether a particular book balances also depends on how its amounts meet.
- Uniform offers where one seller of A cannot fill one of B: the narrow spread still conserves token A there, but is not shown necessary.
- Cancellation under the reference matcher alone, for fill-or-kill orders and for sellers of the larger mint: only the condition that covers arbitrary sound solvers is shown for them.
- MatchPair.MatchPair: the intermediate lists of borrowed orders are plain sequences; the two buffers of remaining amounts are arrays updated in place, as in the program.
