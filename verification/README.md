# A verified model of the AtomicDEX wallet core

This project models, in Dafny 4.11, the parts of the AtomicDEX API (a Rust wallet and DEX node) that keep
state or convert data in ways that are easy to get wrong, and proves what they are for.

- `UtxoLedger`, `RecentlySpent`, `SenderProtocol`: the cache of recently spent outputs. A simple ledger of
  the wallet's coins is the reference; the two maps of the cache are proved to be its ancestry relation, the
  rewrite of a stale unspent list is proved to yield the ledger's unspent set, and senders that share the
  cache under its guard are proved never to spend an output twice.
- `EthSwap`: the hash-time-locked payments: building, validating, spending, refunding, the watcher's calls
  and the secret. `EthAmounts` and `EthChecksum`: the string code behind amounts and addresses. `EthRewards`:
  the rewards both sides estimate from the gas price.
- `EthLogSearch`, `EthHistory`, `EthNonce`: the chunked event search, the history loop with its two block
  cursors, and nonces under the shared lock. `Blocks` holds what the first two share.
- `NftList`: the NFT list that follows ERC-721 and ERC-1155 transfers.
- `CoinsRegistry`, `TxHistory`: the registry of activated coins, the order of the saved history, its pages.
- `KmdInterest`, `HdAddresses`, `RepeatedCharacters`: reward arithmetic, address generation, and the check
  for repeated characters.

Objects whose methods update fields are classes; each of their methods states the new value of the fields
as a function of the old one, and the lemmas are about those functions. Loops over hash sets pick elements
in any order, so their contracts hold for every iteration order. Failures of the network, the storage and
the nodes are parameters or steps that may happen at any point. Integers are unbounded; where a width
matters (256-bit amounts, 64-bit rewards, 32-bit output indices, the address limit) it is written out.
`dafny verify dfyconfig.toml` checks everything.

## Assumptions

- Transaction hashes are new; a coin is identified by outpoint and value. A broadcast that reports failure
  leaves no transaction. The network is not assumed to reject double spends.
- Decoding a contract call after the selector check is the inverse of encoding. Encoding accepts fixed bytes
  that are shorter than declared and pads them on the right, and distinct contract functions have distinct
  selectors. Adding 256-bit numbers and reading 64 bits of one abort on overflow.
- `EthSwap` is proved for every conversion of decimal amounts; the actual one is `EthAmounts`.
- A big decimal prints as sign, integer digits and, if there are any, a point and the fraction digits.
- The division of a gas cost by a token price is an arbitrary function of the two amounts.
- The 5 % margins of a reward, which the code computes in floating point, are rational floors.
- Hash functions (`sha256` behind the swap id, RIPEMD-160, Keccak-256, the hash of a trace) are arbitrary
  functions of their input. Only the lengths of their results are fixed.
- The highest nonce over the answering nodes never goes down. Traces of a block do not change.
- NFT metadata is answered for the token that was asked for, and the history table is in chain order.
- The hexadecimal parser behind `addr_from_str`, which is a library's, accepts exactly forty hexadecimal
  digits of any case. `AcceptedTextIsUnique` rests on this.
- During one search the chain and the failures of the node do not change. Only a search with a range of zero
  asks the same question twice; a later failure would end it too.

## Where the code differs from what one might expect

- `HonestPaymentIsAcceptedIff`: for ETH the sender adds a reward whose target is the payment receiver to the
  value, the receiver does not expect it there; no reward that the code creates has that target. A payment
  with a reward is also refused by a receiver who expects none, and the other way round.
- `AcceptanceFixesTheAmountIff`: the receiver compares the token amount of an ERC-20 payment only when there
  is a reward; without one, any amount is accepted.
- `AttachedReward`: a taker who pays in a token attaches the watcher reward in wei, but the amount, estimated in
  ETH, is converted with the decimals of the token. It covers the cost of the gas exactly if the token has the
  decimals of ETH; with six decimals at 30 gwei 2100 wei are attached instead of 2.1 * 10^15
  (`SixDecimalsAreTooFew`).
- `AcceptedIffQuotientsAreClose`: for a maker's payment in a token against a coin other than ETH each side divides
  by a token price it fetches itself, so sides that see the same gas price can still disagree
  (`DifferentTokenPricesAreRefused`).
- `FinishedDownloadIsCompleteIff`: a history download that begins at a head that is a multiple of 1001 never asks
  for block 0 (`BeginAtBlock1001`).
- `ListStaysInSyncIff`: EIP-1155 allows transfers of zero tokens; such a transfer of an unlisted token leaves
  an entry with amount zero, or is an error (`EmptyTransfersBreakTheList`).
- `GenerateNewAddress`: the new number of addresses has to stay below the limit, so the last index below the
  limit is never used.
- `ChunkedFindingIsExactIff`: if a payment was refunded and spent later, a window that ends between the two
  makes the chunked search answer with the refund, whereas one query over all blocks answers with the spend.
- `SearchEndsIff`: with a configured range of zero blocks the search never ends, unless there is a single
  window or the first one already gives an answer (`ZeroRangeNeverEnds`).
- `StopIsTheLeastConstantTimeIff`: from the Season 7 height on the reward of some values, such as ten KMD,
  stops growing before the reported stop time.
- `RegisteredIsConsistentIff`: a coin is registered under a ticker that is passed separately; under another
  ticker than its own it makes the registry inconsistent (`ForeignTickerIsInconsistent`).
- `SavedHistoryIsOrderIndependentIff`: entries that share height and id but differ otherwise may be saved in
  either order.

## Model

| member | source | states |
|---|---|---|
| UtxoLedger.UnspentAndSpentPartitionEver | mm2src/coins/utxo.rs:314-324 | in every valid history the coins ever owned are the disjoint union of the unspent and the spent ones, one coin per outpoint |
| UtxoLedger.AncestorsAreSpendChains | mm2src/coins/utxo.rs:318-321 | the recursive ancestor sets are exactly reachability along chains of own transactions |
| UtxoLedger.EveryCoinComesFromTheSnapshot | mm2src/coins/utxo.rs:314-316 | a coin unspent now was unspent at an earlier point or descends from a coin that was, if no outside funds arrived in between |
| UtxoLedger.ValidHistoryNeverDoubleSpends | mm2src/coins/utxo.rs:314-316 | in a valid history no outpoint is an input of two transactions |
| RecentlySpent.OwnOutputsAreExact | mm2src/coins/utxo.rs:337-353 | a coin is recorded exactly if it is the output of its index, with its value, and pays to the wallet's script |
| RecentlySpent.RecentlySpentOutPoints.constructor | mm2src/coins/utxo.rs:327-333 | both maps start empty |
| RecentlySpent.RecentlySpentOutPoints.AddSpent | mm2src/coins/utxo.rs:335-381 | for every iteration order of the hash sets the two maps become the order-free `AfterSpend` of the old ones, and stay those of the recorded transactions |
| RecentlySpent.SpendUpdatesTheMaps | mm2src/coins/utxo.rs:335-381 | for any cache: the inputs map to exactly the new coins, the new coins back to the inputs and what those replaced; another spent coin trades the inputs that replaced it for the new coins; nothing else changes |
| RecentlySpent.RecentlySpentOutPoints.ReplaceInChains | mm2src/coins/utxo.rs:355-370 | the nested loops replace the spent inputs by the new outputs in exactly the chains they belong to, and collect exactly the recorded ancestors |
| RecentlySpent.CacheIsExactAncestry | mm2src/coins/utxo.rs:335-381 | over every valid history a spent coin maps to exactly its still unspent descendants and an output to exactly its ancestors |
| RecentlySpent.CacheMapsAreInverse | mm2src/coins/utxo.rs:318-321 | the two maps are inverse to each other on unspent coins and no replacement is itself a key |
| RecentlySpent.RecentlySpentOutPoints.ReplaceSpentOutputsWithCache | mm2src/coins/utxo.rs:383-404 | terminates whenever the recorded transactions are causal, also when inputs were spent again, and returns exactly the unspent entries of the list, unchanged, and the final replacements of the others, without height |
| RecentlySpent.RoundKeepsListRewrite | mm2src/coins/utxo.rs:399-403 | a round does not change which entries the list is rewritten to |
| RecentlySpent.ListRewriteIsRewrite | mm2src/coins/utxo.rs:383-404 | apart from heights a rewritten list is the rewrite of its coins |
| RecentlySpent.RecentlySpentOutPoints.RetainUnspent | mm2src/coins/utxo.rs:384-398 | one round keeps exactly the entries that are not keys and collects exactly the replacements of the others |
| RecentlySpent.CausalHistoriesAreRanked | mm2src/coins/utxo.rs:383-404 | every replacement was created after the coin it replaces, which bounds the recursion |
| RecentlySpent.ValidHistoriesAreCausal | mm2src/coins/utxo.rs:383-404 | valid histories meet the condition under which the rewrite terminates |
| RecentlySpent.RoundKeepsRewrite | mm2src/coins/utxo.rs:399-403 | a round does not change which final coins the list stands for |
| RecentlySpent.OneRoundIsEnough | mm2src/coins/utxo.rs:399-403 | if no replacement is a key, one round gives the final list and a second finds nothing |
| RecentlySpent.ValidHistoriesNeedOneRound | mm2src/coins/utxo.rs:383-404 | the cache of a valid history rewrites any list in one effective round |
| RecentlySpent.RewriteIsUnspent | mm2src/coins/utxo.rs:314-316 | whatever mixture of once-owned coins is listed, the rewrite contains only currently unspent coins |
| RecentlySpent.RewriteIsExact | mm2src/coins/utxo.rs:314-316 | the unspent list of any earlier point is rewritten to exactly the current one if no outside funds arrived since |
| SenderProtocol.NextKeepsInv | mm2src/coins/utxo.rs:1768-1833 | every step of every sender keeps the cache equal to the history's, up to the pending transaction of the guard holder, and its view unspent |
| SenderProtocol.NoRunDoubleSpends | mm2src/coins/utxo.rs:1768-1833 | in every interleaving of senders with arbitrarily stale lists no outpoint is an input of two broadcast transactions |
| SenderProtocol.ViewsAreExact | mm2src/coins/utxo/utxo_common.rs:4116-4132 | a sender whose list was complete at some point works on exactly the unspent coins when it takes the guard, if no outside funds arrived since |
| EthSwap.Encode | mm2src/coins/eth.rs:3026-3053 | fails on wrong arguments, keeps well-typed ones and pads short fixed bytes |
| EthSwap.DecodeInvertsEncode | mm2src/coins/eth.rs:5091-5107 | decoding succeeds on the encoded call of the same function only, gives well-typed arguments back and encodes to the same call again |
| EthSwap.TakerWatcherReward | mm2src/coins/eth.rs:1722-1750 | a given amount is exact, otherwise an estimate is needed; the reward never goes to the payment receiver |
| EthSwap.MakerWatcherReward | mm2src/coins/eth.rs:1752-1799 | the same for the maker's payment |
| EthSwap.CreatedRewards | mm2src/coins/eth.rs:1722-1799 | target, contract code and flag of the taker's and the maker's reward, against ETH and against other coins |
| EthSwap.RewardLowerBoundary | mm2src/coins/watcher_common.rs:32-32 | the bound is five percent below the reward, rounded down |
| EthSwap.RewardUpperBoundary | mm2src/coins/watcher_common.rs:34-34 | the bound is five percent above the reward, rounded down, at most the largest 64-bit number |
| EthSwap.WatcherRewardIsValidIff | mm2src/coins/watcher_common.rs:7-34 | a paid reward is valid exactly if it is the expected one, or, without an exact amount, at most five percent away from it |
| EthSwap.HonestRewardIsAcceptedIff | mm2src/coins/eth.rs:3951-3985 | the receiver takes a paid reward exactly if target, flag and amount match his own, whichever amounts the two sides had in mind |
| EthSwap.BuiltEthPayment | mm2src/coins/eth.rs:3018-3054 | the arguments of a built ETH payment are the given ones, with the hash padded to 20 bytes |
| EthSwap.BuiltErc20Payment | mm2src/coins/eth.rs:3056-3104 | the same for an ERC-20 payment, with the reward in the token amount for the spender target only |
| EthSwap.PaymentIsBuiltIff | mm2src/coins/eth.rs:3002-3104 | a payment is built exactly when the addresses are valid, the amounts can be converted and added in 256 bits, and the hash is no longer than 20 bytes or has 32 |
| EthSwap.BuiltPaymentIsSentToTheContract | mm2src/coins/eth.rs:3002-3104 | the payment is sent by the payer to the agreed contract, with the function of its coin type |
| EthSwap.BuiltEthPaymentCarries | mm2src/coins/eth.rs:3018-3054 | the value is the trade amount plus the reward, for every target but none, and the reward arguments are target, flag and amount |
| EthSwap.BuiltErc20PaymentCarries | mm2src/coins/eth.rs:3056-3104 | the tokens are the trade amount plus the reward exactly for the spender target, the value is the reward exactly for the contract and sender targets |
| EthSwap.HashOfThePayment | mm2src/coins/eth.rs:3011-3015 | a 20-byte hash is used as it is, a 32-byte one shortened; no other length gives 20 bytes |
| EthSwap.HonestPaymentIsAcceptedIff | mm2src/coins/eth.rs:3855-4110 | an honestly built payment is accepted exactly when its hash has 20 bytes, its reward is one the receiver takes, and both sides treat the target alike; the two sides may expect different rewards |
| EthSwap.SwapPaymentIsAcceptedIff | mm2src/coins/eth.rs:1722-1799 | for the rewards that the two sides compute themselves, given or estimated, acceptance depends on the hash length and the two amounts alone |
| EthRewards.EstimateInUnits | mm2src/coins/eth.rs:4230-4241 | for every number of decimals, an estimate in ETH becomes its cost in wei divided or multiplied by the power of ten between the decimals, or is too large |
| EthRewards.EstimateIsMadeIff | mm2src/coins/eth.rs:1764-1788 | an estimate is made exactly if the cost fits into 256 bits and a price other than zero is known where it is divided |
| EthRewards.AttachedReward | mm2src/coins/eth.rs:3056-3095 | the value of a taker's token payment is that rescaled cost, which is the cost exactly if the token has the decimals of ETH or the gas is free |
| EthRewards.SixDecimalsAreTooFew | mm2src/coins/eth.rs:3056-3095 | with six decimals at 30 gwei the payment is built with 2100 wei instead of 2.1 * 10^15 |
| EthRewards.AcceptedIffEstimatesAreClose | mm2src/coins/eth.rs:3951-4104 | however the two sides estimate, the payment is accepted exactly when the sender's estimate is within five percent of the receiver's in units of the coin, both fit into 64 bits and the hash has 20 bytes |
| EthRewards.AcceptedIffGasCostsAreClose | mm2src/coins/eth.rs:1722-1799 | unless the cost is divided by a price, for coins of any decimals, only the two rescaled gas costs count |
| EthRewards.EqualGasPricesAreAccepted | mm2src/coins/eth.rs:1722-1750 | a taker's token payment is built and accepted if both sides see the same gas price and the rescaled cost fits into 64 bits |
| EthRewards.AcceptedIffQuotientsAreClose | mm2src/coins/eth.rs:1764-1788 | for a maker's token payment against a coin other than ETH the quotients of gas cost and own token price count |
| EthRewards.DifferentTokenPricesAreRefused | mm2src/coins/eth.rs:1764-1788 | with equal gas prices such a payment is refused if the sender's token price doubles the reward |
| EthRewards.AcceptedIffGasPricesAreClose | mm2src/coins/watcher_common.rs:4-34 | without such a division, in a coin with the decimals of ETH, the payment is accepted exactly when the sender's gas price is within five percent of the receiver's, both costs fit into 64 bits and the hash has 20 bytes |
| EthSwap.AcceptedPaymentIsTheAgreedOne | mm2src/coins/eth.rs:3878-4049 | acceptance fixes state, contract, token, sender, receiver, swap id, hash and lock time |
| EthSwap.AcceptedAmountIsTheAgreedOne | mm2src/coins/eth.rs:3951-4104 | acceptance of an ETH payment or of any payment with a reward fixes the amount, and bounds the reward by the margins |
| EthSwap.AcceptedPaymentCarries | mm2src/coins/eth.rs:3951-4104 | value and tokens of an accepted payment, target by target, in terms of the trade amount and the reward paid |
| EthSwap.AcceptanceIgnoresTheTokenAmountWithoutReward | mm2src/coins/eth.rs:4051-4104 | an ERC-20 payment without a reward is judged the same with any other token amount |
| EthSwap.AcceptanceFixesTheAmountIff | mm2src/coins/eth.rs:3951-4104 | all accepted payments with the same terms and reward have the same amount exactly if the coin is ETH or there is a reward |
| EthSwap.AcceptedPaymentCanBeClaimed | mm2src/coins/eth.rs:3379-3494 | the receiver's spend of an accepted payment claims the paid tuple and reveals the secret |
| EthSwap.SpendReconstructsThePayment | mm2src/coins/eth.rs:3379-3494 | from the payment alone the spend call names exactly the tuple that was paid in |
| EthSwap.RefundReconstructsThePayment | mm2src/coins/eth.rs:3496-3612 | from the payment alone the refund call names exactly the tuple, hash included, that was paid in |
| EthSwap.CallsNeedTheSentState | mm2src/coins/eth.rs:3379-3612 | spends and refunds are made only in the sent state, by the caller, to the contract and without value |
| EthSwap.WatcherCallsAreTheTakersOwn | mm2src/coins/eth.rs:3143-3377 | the watcher's spend and refund calls equal the taker's own argument for argument and succeed exactly when they do |
| EthSwap.WatcherCallsNeedTheSentState | mm2src/coins/eth.rs:3143-3377 | the watcher's calls too; they go to the contract that the payment called |
| EthSwap.WatcherNeedsAReward | mm2src/coins/eth.rs:3143-3257 | a watcher cannot spend a payment without reward parameters |
| EthSwap.SecretComesBackIff | mm2src/coins/eth.rs:1235-1268 | the secret extracted from a spend is the one put in exactly when it has 32 bytes |
| EthAmounts.ToDigits | mm2src/coins/eth.rs:4921-4921 | the digits of a number denote that number |
| EthAmounts.TrimStopsAtThePoint | mm2src/coins/eth.rs:4927-4928 | trimming removes all zeros at the end of the fraction and nothing else |
| EthAmounts.U256ToBigDecimalIsExact | mm2src/coins/eth.rs:4920-4934 | the pad, insert and trim code yields exactly number divided by ten to the decimals, with no more fraction digits than needed |
| EthAmounts.FloorScaledIsTheFloor | mm2src/coins/eth.rs:4936-4955 | the reference value is the largest integer not above amount times ten to the decimals, for scales of either sign |
| EthAmounts.WeiIsTheFloor | mm2src/coins/eth.rs:4936-4955 | the split, pad and truncate code yields that floor, and an error exactly for negative amounts and results of 2^256 and above |
| EthAmounts.WeiRoundTrip | mm2src/coins/eth.rs:4920-4955 | every 256-bit amount survives the trip to a decimal and back, for every number of decimals |
| EthChecksum.MaskIsSet | mm2src/coins/eth.rs:5285-5285 | the mask of the code tests bit 4i of the hash as in the specification of EIP-55 |
| EthChecksum.ChecksumAddress | mm2src/coins/eth.rs:5267-5294 | the loop produces the specified mixed-case form |
| EthChecksum.ChecksumKeepsDigits | mm2src/coins/eth.rs:5267-5294 | checksumming changes only the case and adds the prefix |
| EthChecksum.ChecksumLetters | mm2src/coins/eth.rs:5278-5292 | decimal digits stay, and a letter is upper-case exactly if its bit is set |
| EthChecksum.ChecksumIgnoresCase | mm2src/coins/eth.rs:5268-5271 | two texts have the same checksum form exactly if they are the same digits in any case |
| EthChecksum.ChecksumIsIdempotent | mm2src/coins/eth.rs:5300-5302 | checksumming twice is checksumming once, and the result is always valid |
| EthChecksum.ChecksumParsesBack | mm2src/coins/eth.rs:5065-5079 | the checksum form is accepted and parses to the address it was made from |
| EthChecksum.AcceptedIff | mm2src/coins/eth.rs:5065-5079 | a text is accepted exactly if it is an address in its own checksum form, and then yields the number its digits denote |
| EthChecksum.AddressValueIsPositional | mm2src/coins/eth.rs:5073-5079 | the digits are read as an ordinary hexadecimal number |
| EthChecksum.AcceptedTextIsUnique | mm2src/coins/eth.rs:5065-5079 | two accepted texts of one address are equal |
| Blocks.SplitBlocks | mm2src/coins/eth.rs:669-684 | what a range of blocks contains is what its two parts contain |
| Blocks.OneBlock | mm2src/coins/eth.rs:669-684 | a range of one block contains that block, an empty range nothing |
| EthLogSearch.OverlappingWindows | mm2src/coins/eth.rs:4166-4223 | two windows that share a block find what one query over both finds |
| EthLogSearch.FindInIff | mm2src/coins/eth.rs:4169-4174 | a query finds the first event in log order with the searched id, and nothing exactly if no event of the blocks has it |
| EthLogSearch.WindowsAreChained | mm2src/coins/eth.rs:4167-4223 | every window but the last is exactly as large as the range allows, the last no larger, and each starts where the one before ended |
| EthLogSearch.WindowsCoverTheRange | mm2src/coins/eth.rs:4167-4223 | for every range of at least one block the windows cover exactly the blocks from the start to the head |
| EthLogSearch.SearchEndsIff | mm2src/coins/eth.rs:4166-4228 | the loop ends exactly if the range is at least one block, or there is a single window, or the first window gives an answer |
| EthLogSearch.ZeroRangeNeverEnds | mm2src/coins/eth.rs:4166-4228 | without events a search of two blocks in windows of range zero stays at its first window after any number of iterations |
| EthLogSearch.SearchForSwapTxSpend | mm2src/coins/eth.rs:4136-4228 | a spend or refund is answered only for the first event with this id and with an existing transaction, nothing found only if no block has one; it is the answer of one query over the whole range exactly unless a refund wins; an error exactly if a request of the windows asked for failed |
| EthLogSearch.SearchWindows | mm2src/coins/eth.rs:4166-4228 | the loop computes the chunked answer |
| EthLogSearch.ChunkedAnswersTheFinding | mm2src/coins/eth.rs:4169-4221 | unless a request fails the answer is that to the first window with an event |
| EthLogSearch.ChunkedFindingIsFirst | mm2src/coins/eth.rs:4166-4228 | what the windows find is the first event of its kind in the whole range |
| EthLogSearch.WindowFailsIff | mm2src/coins/eth.rs:4169-4218 | a window ends with an error exactly if a request it needs fails: the spends, the refunds if there is no spend, or the transaction of the event |
| EthLogSearch.ChunkedFindingIsExactIff | mm2src/coins/eth.rs:4166-4228 | the windows find what one query finds, exactly unless up to the end of a window there is only a refund and a spend follows; then they find the refund |
| EthLogSearch.RangeDoesNotMatterIff | mm2src/coins/eth.rs:4166-4228 | all ranges find the same exactly if no block after the first separates a refund from a later first spend |
| EthLogSearch.RangeMattersIfSettledTwice | mm2src/coins/eth.rs:4166-4228 | a refund in block 0 and a spend in block 2 are answered differently with ranges 1 and 2 |
| EthLogSearch.SettledOnceIsEnough | mm2src/coins/eth.rs:4166-4228 | for a contract that settles a payment once no refund wins, so the range does not matter |
| EthLogSearch.CheckIfMyPaymentSent | mm2src/coins/eth.rs:1136-1197 | whenever the loop ends, the payment answered is that of the first event with this id, for every chunk size; an error exactly if a request of the windows asked for failed |
| EthHistory.PrependWindow | mm2src/coins/eth.rs:2300-2366 | the window before the cursor joins the saved traces without gap or overlap |
| EthHistory.AppendWindow | mm2src/coins/eth.rs:2368-2424 | the window after the latest block joins them without gap or overlap |
| EthHistory.StepDown | mm2src/coins/eth.rs:2300-2361 | the first block fetched is the one after the cursor, and at the end block 0 unless the first head is a multiple of 1001 |
| EthHistory.FinishedDownloadIsCompleteIff | mm2src/coins/eth.rs:2300-2361 | a finished download has the traces of all blocks exactly if the first head was no multiple of 1001 or block 0 has none |
| EthHistory.BeginAtBlock1001 | mm2src/coins/eth.rs:2300-2361 | a download that begins at block 1001 is finished without the traces of block 0 |
| EthHistory.HistorySync.FetchBefore | mm2src/coins/eth.rs:2300-2366 | moves the earliest block by the window size or to zero, and only if both queries succeed |
| EthHistory.HistorySync.FetchAfter | mm2src/coins/eth.rs:2368-2424 | moves the latest block to the head, and only if both queries succeed |
| EthHistory.HistorySync.AddToHistory | mm2src/coins/eth.rs:2425-2580 | adds exactly calls whose details are available, each once, keeps every saved id in whatever order the file is written, and stops early exactly if something is left that cannot be written |
| EthHistory.HistorySync.Iterate | mm2src/coins/eth.rs:2248-2597 | an iteration keeps the saved traces equal to those of the fetched blocks, once per direction, and strictly lowers the earliest block until zero when the backward queries succeed |
| EthHistory.HistorySync.ProcessEthHistory | mm2src/coins/eth.rs:2240-2597 | any number of iterations with any failures and restarts keeps cursors, traces and ids consistent |
| EthNonce.GetAddrNonce | mm2src/coins/eth.rs:5307-5365 | returns the highest reported nonce with exactly the nodes that reported it, at least one, and gives up after six rounds in which all failed |
| EthNonce.ReportingIsExact | mm2src/coins/eth.rs:5347-5359 | the chosen nodes are those that reported the nonce and no others |
| EthNonce.ReportingKeepsTheOrder | mm2src/coins/eth.rs:5347-5359 | they come in the order of the nodes, each position once |
| EthNonce.AnsweringRound | mm2src/coins/eth.rs:5307-5345 | the round used is the first in which a node answered |
| EthNonce.NextKeepsInv | mm2src/coins/eth.rs:2138-2184 | every step under the shared lock keeps earlier nonces below what is read next |
| EthNonce.SuccessfulSendsUseIncreasingNonces | mm2src/coins/eth.rs:2132-2184 | in every run of any number of coins the nonces of successful sends strictly increase |
| NftList.NftListStorage.UpdateNftList | mm2src/coins/nft.rs:491-507 | the loop applies the transfers in order and stops at the first error with the list of the transfers before it |
| NftList.TransferChangesOneToken | mm2src/coins/nft.rs:528-727 | a transfer touches the entry of its token only; an ERC-721 token is listed afterwards exactly if it came to the wallet; an ERC-1155 amount changes by what came from or went to others |
| NftList.TransferFailsIff | mm2src/coins/nft.rs:528-727 | a transfer fails exactly if it sends more than is listed, receives a listed ERC-721 token from somebody else, or lacks metadata, each with its own error |
| NftList.OthersTransfersDoNotMatter | mm2src/coins/nft.rs:488-507 | transfers between others leave the wallet's holdings unchanged |
| NftList.HandlerKeepsSyncIff | mm2src/coins/nft.rs:509-727 | a permitted transfer keeps the list equal to the holdings exactly when its amount is not zero or the token is listed |
| NftList.ListStaysInSyncIff | mm2src/coins/nft.rs:488-727 | over every history valid on chain the handlers never fail and the list equals the holdings after every transfer, exactly if the wallet takes part in transfers of zero tokens only while it holds some |
| NftList.EmptyTransfersBreakTheList | mm2src/coins/nft.rs:613-727 | receiving zero of an unlisted ERC-1155 token leaves an entry of amount zero, sending zero of it is an error |
| NftList.ListEqualsHoldings | mm2src/coins/nft.rs:488-727 | on every such history the list built from the wallet's own transfers ends up equal to the true holdings |
| NftList.BalanceIsConserved | mm2src/coins/nft.rs:613-727 | an ERC-1155 balance is the initial one plus what others sent minus what was sent to others |
| NftList.ListedAmountIsConserved | mm2src/coins/nft.rs:613-727 | the listed amount is that balance, and the token is unlisted exactly at zero |
| CoinsRegistry.RegisteredIsConsistentIff | mm2src/coins/lp_coins.rs:3131-3158 | a registration keeps the two maps consistent exactly when it is refused or the coin is registered under its own ticker |
| CoinsRegistry.RegistrationAddsOneCoin | mm2src/coins/lp_coins.rs:3131-3158 | a registration adds the coin, lists a new platform without tokens and changes nothing else; a refused one changes nothing |
| CoinsRegistry.AddedTokenIsListed | mm2src/coins/lp_coins.rs:2577-2596 | an accepted token is enabled and listed under its platform if that is listed; everything else is unchanged |
| CoinsRegistry.TokenGoesWithItsPlatform | mm2src/coins/lp_coins.rs:2577-2691 | a token added to a listed platform goes when the platform is removed |
| CoinsRegistry.RemovingUndoesAdding | mm2src/coins/lp_coins.rs:2577-2691 | removing a coin undoes its registration and its activation as a token |
| CoinsRegistry.CoinsContext.AddPlatformWithTokens | mm2src/coins/lp_coins.rs:2604-2646 | activates or re-activates a platform with its tokens, refusing an available one |
| CoinsRegistry.CoinsContext.RemoveCoin | mm2src/coins/lp_coins.rs:2654-2691 | removes a token, or a platform with all its listed tokens |
| CoinsRegistry.AvailabilityOnlyOfPlatforms | mm2src/coins/lp_coins.rs:2507-2531 | setting the mode affects one platform coin only, can be undone, and keeps the maps consistent |
| CoinsRegistry.ActivationEnablesEverything | mm2src/coins/lp_coins.rs:2604-2646 | after an activation the platform is available, exactly the old and new tokens are listed and enabled, and no other coin or list has changed |
| CoinsRegistry.RefusedActivationChangesNothing | mm2src/coins/lp_coins.rs:2604-2646 | activating an available platform changes nothing |
| CoinsRegistry.RemovingAPlatform | mm2src/coins/lp_coins.rs:2654-2691 | exactly the platform and its listed tokens go, every other platform keeps its list and its coins |
| CoinsRegistry.RemovingAToken | mm2src/coins/lp_coins.rs:2654-2691 | a removed token leaves both maps and nothing else changes |
| CoinsRegistry.ActivationIsConsistentIff | mm2src/coins/lp_coins.rs:2604-2646 | activation keeps the two maps consistent exactly when it is refused or the tokens belong to the platform |
| CoinsRegistry.RunIsConsistentIff | mm2src/coins/lp_coins.rs:2534-2691 | over every sequence of operations on configured coins the two maps agree after each of them, exactly if each registration and activation is refused or well-formed where it happens |
| CoinsRegistry.EveryRunIsConsistent | mm2src/coins/lp_coins.rs:2534-2691 | a run of well-formed operations is such a run: listed platforms are enabled platform coins and listed tokens are enabled tokens of that platform |
| CoinsRegistry.ForeignTickerIsInconsistent | mm2src/coins/lp_coins.rs:3131-3158 | a platform coin registered under another ticker leaves a listed platform that is not enabled |
| TxHistory.CompareTransactionsIsTheOrder | mm2src/coins/lp_coins.rs:3877-3891 | the comparison is exactly unconfirmed first, then descending height, then byte order of ids |
| TxHistory.CompareTransactionsIsATotalOrder | mm2src/coins/lp_coins.rs:3877-3891 | it is total, transitive, and antisymmetric on height and id |
| TxHistory.SortedFormIsUnique | mm2src/coins/lp_coins.rs:3832-3839 | two sorted arrangements of the same entries are equal if ties are identical |
| TxHistory.SavedHistoryIsOrderIndependentIff | mm2src/coins/lp_coins.rs:3832-3839 | the saved sequence is independent of the input order exactly if entries that tie are identical |
| TxHistory.RequestsWithoutPages | mm2src/coins/lp_coins.rs:3398-3417 | a request fails exactly if it starts from an unknown id; the maximum without a start is the whole history |
| TxHistory.RequestsReturnWhatFollows | mm2src/coins/lp_coins.rs:3398-3417 | a request from an id returns what follows its first entry, as many as the limit or all of them |
| TxHistory.MaximumFromAPage | mm2src/coins/lp_coins.rs:3398-3417 | a page number together with the maximum returns everything from that page on |
| TxHistory.PageHasEntriesIff | mm2src/common/common.rs:882-893 | a page has entries exactly if its number is within the total number of pages, and never more than the limit |
| TxHistory.PagesPartitionTheHistory | mm2src/coins/lp_coins.rs:3398-3417 | pages one to the total number of pages concatenate to exactly the history |
| TxHistory.FromLastIdIsTheNextPage | mm2src/coins/lp_coins.rs:3402-3416 | asking from the last id of a page gives the next page, if ids are distinct |
| KmdInterest.AccruesIff | mm2src/coins/utxo.rs:1578-1644 | a mined output accrues exactly when it is eligible and the start time has come |
| KmdInterest.ReasonIsTheFirstThatApplies | mm2src/coins/utxo.rs:1593-1626 | the reason reported for no reward is the first that applies |
| KmdInterest.InterestIsMonotone | mm2src/coins/utxo.rs:1614-1641 | the reward never shrinks with time |
| KmdInterest.InterestIsConstantFromStop | mm2src/coins/utxo.rs:1646-1656 | from the stop time on the reward is constant |
| KmdInterest.StopIsTheLeastConstantTimeIff | mm2src/coins/utxo.rs:1635-1656 | the stop time is the first time from which the reward is constant exactly below the Season 7 height, and above it for the values whose last minute still pays after the division by 500 |
| KmdInterest.StopIsNotAlwaysTheLeastAfterS7 | mm2src/coins/utxo.rs:1635-1641 | ten KMD at that height are a case where it is constant a minute earlier |
| KmdInterest.LargeOutputsGrowToTheStop | mm2src/coins/utxo.rs:1635-1641 | the last minute pays for every value of at least 52.56 KMD |
| KmdInterest.InterestIsBounded | mm2src/coins/utxo.rs:1614-1644 | the reward is at most a twentieth of the value, no step leaves 64 bits and the result fits a signed number |
| KmdInterest.InterestIsTheYearlyRate | mm2src/coins/utxo.rs:1590-1641 | the reward is five percent a year in proportion to the counted minutes, up to rounding, and a 500th of that from the Season 7 height on |
| KmdInterest.InterestIsExact | mm2src/coins/utxo.rs:1614-1643 | the amount written out: the value by the minutes of twenty years, times the whole minutes less 59 up to the cap, by 500 from Season 7 on |
| KmdInterest.OneMinuteIsPaidAtTheStart | mm2src/coins/utxo.rs:1614-1643 | at the start time exactly one minute is paid |
| KmdInterest.StartIsReportedIffItEverAccrues | mm2src/coins/utxo.rs:1729-1741 | a start time is reported exactly if some time accrues a reward, and it is the first such time |
| KmdInterest.ReportedTimesAreRight | mm2src/coins/utxo.rs:1646-1741 | a mined output accrues exactly from the reported start on, and its reward is constant from the reported stop, a year or 31 days after the lock time |
| HdAddresses.HDAccount.GenerateNewAddress | mm2src/coins/hd_wallet.rs:282-296 | derives the next index and raises the known number by one, or changes nothing; every error exactly in its case |
| HdAddresses.HDAccount.GenNewAddresses | mm2src/coins/coin_balance.rs:450-512 | leaves max(length, minimum) addresses, the new ones consecutive from the old known number with their own balances; the limit is an error inside the loop only if old number plus count reaches it |
| HdAddresses.HDAccount.KnownAddressesBalances | mm2src/coins/coin_balance.rs:254-296 | every known address of a chain in order, each with its own path and balance |
| HdAddresses.HDAccount.EnableHdAccount | mm2src/coins/coin_balance.rs:343-379 | without scanning, the list has the external, the internal and the new addresses in this order, every known path exactly once, and the total is the sum of its balances; it succeeds if no request fails and the minimum is below the limit |
| HdAddresses.TotalBalanceOfParts | mm2src/coins/coin_balance.rs:343-379 | the total is additive over the rows |
| HdAddresses.RowsOfBothChains | mm2src/coins/coin_balance.rs:343-379 | the known and the newly generated rows together name every known path exactly once |
| RepeatedCharacters.SequentialCount.Next | mm2src/common/common.rs:926-947 | returns the longest run at the front and leaves exactly what follows it |
| RepeatedCharacters.IsAcceptableInputOnRepeatedCharacters | mm2src/common/common.rs:950-957 | accepts exactly the texts without a run of the given length |

## Left out

- EthSwap.RewardLowerBoundary: the floating-point product is replaced by the exact rational one, whose floor can differ from the code's where rounding to 53 bits crosses an integer.
- EthSwap.RewardUpperBoundary: the same; saturation at the largest 64-bit number is modelled.
- EthSwap.SpendPayment: leaves out, like the other builders, allowances, approvals, gas and signatures, because they do not affect the arguments of the calls.
- SenderProtocol.GenerateAndSendTx: choosing inputs and fees is not modelled; any non-empty selection from the sender's view is allowed, and inputs forced by a caller are not covered.
- HdAddresses.HDAccount.EnableHdAccount: scanning for used addresses, because it lives outside the modelled files.
- EthHistory.HistorySync.AddToHistory: leaves out amounts, fees and block times of the history entries; the order of the saved file is any rearrangement here and is specified in `TxHistory`. Also left out is the ERC-20 history loop, whose windows do not tile the chain.
- EthChecksum.ChecksumAddress: lower-casing of characters outside ASCII, because addresses are hexadecimal.
- TxHistory.PagesPartitionTheHistory: overflow of a page number times the limit in a machine word.
- NftList.NftListStorage.HandleNftTx: leaves out metadata, images, spam flags and the bookkeeping of the last scanned block.
- Withdrawal amounts, gas price selection, lightning, Solana and QRC-20 wrappers, JSON, RPC and configuration: they forward to nodes and libraries and keep no state of their own that the modelled parts depend on.
