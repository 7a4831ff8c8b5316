/**
 The watcher reward that each side of a swap estimates from the gas price it sees, and what the
 receiver's five percent margin then means.
 */
module EthRewards {
  import opened Wrappers
  import opened EthAmounts
  import opened EthSwap

  const REWARD_GAS_AMOUNT: nat := 70_000

  /** The cost of the watcher's gas as an amount of ETH, whose number of decimals is 18 in the code; the
      product may overflow 256 bits. */
  function EstimatedReward(gasPrice: nat, ethDecimals: nat): Option<BigDecimal> {
    if REWARD_GAS_AMOUNT * gasPrice < EthAmounts.U256_LIMIT
    then U256ToBigDecimal(REWARD_GAS_AMOUNT * gasPrice, ethDecimals) else None
  }

  /** What a cost in wei is in units of a coin, if the coin's decimals are taken for those of ETH. */
  ghost function Rescaled(wei: nat, decimals: nat, ethDecimals: nat): nat {
    if decimals <= ethDecimals then Quotient(wei, Pow10(ethDecimals - decimals))
    else Times(wei, Pow10(decimals - ethDecimals))
  }

  /** The units of an amount: its floor, for an amount that is not negative. */
  ghost function Units(b: BigDecimal, decimals: nat): nat {
    if b.intVal < 0 then 0 else FloorScaled(b, decimals)
  }

  /** In a coin with fewer decimals than ETH the estimate loses the last digits of its cost in wei, in one
      with more it gains zeros and can become too large. */
  lemma EstimateInUnits(gasPrice: nat, decimals: nat, ethDecimals: nat)
    requires EstimatedReward(gasPrice, ethDecimals).Some?
    ensures var estimate := EstimatedReward(gasPrice, ethDecimals).value;
            var units := Rescaled(REWARD_GAS_AMOUNT * gasPrice, decimals, ethDecimals);
            && estimate.intVal >= 0 && Units(estimate, decimals) == units
            && WeiFromBigDecimal(estimate, decimals) == if units < EthAmounts.U256_LIMIT then Some(units) else None
  {
    AmountInUnits(REWARD_GAS_AMOUNT * gasPrice, decimals, ethDecimals);
  }

  lemma AmountInUnits(wei: nat, decimals: nat, ethDecimals: nat)
    ensures U256ToBigDecimal(wei, ethDecimals).Some?
    ensures var b, units := U256ToBigDecimal(wei, ethDecimals).value, Rescaled(wei, decimals, ethDecimals);
            && b.intVal >= 0 && Units(b, decimals) == units
            && WeiFromBigDecimal(b, decimals) == if units < EthAmounts.U256_LIMIT then Some(units) else None
  {
    U256ToBigDecimalIsExact(wei, ethDecimals);
    var b := U256ToBigDecimal(wei, ethDecimals).value;
    WeiIsTheFloor(b, decimals);
    if decimals <= ethDecimals {
      CutOffDecimals(b, decimals, ethDecimals, wei);
    } else {
      AddedDecimals(b, ethDecimals, decimals, wei);
    }
  }

  lemma AddedDecimals(b: BigDecimal, few: nat, many: nat, number: nat)
    requires b.intVal >= 0 && b.scale <= few < many
    requires b.intVal * Pow10(few - b.scale) == number
    ensures FloorScaled(b, many) == number * Pow10(many - few)
  {
    Pow10Add(few - b.scale, many - few);
    MulAssoc(b.intVal, Pow10(few - b.scale), Pow10(many - few));
  }

  /** The floor for fewer decimals is a quotient of the exact number for more. */
  lemma CutOffDecimals(b: BigDecimal, few: nat, many: nat, number: nat)
    requires b.intVal >= 0 && b.scale <= many && few <= many
    requires b.intVal * Pow10(many - b.scale) == number
    ensures FloorScaled(b, few) == number / Pow10(many - few)
  {
    if b.scale <= few {
      Pow10Add(few - b.scale, many - few);
      MulAssoc(b.intVal, Pow10(few - b.scale), Pow10(many - few));
      QuotientOfSplit(b.intVal * Pow10(few - b.scale), Pow10(many - few), 0);
    } else {
      Pow10Add(many - b.scale, b.scale - few);
      CancelFactor(b.intVal, Pow10(many - b.scale), Pow10(b.scale - few));
    }
  }

  lemma CancelFactor(i: nat, p: nat, q: nat)
    requires p > 0 && q > 0
    ensures (i * p) / (p * q) == i / q
  {
    SplitOff(i, q);
    Distribute(i, q, i / q, i % q, p);
    RemainderTimes(i % q, q, p);
    WholePart(i / q, p * q, i % q * p, i * p);
  }

  lemma SplitOff(i: nat, q: nat)
    requires q > 0
    ensures i == i / q * q + i % q
  {}

  lemma WholePart(d: nat, p: nat, r: nat, x: nat)
    requires r < p && x == d * p + r
    ensures x / p == d
  {
    QuotientOfSplit(d, p, r);
  }

  lemma Distribute(i: nat, q: nat, d: nat, r: nat, p: nat)
    requires i == d * q + r
    ensures i * p == d * (p * q) + r * p
  {
    assert (d * q + r) * p == (d * q) * p + r * p;
    assert (d * q) * p == d * (p * q);
  }

  lemma RemainderTimes(r: nat, q: nat, p: nat)
    requires r < q && p > 0
    ensures 0 <= r * p < p * q
  {
    assert p * q == p * r + p * (q - r);
    assert p * (q - r) > 0;
  }

  /** A margin around a multiple is a margin around the price. */
  lemma MarginOfCosts(receiversPrice: nat, sendersPrice: nat)
    ensures WithinMargin(REWARD_GAS_AMOUNT * receiversPrice, REWARD_GAS_AMOUNT * sendersPrice, false) <==>
            95 * receiversPrice <= 100 * sendersPrice <= 105 * receiversPrice
  {}

  ghost predicate ConvertsWith(coin: Coin, decimals: nat) {
    forall a :: coin.toWei(a) == WeiFromBigDecimal(a, decimals)
  }

  lemma ConvertsToUnits(coin: Coin, b: BigDecimal, decimals: nat)
    requires ConvertsWith(coin, decimals)
    ensures coin.toWei(b) ==
            if b.intVal >= 0 && Units(b, decimals) < EthAmounts.U256_LIMIT then Some(Units(b, decimals)) else None
  {
    WeiIsTheFloor(b, decimals);
  }

  // --- the reward of a taker's token payment --------------------------------------------------------------

  /** Multiplying or dividing by a power of ten changes a number unless the power is one or the number zero. */
  lemma RescaledIsTheSameIff(wei: nat, decimals: nat, ethDecimals: nat)
    ensures Rescaled(wei, decimals, ethDecimals) == wei <==> decimals == ethDecimals || wei == 0
  {
    if decimals == ethDecimals {
      assert Pow10(0) == 1;
    } else if wei == 0 {
      ZeroStaysZero(Pow10(if decimals < ethDecimals then ethDecimals - decimals else decimals - ethDecimals));
    } else if decimals < ethDecimals {
      QuotientIsSmaller(wei, Pow10(ethDecimals - decimals));
    } else {
      ProductIsLarger(wei, Pow10(decimals - ethDecimals));
    }
  }

  lemma ZeroStaysZero(p: nat)
    requires p > 0
    ensures 0 / p == 0 && 0 * p == 0
  {}

  lemma ProductIsLarger(x: nat, p: nat)
    requires x > 0 && p >= 2
    ensures x * p > x
  {
    assert x * p == x + x * (p - 1);
    assert x * (p - 1) > 0;
  }

  lemma QuotientIsSmaller(x: nat, p: nat)
    requires x > 0 && p >= 2
    ensures x / p < x
  {
    if x / p >= x {
      ProductIsLarger(x / p, p);
    }
  }

  /** The value of a token payment is the reward alone, if that goes to the contract or to the sender. */
  lemma ValueOfATokenPayment(coin: Coin, hashes: Hashes, terms: PaymentTerms, tx: Tx)
    requires coin.coinType.Erc20? && SendPayment(coin, hashes, terms) == Done(tx)
    ensures tx.value == RewardFor(terms.watcherReward, {Contract, PaymentSender},
                                  RewardWei(coin, terms.watcherReward).value)
  {}

  /** A taker who pays in a token attaches the reward to the payment in wei. It was converted with the
      decimals of the token, so it is the cost of the gas exactly for tokens with the decimals of ETH. */
  lemma AttachedReward(coin: Coin, hashes: Hashes, terms: PaymentTerms, tx: Tx, otherCoinIsEth: bool,
                       gasPrice: nat, decimals: nat, ethDecimals: nat)
    requires coin.coinType.Erc20? && ConvertsWith(coin, decimals) && SendPayment(coin, hashes, terms) == Done(tx)
    requires terms.watcherReward.Some?
    requires TakerWatcherReward(otherCoinIsEth, None, EstimatedReward(gasPrice, ethDecimals))
          == Done(terms.watcherReward.value)
    ensures tx.value == Rescaled(REWARD_GAS_AMOUNT * gasPrice, decimals, ethDecimals)
    ensures tx.value == REWARD_GAS_AMOUNT * gasPrice <==> decimals == ethDecimals || gasPrice == 0
  {
    var estimate := EstimatedReward(gasPrice, ethDecimals).value;
    EstimateInUnits(gasPrice, decimals, ethDecimals);
    ConvertsToUnits(coin, estimate, decimals);
    AttachedUnits(coin, hashes, terms, tx, otherCoinIsEth, estimate);
    RescaledIsTheSameIff(REWARD_GAS_AMOUNT * gasPrice, decimals, ethDecimals);
  }

  lemma AttachedUnits(coin: Coin, hashes: Hashes, terms: PaymentTerms, tx: Tx, otherCoinIsEth: bool,
                      estimate: BigDecimal)
    requires coin.coinType.Erc20? && SendPayment(coin, hashes, terms) == Done(tx) && terms.watcherReward.Some?
    requires TakerWatcherReward(otherCoinIsEth, None, Some(estimate)) == Done(terms.watcherReward.value)
    ensures coin.toWei(estimate) == Some(tx.value)
  {
    ValueOfATokenPayment(coin, hashes, terms, tx);
  }

  /** A taker who pays with a token of six decimals at a gas price of 30 gwei attaches 2100 wei; the gas costs
      2.1 * 10^15. */
  lemma SixDecimalsAreTooFew(coin: Coin, hashes: Hashes, terms: PaymentTerms, otherCoinIsEth: bool,
                             decimals: nat, ethDecimals: nat) returns (payment: PaymentTerms, tx: Tx)
    requires coin.coinType.Erc20? && ConvertsWith(coin, decimals) && decimals == 6 && ethDecimals == 18
    requires terms.otherParty.Some? && terms.swapContract.Some? && |terms.secretHash| == 32
    requires terms.amount == BigDecimal(1, 0)
    ensures TakerWatcherReward(otherCoinIsEth, None, EstimatedReward(30_000_000_000, ethDecimals)).Done?
    ensures payment == terms.(watcherReward := Some(
              TakerWatcherReward(otherCoinIsEth, None, EstimatedReward(30_000_000_000, ethDecimals)).value))
    ensures SendPayment(coin, hashes, payment) == Done(tx)
    ensures tx.value == 2100 && REWARD_GAS_AMOUNT * 30_000_000_000 == 2_100_000_000_000_000
  {
    var estimate := SixDecimalUnits(coin, decimals, ethDecimals);
    var reward := TakerWatcherReward(otherCoinIsEth, None, Some(estimate)).value;
    payment := terms.(watcherReward := Some(reward));
    TokenPaymentIsBuilt(coin, hashes, payment);
    tx := SendPayment(coin, hashes, payment).value;
    AttachedUnits(coin, hashes, payment, tx, otherCoinIsEth, estimate);
  }

  lemma SixDecimalUnits(coin: Coin, decimals: nat, ethDecimals: nat) returns (estimate: BigDecimal)
    requires ConvertsWith(coin, decimals) && decimals == 6 && ethDecimals == 18
    ensures EstimatedReward(30_000_000_000, ethDecimals) == Some(estimate)
    ensures coin.toWei(estimate) == Some(2100) && coin.toWei(BigDecimal(1, 0)) == Some(1_000_000)
  {
    estimate := GasCost(30_000_000_000, ethDecimals);
    EstimateInUnits(30_000_000_000, decimals, ethDecimals);
    ConvertsToUnits(coin, estimate, decimals);
    ConvertsToUnits(coin, BigDecimal(1, 0), decimals);
    PowersOfTen();
  }

  lemma PowersOfTen()
    ensures Pow10(6) == 1_000_000 && Pow10(12) == 1_000_000_000_000
  {}

  lemma GasCost(gasPrice: nat, ethDecimals: nat) returns (estimate: BigDecimal)
    requires REWARD_GAS_AMOUNT * gasPrice < EthAmounts.U256_LIMIT
    ensures EstimatedReward(gasPrice, ethDecimals) == Some(estimate)
  {
    U256ToBigDecimalIsExact(REWARD_GAS_AMOUNT * gasPrice, ethDecimals);
    estimate := EstimatedReward(gasPrice, ethDecimals).value;
  }

  /** A token payment with a 32-byte hash can be built, if the amounts can be converted and added. */
  lemma TokenPaymentIsBuilt(coin: Coin, hashes: Hashes, terms: PaymentTerms)
    requires coin.coinType.Erc20? && terms.otherParty.Some? && terms.swapContract.Some?
    requires |terms.secretHash| == 32 && Wei(coin, terms.amount).Done? && RewardWei(coin, terms.watcherReward).Done?
    requires Wei(coin, terms.amount).value + RewardWei(coin, terms.watcherReward).value < EthAmounts.U256_LIMIT
    ensures SendPayment(coin, hashes, terms).Done?
  {
    var id, hash := hashes.swapId(terms.timeLock, terms.secretHash), FixedBytes(hashes.ripemd160(terms.secretHash));
    var reward := RewardWei(coin, terms.watcherReward).value;
    var amount := Wei(coin, terms.amount).value + RewardFor(terms.watcherReward, {PaymentSpender}, reward);
    var args := Erc20Args(FixedBytes(id), amount, coin.coinType.tokenAddr, terms.otherParty.value, hash,
                          terms.timeLock, RewardTokens(terms.watcherReward, reward));
    Erc20ArgsAreTyped(id, amount, coin.coinType.tokenAddr, terms.otherParty.value, hash, terms.timeLock,
                      terms.watcherReward, reward);
    assert WellTyped(Erc20Payment(terms.watcherReward.Some?), args);
  }

  // --- which estimates are accepted -----------------------------------------------------------------------

  /** Division of two amounts, up to some precision. */
  type Division = (BigDecimal, BigDecimal) -> BigDecimal

  /** What one side sees: the gas price, and the price of the token in ETH. */
  datatype Market = Market(gasPrice: nat, tokenPrice: Option<BigDecimal>)

  /** Whether the cost of the gas has to be expressed in the token. */
  predicate IsDivided(takerPayment: bool, coinType: CoinType, otherCoinIsEth: bool) {
    !takerPayment && coinType.Erc20? && !otherCoinIsEth
  }

  /** The estimate one side makes. For a maker's payment in a token against a coin other than ETH the cost of
      the gas is divided by the price of the token, which each side fetches itself. */
  function OwnEstimate(takerPayment: bool, coinType: CoinType, otherCoinIsEth: bool, market: Market,
                       quotient: Division, ethDecimals: nat): Option<BigDecimal>
  {
    var cost, price := EstimatedReward(market.gasPrice, ethDecimals), market.tokenPrice;
    if cost.None? || !IsDivided(takerPayment, coinType, otherCoinIsEth) then cost
    else if price.None? || price.value.intVal == 0 then None
    else Some(quotient(cost.value, price.value))
  }

  /** An estimate is made exactly if the cost fits into 256 bits and, where it has to be divided, a price other
      than zero is known. */
  lemma EstimateIsMadeIff(takerPayment: bool, coinType: CoinType, otherCoinIsEth: bool, market: Market,
                          quotient: Division, ethDecimals: nat)
    ensures OwnEstimate(takerPayment, coinType, otherCoinIsEth, market, quotient, ethDecimals).Some? <==>
            && 70_000 * market.gasPrice < EthAmounts.U256_LIMIT
            && (takerPayment || coinType == Eth || otherCoinIsEth ||
                (market.tokenPrice.Some? && market.tokenPrice.value.intVal != 0))
  {
    U256ToBigDecimalIsExact(REWARD_GAS_AMOUNT * market.gasPrice, ethDecimals);
  }

  /** The two sides compute their rewards, each from its own view of the market. */
  ghost predicate RewardsAreEstimated(coinType: CoinType, sent: PaymentTerms, expected: PaymentTerms,
                                      takerPayment: bool, otherCoinIsEth: bool, senders: Market, receivers: Market,
                                      quotient: Division, ethDecimals: nat)
  {
    && sent.watcherReward.Some? && expected.watcherReward.Some?
    && SwapReward(takerPayment, otherCoinIsEth, None,
                  OwnEstimate(takerPayment, coinType, otherCoinIsEth, senders, quotient, ethDecimals))
       == Done(sent.watcherReward.value)
    && SwapReward(takerPayment, otherCoinIsEth, None,
                  OwnEstimate(takerPayment, coinType, otherCoinIsEth, receivers, quotient, ethDecimals))
       == Done(expected.watcherReward.value)
  }

  /** Both sides estimate the reward, in whatever way: the payment is accepted exactly when the sender's
      estimate is within five percent of the receiver's in units of the coin, both fit into 64 bits, and the
      hash has 20 bytes. */
  lemma AcceptedIffEstimatesAreClose(sender: Coin, receiver: Coin, hashes: Hashes, sent: PaymentTerms,
                                     expected: PaymentTerms, takerPayment: bool, otherCoinIsEth: bool,
                                     sendersEstimate: BigDecimal, receiversEstimate: BigDecimal, decimals: nat)
    requires SameDeal(sender, receiver, sent, expected) && ConvertsWith(receiver, decimals)
    requires SendPayment(sender, hashes, sent).Done? && sent.watcherReward.Some? && expected.watcherReward.Some?
    requires SwapReward(takerPayment, otherCoinIsEth, None, Some(sendersEstimate)) == Done(sent.watcherReward.value)
    requires SwapReward(takerPayment, otherCoinIsEth, None, Some(receiversEstimate))
          == Done(expected.watcherReward.value)
    ensures var tx := SendPayment(sender, hashes, sent).value;
            ValidatePayment(receiver, hashes, expected, STATE_SENT, Some(tx)) == Done(()) <==>
            && |ContractHash(hashes, sent.secretHash)| == 20 && receiversEstimate.intVal >= 0
            && AreClose(Units(receiversEstimate, decimals), Units(sendersEstimate, decimals))
  {
    ConvertsToUnits(receiver, sendersEstimate, decimals);
    ConvertsToUnits(receiver, receiversEstimate, decimals);
    AcceptedIffUnitsAreClose(sender, receiver, hashes, sent, expected, takerPayment, otherCoinIsEth,
                             sendersEstimate, receiversEstimate,
                             Units(sendersEstimate, decimals), Units(receiversEstimate, decimals));
  }

  /** Within five percent, and below 2^64. */
  ghost predicate AreClose(expected: nat, paid: nat) {
    expected < EthSwap.U64_LIMIT && paid < EthSwap.U64_LIMIT && WithinMargin(expected, paid, false)
  }

  lemma AcceptedIffUnitsAreClose(sender: Coin, receiver: Coin, hashes: Hashes, sent: PaymentTerms,
                                 expected: PaymentTerms, takerPayment: bool, otherCoinIsEth: bool,
                                 sendersEstimate: BigDecimal, receiversEstimate: BigDecimal,
                                 sendersUnits: nat, receiversUnits: nat)
    requires SameDeal(sender, receiver, sent, expected)
    requires SendPayment(sender, hashes, sent).Done? && sent.watcherReward.Some? && expected.watcherReward.Some?
    requires SwapReward(takerPayment, otherCoinIsEth, None, Some(sendersEstimate)) == Done(sent.watcherReward.value)
    requires SwapReward(takerPayment, otherCoinIsEth, None, Some(receiversEstimate))
          == Done(expected.watcherReward.value)
    requires receiver.toWei(sendersEstimate).Some? ==> receiver.toWei(sendersEstimate) == Some(sendersUnits)
    requires receiver.toWei(receiversEstimate) ==
             if receiversEstimate.intVal >= 0 && receiversUnits < EthAmounts.U256_LIMIT
             then Some(receiversUnits) else None
    ensures var tx := SendPayment(sender, hashes, sent).value;
            ValidatePayment(receiver, hashes, expected, STATE_SENT, Some(tx)) == Done(()) <==>
            && |ContractHash(hashes, sent.secretHash)| == 20 && receiversEstimate.intVal >= 0
            && AreClose(receiversUnits, sendersUnits)
  {
    SwapPaymentIsAcceptedIff(sender, receiver, hashes, sent, expected, takerPayment, otherCoinIsEth,
                             None, Some(sendersEstimate), None, Some(receiversEstimate));
  }

  /** Unless the cost is divided by a price, only the two gas prices count, for coins of any decimals. */
  lemma AcceptedIffGasCostsAreClose(sender: Coin, receiver: Coin, hashes: Hashes, sent: PaymentTerms,
                                    expected: PaymentTerms, takerPayment: bool, otherCoinIsEth: bool,
                                    senders: Market, receivers: Market, quotient: Division,
                                    decimals: nat, ethDecimals: nat)
    requires SameDeal(sender, receiver, sent, expected) && ConvertsWith(receiver, decimals)
    requires SendPayment(sender, hashes, sent).Done? && !IsDivided(takerPayment, sender.coinType, otherCoinIsEth)
    requires RewardsAreEstimated(sender.coinType, sent, expected, takerPayment, otherCoinIsEth, senders, receivers,
                                 quotient, ethDecimals)
    ensures var tx := SendPayment(sender, hashes, sent).value;
            ValidatePayment(receiver, hashes, expected, STATE_SENT, Some(tx)) == Done(()) <==>
            && |ContractHash(hashes, sent.secretHash)| == 20
            && AreClose(Rescaled(REWARD_GAS_AMOUNT * receivers.gasPrice, decimals, ethDecimals),
                        Rescaled(REWARD_GAS_AMOUNT * senders.gasPrice, decimals, ethDecimals))
  {
    EstimateInUnits(senders.gasPrice, decimals, ethDecimals);
    EstimateInUnits(receivers.gasPrice, decimals, ethDecimals);
    AcceptedIffEstimatesAreClose(sender, receiver, hashes, sent, expected, takerPayment, otherCoinIsEth,
                                 EstimatedReward(senders.gasPrice, ethDecimals).value,
                                 EstimatedReward(receivers.gasPrice, ethDecimals).value, decimals);
  }

  /** In a coin with the decimals of ETH that is: the sender's gas price is within five percent of the
      receiver's, and both costs fit into 64 bits. */
  lemma AcceptedIffGasPricesAreClose(sender: Coin, receiver: Coin, hashes: Hashes, sent: PaymentTerms,
                                     expected: PaymentTerms, takerPayment: bool, otherCoinIsEth: bool,
                                     senders: Market, receivers: Market, quotient: Division, ethDecimals: nat)
    requires SameDeal(sender, receiver, sent, expected) && ConvertsWith(receiver, ethDecimals)
    requires SendPayment(sender, hashes, sent).Done? && !IsDivided(takerPayment, sender.coinType, otherCoinIsEth)
    requires RewardsAreEstimated(sender.coinType, sent, expected, takerPayment, otherCoinIsEth, senders, receivers,
                                 quotient, ethDecimals)
    ensures var tx := SendPayment(sender, hashes, sent).value;
            ValidatePayment(receiver, hashes, expected, STATE_SENT, Some(tx)) == Done(()) <==>
            && |ContractHash(hashes, sent.secretHash)| == 20
            && REWARD_GAS_AMOUNT * senders.gasPrice < EthSwap.U64_LIMIT
            && REWARD_GAS_AMOUNT * receivers.gasPrice < EthSwap.U64_LIMIT
            && 95 * receivers.gasPrice <= 100 * senders.gasPrice <= 105 * receivers.gasPrice
  {
    AcceptedIffGasCostsAreClose(sender, receiver, hashes, sent, expected, takerPayment, otherCoinIsEth,
                                senders, receivers, quotient, ethDecimals, ethDecimals);
    RescaledIsTheSameIff(REWARD_GAS_AMOUNT * senders.gasPrice, ethDecimals, ethDecimals);
    RescaledIsTheSameIff(REWARD_GAS_AMOUNT * receivers.gasPrice, ethDecimals, ethDecimals);
    MarginOfCosts(receivers.gasPrice, senders.gasPrice);
  }

  /** Sides that see the same gas price agree: a taker's token payment with a 32-byte hash is built and accepted,
      if the cost can be estimated and fits into 64 bits. */
  lemma EqualGasPricesAreAccepted(sender: Coin, receiver: Coin, hashes: Hashes, terms: PaymentTerms,
                                  otherCoinIsEth: bool, market: Market, quotient: Division, decimals: nat,
                                  ethDecimals: nat) returns (sent: PaymentTerms, expected: PaymentTerms)
    requires sender.coinType.Erc20? && sender.coinType == receiver.coinType && sender.toWei == receiver.toWei
    requires ConvertsWith(receiver, decimals)
    requires terms.otherParty == Some(receiver.myAddress) && terms.swapContract.Some? && |terms.secretHash| == 32
    requires Wei(sender, terms.amount).Done?
    requires REWARD_GAS_AMOUNT * market.gasPrice < EthAmounts.U256_LIMIT
    requires var cost := Rescaled(REWARD_GAS_AMOUNT * market.gasPrice, decimals, ethDecimals);
             cost < EthSwap.U64_LIMIT && Wei(sender, terms.amount).value + cost < EthAmounts.U256_LIMIT
    ensures SameDeal(sender, receiver, sent, expected) && SendPayment(sender, hashes, sent).Done?
    ensures sent == terms.(watcherReward := sent.watcherReward)
    ensures RewardsAreEstimated(sender.coinType, sent, expected, true, otherCoinIsEth, market, market, quotient,
                                ethDecimals)
    ensures var tx := SendPayment(sender, hashes, sent).value;
            ValidatePayment(receiver, hashes, expected, STATE_SENT, Some(tx)) == Done(())
  {
    var estimate := CostInUnits(receiver, market.gasPrice, decimals, ethDecimals);
    sent, expected := EqualEstimatesAreAccepted(sender, receiver, hashes, terms, otherCoinIsEth, estimate,
                                                Rescaled(REWARD_GAS_AMOUNT * market.gasPrice, decimals, ethDecimals));
  }

  lemma CostInUnits(coin: Coin, gasPrice: nat, decimals: nat, ethDecimals: nat) returns (estimate: BigDecimal)
    requires ConvertsWith(coin, decimals) && REWARD_GAS_AMOUNT * gasPrice < EthAmounts.U256_LIMIT
    ensures EstimatedReward(gasPrice, ethDecimals) == Some(estimate) && estimate.intVal >= 0
    ensures var units := Rescaled(REWARD_GAS_AMOUNT * gasPrice, decimals, ethDecimals);
            units < EthAmounts.U256_LIMIT ==> coin.toWei(estimate) == Some(units)
  {
    estimate := GasCost(gasPrice, ethDecimals);
    EstimateInUnits(gasPrice, decimals, ethDecimals);
    ConvertsToUnits(coin, estimate, decimals);
  }

  lemma EqualEstimatesAreAccepted(sender: Coin, receiver: Coin, hashes: Hashes, terms: PaymentTerms,
                                  otherCoinIsEth: bool, estimate: BigDecimal, units: nat)
      returns (sent: PaymentTerms, expected: PaymentTerms)
    requires sender.coinType.Erc20? && sender.coinType == receiver.coinType && sender.toWei == receiver.toWei
    requires terms.otherParty == Some(receiver.myAddress) && terms.swapContract.Some? && |terms.secretHash| == 32
    requires receiver.toWei(estimate) == Some(units) && estimate.intVal >= 0 && units < EthSwap.U64_LIMIT
    requires Wei(sender, terms.amount).Done? && Wei(sender, terms.amount).value + units < EthAmounts.U256_LIMIT
    ensures TakerWatcherReward(otherCoinIsEth, None, Some(estimate)).Done?
    ensures sent == terms.(
              watcherReward := Some(TakerWatcherReward(otherCoinIsEth, None, Some(estimate)).value))
    ensures expected == sent.(otherParty := Some(sender.myAddress))
    ensures SendPayment(sender, hashes, sent).Done?
    ensures var tx := SendPayment(sender, hashes, sent).value;
            ValidatePayment(receiver, hashes, expected, STATE_SENT, Some(tx)) == Done(())
  {
    sent := terms.(watcherReward := Some(TakerWatcherReward(otherCoinIsEth, None, Some(estimate)).value));
    expected := sent.(otherParty := Some(sender.myAddress));
    TokenPaymentIsBuilt(sender, hashes, sent);
    AcceptedIffUnitsAreClose(sender, receiver, hashes, sent, expected, true, otherCoinIsEth,
                             estimate, estimate, units, units);
  }

  /** For a maker's payment in a token against a coin other than ETH the quotients of cost and token price
      have to be close. */
  lemma AcceptedIffQuotientsAreClose(sender: Coin, receiver: Coin, hashes: Hashes, sent: PaymentTerms,
                                     expected: PaymentTerms, takerPayment: bool, otherCoinIsEth: bool,
                                     senders: Market, receivers: Market, quotient: Division,
                                     decimals: nat, ethDecimals: nat)
    requires SameDeal(sender, receiver, sent, expected) && ConvertsWith(receiver, decimals)
    requires SendPayment(sender, hashes, sent).Done? && IsDivided(takerPayment, sender.coinType, otherCoinIsEth)
    requires RewardsAreEstimated(sender.coinType, sent, expected, takerPayment, otherCoinIsEth, senders, receivers,
                                 quotient, ethDecimals)
    ensures EstimatedReward(senders.gasPrice, ethDecimals).Some? && senders.tokenPrice.Some?
    ensures EstimatedReward(receivers.gasPrice, ethDecimals).Some? && receivers.tokenPrice.Some?
    ensures var tx := SendPayment(sender, hashes, sent).value;
            var paid := quotient(EstimatedReward(senders.gasPrice, ethDecimals).value, senders.tokenPrice.value);
            var own := quotient(EstimatedReward(receivers.gasPrice, ethDecimals).value, receivers.tokenPrice.value);
            ValidatePayment(receiver, hashes, expected, STATE_SENT, Some(tx)) == Done(()) <==>
            && |ContractHash(hashes, sent.secretHash)| == 20 && own.intVal >= 0
            && AreClose(Units(own, decimals), Units(paid, decimals))
  {
    var paid := quotient(EstimatedReward(senders.gasPrice, ethDecimals).value, senders.tokenPrice.value);
    var own := quotient(EstimatedReward(receivers.gasPrice, ethDecimals).value, receivers.tokenPrice.value);
    AcceptedIffEstimatesAreClose(sender, receiver, hashes, sent, expected, takerPayment, otherCoinIsEth,
                                 paid, own, decimals);
  }

  /** Equal gas prices are then not enough: if the sender's token price makes the reward twice the receiver's,
      the payment is refused. */
  lemma DifferentTokenPricesAreRefused(sender: Coin, receiver: Coin, hashes: Hashes, sent: PaymentTerms,
                                       expected: PaymentTerms, senders: Market, receivers: Market,
                                       quotient: Division, decimals: nat, ethDecimals: nat)
    requires SameDeal(sender, receiver, sent, expected) && ConvertsWith(receiver, decimals)
    requires SendPayment(sender, hashes, sent).Done? && sender.coinType.Erc20?
    requires RewardsAreEstimated(sender.coinType, sent, expected, false, false, senders, receivers,
                                 quotient, ethDecimals)
    requires senders.gasPrice == receivers.gasPrice && senders.tokenPrice.Some? && receivers.tokenPrice.Some?
    requires EstimatedReward(senders.gasPrice, ethDecimals).Some?
    requires var cost := EstimatedReward(senders.gasPrice, ethDecimals).value;
             Units(quotient(cost, senders.tokenPrice.value), decimals) ==
             2 * Units(quotient(cost, receivers.tokenPrice.value), decimals) > 0
    ensures var tx := SendPayment(sender, hashes, sent).value;
            ValidatePayment(receiver, hashes, expected, STATE_SENT, Some(tx)) != Done(())
  {
    AcceptedIffQuotientsAreClose(sender, receiver, hashes, sent, expected, false, false, senders, receivers,
                                 quotient, decimals, ethDecimals);
  }
}
