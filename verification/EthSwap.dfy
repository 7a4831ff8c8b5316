/**
 The hash-time-locked payments of the swap contract: who builds which call, what the receiver
 checks, and what the spend and refund calls, the watcher's calls and the secret extraction
 read back from the payment transaction.

 A contract call is modelled by its function and its decoded arguments: decoding after the
 selector check is the inverse of encoding.
 */
module EthSwap {
  import opened Wrappers
  import EthAmounts

  type Amount = EthAmounts.BigDecimal
  type Address = nat
  type Bytes = seq<nat>
  type Bytes32 = b: Bytes | |b| == 32 witness seq(32, _ => 0)
  type Bytes20 = b: Bytes | |b| == 20 witness seq(20, _ => 0)

  const U256_LIMIT := EthAmounts.U256_LIMIT
  const U64_LIMIT: nat := 0x1_0000_0000_0000_0000

  /** A result, an error, or an arithmetic overflow (which aborts the call). */
  datatype Outcome<+T> = Done(value: T) | Failed | Panic {
    predicate IsFailure() { !Done? }
    function PropagateFailure<U>(): Outcome<U>
      requires IsFailure()
    {
      if Failed? then Failed else Panic
    }
    function Extract(): T
      requires Done?
    {
      value
    }
  }

  function Check(condition: bool): Outcome<()> { if condition then Done(()) else Failed }

  function OrFail<T>(o: Option<T>): Outcome<T> { if o.Some? then Done(o.value) else Failed }

  function Add256(a: nat, b: nat): Outcome<nat> { if a + b < U256_LIMIT then Done(a + b) else Panic }

  function AsU64(a: nat): Outcome<nat> { if a < U64_LIMIT then Done(a) else Panic }

  // --- contract calls -------------------------------------------------------------------------------

  datatype Token = FixedBytes(bytes: Bytes) | Addr(address: Address) | Uint(number: nat) | Bool(flag: bool)

  datatype ParamType = BytesParam(size: nat) | AddressParam | UintParam | BoolParam

  /** The functions of the contract, each with and without the watcher reward parameters. */
  datatype Function =
    | EthPayment(reward: bool)
    | Erc20Payment(reward: bool)
    | ReceiverSpend(reward: bool)
    | SenderRefund(reward: bool)

  function Params(f: Function): seq<ParamType> {
    match f
    case EthPayment(false) => [BytesParam(32), AddressParam, BytesParam(20), UintParam]
    case EthPayment(true) =>
      [BytesParam(32), AddressParam, BytesParam(20), UintParam, UintParam, BoolParam, UintParam]
    case Erc20Payment(false) =>
      [BytesParam(32), UintParam, AddressParam, AddressParam, BytesParam(20), UintParam]
    case Erc20Payment(true) =>
      [BytesParam(32), UintParam, AddressParam, AddressParam, BytesParam(20), UintParam,
       UintParam, BoolParam, UintParam]
    case ReceiverSpend(false) => [BytesParam(32), UintParam, BytesParam(32), AddressParam, AddressParam]
    case ReceiverSpend(true) =>
      [BytesParam(32), UintParam, BytesParam(32), AddressParam, AddressParam, AddressParam,
       UintParam, BoolParam, UintParam]
    case SenderRefund(false) => [BytesParam(32), UintParam, BytesParam(20), AddressParam, AddressParam]
    case SenderRefund(true) =>
      [BytesParam(32), UintParam, BytesParam(20), AddressParam, AddressParam, AddressParam,
       UintParam, BoolParam, UintParam]
  }

  /** What decoding can yield for a parameter. */
  predicate HasType(t: Token, p: ParamType) {
    match p
    case BytesParam(size) => t.FixedBytes? && |t.bytes| == size
    case AddressParam => t.Addr?
    case UintParam => t.Uint?
    case BoolParam => t.Bool?
  }

  /** What encoding accepts: fixed bytes may be shorter than declared. */
  predicate Encodable(t: Token, p: ParamType) {
    HasType(t, p) || (p.BytesParam? && t.FixedBytes? && |t.bytes| <= p.size)
  }

  /** Fixed bytes are padded with zeros on the right. */
  function Padded(t: Token, p: ParamType): (r: Token)
    requires Encodable(t, p)
    ensures HasType(r, p)
    ensures HasType(t, p) ==> r == t
    ensures p.BytesParam? ==> t.bytes <= r.bytes && forall i :: |t.bytes| <= i < p.size ==> r.bytes[i] == 0
  {
    if HasType(t, p) then t else FixedBytes(t.bytes + seq(p.size - |t.bytes|, _ => 0))
  }

  datatype CallData = Call(function_: Function, args: seq<Token>) | OtherData

  predicate WellTyped(f: Function, args: seq<Token>) {
    |args| == |Params(f)| && forall i :: 0 <= i < |args| ==> HasType(args[i], Params(f)[i])
  }

  /** Encoding fails on a wrong number or type of arguments, and keeps well-typed ones. */
  function Encode(f: Function, args: seq<Token>): (r: Outcome<CallData>)
    ensures r.Done? ==> r.value.Call? && r.value.function_ == f && WellTyped(f, r.value.args)
    ensures r.Done? ==> |args| == |Params(f)|
    ensures r.Done? ==> forall i :: 0 <= i < |args| ==> Encodable(args[i], Params(f)[i])
    ensures r.Done? ==> forall i :: 0 <= i < |args| ==> r.value.args[i] == Padded(args[i], Params(f)[i])
    ensures WellTyped(f, args) ==> r == Done(Call(f, args))
  {
    if |args| == |Params(f)| && forall i :: 0 <= i < |args| ==> Encodable(args[i], Params(f)[i])
    then
      var padded := seq(|args|, i requires 0 <= i < |args| => Padded(args[i], Params(f)[i]));
      assert WellTyped(f, args) ==> padded == args;
      Done(Call(f, padded))
    else Failed
  }

  /** Decoding fails on another selector and on anything that is not typed as declared. */
  function Decode(f: Function, data: CallData): (r: Outcome<seq<Token>>)
    ensures r.Done? ==> WellTyped(f, r.value)
  {
    if data.Call? && data.function_ == f && WellTyped(f, data.args) then Done(data.args) else Failed
  }

  /** Decoding inverts encoding: it succeeds on the encoded call of the same function only, gives well-typed
      arguments back, and what it yields encodes to the same call. */
  lemma DecodeInvertsEncode(f: Function, g: Function, args: seq<Token>, data: CallData)
    ensures Encode(g, args).Done? ==> (Decode(f, Encode(g, args).value).Done? <==> f == g)
    ensures WellTyped(f, args) ==> Encode(f, args).Done? && Decode(f, Encode(f, args).value) == Done(args)
    ensures Decode(f, data).Done? ==> Encode(f, Decode(f, data).value) == Done(data)
  {}

  function Input(decoded: seq<Token>, index: nat): Outcome<Token> {
    if index < |decoded| then Done(decoded[index]) else Failed
  }

  // --- parties and transactions -----------------------------------------------------------------------

  datatype CoinType = Eth | Erc20(tokenAddr: Address)

  datatype Coin = Coin(coinType: CoinType, toWei: Amount -> Option<nat>, myAddress: Address)

  datatype Action = CallTo(contract: Address) | Create

  datatype Tx = Tx(sender: Address, action: Action, value: nat, data: CallData)

  datatype RewardTarget = NoReward | Contract | PaymentSender | PaymentSpender | PaymentReceiver

  function TargetCode(t: RewardTarget): nat {
    match t
    case NoReward => 0
    case Contract => 1
    case PaymentSender => 2
    case PaymentSpender => 3
    case PaymentReceiver => 4
  }

  datatype WatcherReward = WatcherReward(
    amount: Amount,
    isExactAmount: bool,
    rewardTarget: RewardTarget,
    sendContractRewardOnSpend: bool)

  /** The hash functions the swap relies on. */
  datatype Hashes = Hashes(swapId: (nat, Bytes) -> Bytes32, ripemd160: Bytes -> Bytes20)

  /** The terms both sides agree on. `None` stands for bytes that are no address or no public key. */
  datatype PaymentTerms = PaymentTerms(
    timeLock: nat,
    otherParty: Option<Address>,
    secretHash: Bytes,
    amount: Amount,
    swapContract: Option<Address>,
    watcherReward: Option<WatcherReward>)

  function Wei(coin: Coin, amount: Amount): Outcome<nat> { OrFail(coin.toWei(amount)) }

  /** A 32-byte hash is shortened with RIPEMD-160; any other is used as it is. */
  function ContractHash(hashes: Hashes, secretHash: Bytes): Bytes {
    if |secretHash| == 32 then hashes.ripemd160(secretHash) else secretHash
  }

  /** The reward for a taker payment and the one for a maker payment. Both sides of the swap compute it:
      a given amount is exact, without one each side uses its own estimate (`None`: no estimate). The
      payment receiver is never the target. */
  function TakerWatcherReward(otherCoinIsEth: bool, given: Option<Amount>, estimate: Option<Amount>)
    : (r: Outcome<WatcherReward>)
    ensures r.Done? <==> given.Some? || estimate.Some?
    ensures r.Done? ==> r.value.rewardTarget != PaymentReceiver && (r.value.isExactAmount <==> given.Some?)
    ensures r.Done? ==> (if given.Some? then given else estimate) == Some(r.value.amount)
  {
    var amount :- OrFail(if given.Some? then given else estimate);
    Done(WatcherReward(amount, given.Some?, if otherCoinIsEth then Contract else PaymentSender, false))
  }

  function MakerWatcherReward(otherCoinIsEth: bool, given: Option<Amount>, estimate: Option<Amount>)
    : (r: Outcome<WatcherReward>)
    ensures r.Done? <==> given.Some? || estimate.Some?
    ensures r.Done? ==> r.value.rewardTarget != PaymentReceiver && (r.value.isExactAmount <==> given.Some?)
    ensures r.Done? ==> (if given.Some? then given else estimate) == Some(r.value.amount)
  {
    var amount :- OrFail(if given.Some? then given else estimate);
    Done(WatcherReward(amount, given.Some?, if otherCoinIsEth then NoReward else PaymentSpender, otherCoinIsEth))
  }

  /** Where the rewards go, with the codes of the contract: a taker's reward is kept by the contract for a swap
      against ETH and returned to the sender otherwise; a maker's goes to the spender, unless the swap is
      against ETH, when the contract pays one out on spend. */
  lemma CreatedRewards(otherCoinIsEth: bool, amount: Amount)
    ensures var taker := TakerWatcherReward(otherCoinIsEth, Some(amount), None).value;
            var maker := MakerWatcherReward(otherCoinIsEth, Some(amount), None).value;
            if otherCoinIsEth then
              && taker.rewardTarget == Contract && TargetCode(taker.rewardTarget) == 1
              && maker.rewardTarget == NoReward && TargetCode(maker.rewardTarget) == 0
              && !taker.sendContractRewardOnSpend && maker.sendContractRewardOnSpend
            else
              && taker.rewardTarget == PaymentSender && TargetCode(taker.rewardTarget) == 2
              && maker.rewardTarget == PaymentSpender && TargetCode(maker.rewardTarget) == 3
              && !taker.sendContractRewardOnSpend && !maker.sendContractRewardOnSpend
    ensures forall given, estimate :: TakerWatcherReward(otherCoinIsEth, given, estimate).Done? ==>
              var r, taker := TakerWatcherReward(otherCoinIsEth, given, estimate).value,
                              TakerWatcherReward(otherCoinIsEth, Some(amount), None).value;
              r.rewardTarget == taker.rewardTarget && r.sendContractRewardOnSpend == taker.sendContractRewardOnSpend
    ensures forall given, estimate :: MakerWatcherReward(otherCoinIsEth, given, estimate).Done? ==>
              var r, maker := MakerWatcherReward(otherCoinIsEth, given, estimate).value,
                              MakerWatcherReward(otherCoinIsEth, Some(amount), None).value;
              r.rewardTarget == maker.rewardTarget && r.sendContractRewardOnSpend == maker.sendContractRewardOnSpend
    ensures TargetCode(PaymentReceiver) == 4
  {}

  // --- building a payment ------------------------------------------------------------------------------

  /** The three reward arguments of a call, or none. */
  function RewardTokens(reward: Option<WatcherReward>, rewardAmount: nat): seq<Token> {
    if reward.None? then [] else
    [Uint(TargetCode(reward.value.rewardTarget)), Bool(reward.value.sendContractRewardOnSpend), Uint(rewardAmount)]
  }

  function RewardWei(coin: Coin, reward: Option<WatcherReward>): Outcome<nat> {
    if reward.None? then Done(0) else Wei(coin, reward.value.amount)
  }

  /** The reward for `reward`, if its target is one of `targets`. */
  function RewardFor(reward: Option<WatcherReward>, targets: set<RewardTarget>, rewardAmount: nat): (r: nat)
    ensures r <= rewardAmount
  {
    if reward.Some? && reward.value.rewardTarget in targets then rewardAmount else 0
  }

  function EthArgs(id: Token, receiver: Address, hash: Token, timeLock: nat, rewardTokens: seq<Token>): seq<Token> {
    [id, Addr(receiver), hash, Uint(timeLock)] + rewardTokens
  }

  function Erc20Args(id: Token, amount: nat, token: Address, receiver: Address, hash: Token, timeLock: nat,
                     rewardTokens: seq<Token>): seq<Token>
  {
    [id, Uint(amount), Addr(token), Addr(receiver), hash, Uint(timeLock)] + rewardTokens
  }

  function SendPayment(coin: Coin, hashes: Hashes, args: PaymentTerms): Outcome<Tx> {
    var receiver :- OrFail(args.otherParty);
    var contract :- OrFail(args.swapContract);
    var id := FixedBytes(hashes.swapId(args.timeLock, args.secretHash));
    var tradeAmount :- Wei(coin, args.amount);
    var hash := FixedBytes(ContractHash(hashes, args.secretHash));
    var reward := args.watcherReward;
    var rewardAmount :- RewardWei(coin, reward);
    match coin.coinType
    case Eth => SendEth(coin, contract, id, receiver, hash, args.timeLock, tradeAmount, reward, rewardAmount)
    case Erc20(token) =>
      SendErc20(coin, contract, token, id, receiver, hash, args.timeLock, tradeAmount, reward, rewardAmount)
  }

  function SendEth(coin: Coin, contract: Address, id: Token, receiver: Address, hash: Token, timeLock: nat,
                   tradeAmount: nat, reward: Option<WatcherReward>, rewardAmount: nat): Outcome<Tx>
  {
    // every target but `NoReward`
    var added := RewardFor(reward, {Contract, PaymentSender, PaymentSpender, PaymentReceiver}, rewardAmount);
    var value :- Add256(tradeAmount, added);
    var data :- Encode(EthPayment(reward.Some?),
                       EthArgs(id, receiver, hash, timeLock, RewardTokens(reward, rewardAmount)));
    Done(Tx(coin.myAddress, CallTo(contract), value, data))
  }

  function SendErc20(coin: Coin, contract: Address, token: Address, id: Token, receiver: Address, hash: Token,
                     timeLock: nat, tradeAmount: nat, reward: Option<WatcherReward>, rewardAmount: nat): Outcome<Tx>
  {
    var value := RewardFor(reward, {Contract, PaymentSender}, rewardAmount);
    var amount :- Add256(tradeAmount, RewardFor(reward, {PaymentSpender}, rewardAmount));
    var data :- Encode(Erc20Payment(reward.Some?),
                       Erc20Args(id, amount, token, receiver, hash, timeLock, RewardTokens(reward, rewardAmount)));
    Done(Tx(coin.myAddress, CallTo(contract), value, data))
  }

  // --- validating a payment ------------------------------------------------------------------------------

  /** Five percent below, rounded down. */
  function RewardLowerBoundary(reward: nat): (low: nat)
    ensures 100 * low <= 100 * reward - 5 * reward < 100 * (low + 1)
  {
    reward * 95 / 100
  }

  /** Five percent above, rounded down, but at most what 64 bits can hold. */
  function RewardUpperBoundary(reward: nat): (high: nat)
    ensures 100 * high <= 100 * reward + 5 * reward
    ensures high < U64_LIMIT - 1 ==> 100 * reward + 5 * reward < 100 * (high + 1)
  {
    if reward * 105 / 100 < U64_LIMIT then reward * 105 / 100 else U64_LIMIT - 1
  }

  function ValidateWatcherReward(expected: nat, actual: nat, isExact: bool): Outcome<()> {
    if isExact then Check(actual == expected)
    else Check(RewardLowerBoundary(expected) <= actual <= RewardUpperBoundary(expected))
  }

  const STATE_SENT: nat := 1

  /** Checks the reward arguments, which start at `at`, and returns the reward paid. */
  function ValidateReward(coin: Coin, reward: WatcherReward, decoded: seq<Token>, at: nat): Outcome<nat>
    requires at + 3 == |decoded| && decoded[at + 2].Uint?
  {
    var _ :- Check(decoded[at] == Uint(TargetCode(reward.rewardTarget)));
    var _ :- Check(decoded[at + 1] == Bool(reward.sendContractRewardOnSpend));
    var expectedReward :- Wei(coin, reward.amount);
    var actualReward := decoded[at + 2].number;
    var expected64 :- AsU64(expectedReward);
    var actual64 :- AsU64(actualReward);
    var _ :- ValidateWatcherReward(expected64, actual64, reward.isExactAmount);
    Done(actualReward)
  }

  /** `coin` is the receiver's coin, `input.otherParty` the sender; `status` and `onChain` are the
      node's answers for the swap id and for the transaction hash. */
  function ValidatePayment(coin: Coin, hashes: Hashes, input: PaymentTerms, status: nat, onChain: Option<Tx>)
    : Outcome<()>
  {
    var contract :- OrFail(input.swapContract);
    var sender :- OrFail(input.otherParty);
    var id := FixedBytes(hashes.swapId(input.timeLock, input.secretHash));
    var hash := FixedBytes(ContractHash(hashes, input.secretHash));
    var tradeAmount :- Wei(coin, input.amount);
    var _ :- Check(status == STATE_SENT);
    var tx :- OrFail(onChain);
    var _ :- Check(tx.sender == sender);
    var _ :- Check(tx.action == CallTo(contract));
    match coin.coinType
    case Eth => ValidateEth(coin, input, id, hash, tradeAmount, tx)
    case Erc20(token) => ValidateErc20(coin, input, token, id, hash, tradeAmount, tx)
  }

  function ValidateEth(coin: Coin, input: PaymentTerms, id: Token, hash: Token, tradeAmount: nat, tx: Tx)
    : Outcome<()>
  {
    var reward := input.watcherReward;
    var decoded :- Decode(EthPayment(reward.Some?), tx.data);
    var _ :- Check(decoded[..4] == [id, Addr(coin.myAddress), hash, Uint(input.timeLock)]);
    var actualReward :- if reward.Some? then ValidateReward(coin, reward.value, decoded, 4) else Done(0);
    var added := RewardFor(reward, {Contract, PaymentSender, PaymentSpender}, actualReward);
    var expectedValue :- Add256(tradeAmount, added);
    Check(tx.value == expectedValue)
  }

  /** The token amount is compared only when there is a reward. */
  function ValidateErc20(coin: Coin, input: PaymentTerms, token: Address, id: Token, hash: Token,
                         tradeAmount: nat, tx: Tx)
    : Outcome<()>
  {
    var reward := input.watcherReward;
    var decoded :- Decode(Erc20Payment(reward.Some?), tx.data);
    var _ :- Check(decoded[0] == id);
    var _ :- Check(decoded[2..6] == [Addr(token), Addr(coin.myAddress), hash, Uint(input.timeLock)]);
    var actualReward :-
      if reward.Some? then
        var paid :- ValidateReward(coin, reward.value, decoded, 6);
        var expectedAmount :- Add256(tradeAmount, RewardFor(reward, {PaymentSpender}, paid));
        var _ :- Check(decoded[1] == Uint(expectedAmount));
        Done(paid)
      else Done(0);
    Check(tx.value == RewardFor(reward, {Contract, PaymentSender}, actualReward))
  }

  // --- an honest payment is accepted ---------------------------------------------------------------------

  /** The sender's and the receiver's view of one payment. They need not have the same reward in mind. */
  ghost predicate SameDeal(sender: Coin, receiver: Coin, sent: PaymentTerms, expected: PaymentTerms) {
    && sender.coinType == receiver.coinType && sender.toWei == receiver.toWei
    && sent.otherParty == Some(receiver.myAddress) && expected.otherParty == Some(sender.myAddress)
    && expected == sent.(otherParty := expected.otherParty, watcherReward := expected.watcherReward)
  }

  /** Where the two sides differ: only the ETH sender adds a reward for the payment receiver. */
  ghost predicate TargetsAgree(coin: Coin, reward: Option<WatcherReward>, rewardAmount: nat) {
    reward.Some? && coin.coinType == Eth && reward.value.rewardTarget == PaymentReceiver ==> rewardAmount == 0
  }

  /** The paid reward is the expected one, or, without an exact amount, at most five percent away from it;
      below it a fraction of a unit more is tolerated. */
  ghost predicate WithinMargin(expected: nat, paid: nat, exact: bool) {
    if exact then paid == expected
    else 95 * expected < 100 * (paid + 1) && 100 * paid <= 105 * expected
  }

  /** The receiver, who expects `own`, takes `paid` for it. */
  ghost predicate TakesReward(coin: Coin, own: WatcherReward, paid: WatcherReward) {
    && own.rewardTarget == paid.rewardTarget && own.sendContractRewardOnSpend == paid.sendContractRewardOnSpend
    && Wei(coin, own.amount).Done? && Wei(coin, paid.amount).Done?
    && Wei(coin, own.amount).value < U64_LIMIT && Wei(coin, paid.amount).value < U64_LIMIT
    && WithinMargin(Wei(coin, own.amount).value, Wei(coin, paid.amount).value, own.isExactAmount)
  }

  /** Both sides expect a reward or neither does; an expected one is taken. */
  ghost predicate RewardsMatch(coin: Coin, own: Option<WatcherReward>, paid: Option<WatcherReward>) {
    match own
    case None => paid.None?
    case Some(reward) => paid.Some? && TakesReward(coin, reward, paid.value)
  }

  lemma WatcherRewardIsValidIff(expected: nat, paid: nat, exact: bool)
    requires expected < U64_LIMIT && paid < U64_LIMIT
    ensures ValidateWatcherReward(expected, paid, exact) == Done(()) <==> WithinMargin(expected, paid, exact)
  {}

  lemma HonestRewardIsAcceptedIff(coin: Coin, own: WatcherReward, paid: WatcherReward, decoded: seq<Token>, at: nat)
    requires at + 3 == |decoded| && Wei(coin, paid.amount).Done?
    requires decoded[at..] == RewardTokens(Some(paid), Wei(coin, paid.amount).value)
    ensures ValidateReward(coin, own, decoded, at).Done? <==> TakesReward(coin, own, paid)
    ensures ValidateReward(coin, own, decoded, at).Done? ==>
              ValidateReward(coin, own, decoded, at).value == Wei(coin, paid.amount).value
  {
    var amount := Wei(coin, paid.amount).value;
    assert decoded[at..][0] == decoded[at] && decoded[at..][1] == decoded[at + 1];
    assert decoded[at..][2] == decoded[at + 2];
    TargetCodesDiffer(own.rewardTarget, paid.rewardTarget);
    var expected := Wei(coin, own.amount);
    if expected.Done? && expected.value < U64_LIMIT && amount < U64_LIMIT {
      WatcherRewardIsValidIff(expected.value, amount, own.isExactAmount);
    }
  }

  lemma TargetCodesDiffer(t: RewardTarget, u: RewardTarget)
    ensures TargetCode(t) == TargetCode(u) <==> t == u
  {}

  /** An honestly built payment, once mined, is accepted exactly when the hash has the 20 bytes of the
      contract, the reward is one the receiver takes and its target is one both sides treat alike. */
  lemma HonestPaymentIsAcceptedIff(sender: Coin, receiver: Coin, hashes: Hashes,
                                   sent: PaymentTerms, expected: PaymentTerms)
    requires SameDeal(sender, receiver, sent, expected)
    requires SendPayment(sender, hashes, sent).Done?
    ensures var tx := SendPayment(sender, hashes, sent).value;
            ValidatePayment(receiver, hashes, expected, STATE_SENT, Some(tx)) == Done(()) <==>
            && |ContractHash(hashes, sent.secretHash)| == 20
            && RewardsMatch(receiver, expected.watcherReward, sent.watcherReward)
            && TargetsAgree(sender, sent.watcherReward, RewardWei(sender, sent.watcherReward).value)
  {
    var tx := SendPayment(sender, hashes, sent).value;
    match sender.coinType
    case Eth => HonestEthPayment(sender, receiver, hashes, sent, expected, tx);
    case Erc20(_) => HonestErc20Payment(sender, receiver, hashes, sent, expected, tx);
  }

  /** The reward one side of a swap computes for a payment of the taker or of the maker. */
  function SwapReward(takerPayment: bool, otherCoinIsEth: bool, given: Option<Amount>, estimate: Option<Amount>)
    : Outcome<WatcherReward>
  {
    if takerPayment then TakerWatcherReward(otherCoinIsEth, given, estimate)
    else MakerWatcherReward(otherCoinIsEth, given, estimate)
  }

  /** For the rewards the two sides compute, with or without a given amount and each with its own estimate,
      only the amounts matter. */
  lemma SwapPaymentIsAcceptedIff(sender: Coin, receiver: Coin, hashes: Hashes, sent: PaymentTerms,
                                 expected: PaymentTerms, takerPayment: bool, otherCoinIsEth: bool,
                                 sendersGiven: Option<Amount>, sendersEstimate: Option<Amount>,
                                 receiversGiven: Option<Amount>, receiversEstimate: Option<Amount>)
    requires SameDeal(sender, receiver, sent, expected)
    requires SendPayment(sender, hashes, sent).Done? && sent.watcherReward.Some? && expected.watcherReward.Some?
    requires SwapReward(takerPayment, otherCoinIsEth, sendersGiven, sendersEstimate) == Done(sent.watcherReward.value)
    requires SwapReward(takerPayment, otherCoinIsEth, receiversGiven, receiversEstimate)
          == Done(expected.watcherReward.value)
    ensures var tx := SendPayment(sender, hashes, sent).value;
            var paid := Wei(receiver, sent.watcherReward.value.amount);
            var own := Wei(receiver, expected.watcherReward.value.amount);
            ValidatePayment(receiver, hashes, expected, STATE_SENT, Some(tx)) == Done(()) <==>
            && |ContractHash(hashes, sent.secretHash)| == 20
            && own.Done? && own.value < U64_LIMIT && paid.value < U64_LIMIT
            && WithinMargin(own.value, paid.value, receiversGiven.Some?)
  {
    HonestPaymentIsAcceptedIff(sender, receiver, hashes, sent, expected);
  }

  /** What decoding returns for arguments that are all typed as declared but a 20-byte one. */
  lemma EncodedWithHash(f: Function, given: seq<Token>, k: nat)
    requires Encode(f, given).Done? && k < |given| && Params(f)[k] == BytesParam(20) && given[k].FixedBytes?
    requires forall i :: 0 <= i < |given| && i != k ==> HasType(given[i], Params(f)[i])
    ensures |given[k].bytes| <= 20
    ensures Decode(f, Encode(f, given).value) == Done(given[k := Padded(given[k], BytesParam(20))])
  {
    assert Encodable(given[k], Params(f)[k]);
    assert Encode(f, given).value.args == given[k := Padded(given[k], BytesParam(20))];
  }

  /** Every argument but the hash is typed as the contract declares it. */
  lemma EthArgsAreTyped(id: Bytes32, receiver: Address, hash: Token, timeLock: nat,
                        reward: Option<WatcherReward>, rewardAmount: nat)
    ensures var args := EthArgs(FixedBytes(id), receiver, hash, timeLock, RewardTokens(reward, rewardAmount));
            && |args| == |Params(EthPayment(reward.Some?))| && args[2] == hash
            && forall i :: 0 <= i < |args| && i != 2 ==> HasType(args[i], Params(EthPayment(reward.Some?))[i])
  {}

  lemma Erc20ArgsAreTyped(id: Bytes32, amount: nat, token: Address, receiver: Address, hash: Token, timeLock: nat,
                          reward: Option<WatcherReward>, rewardAmount: nat)
    ensures var args := Erc20Args(FixedBytes(id), amount, token, receiver, hash, timeLock,
                                  RewardTokens(reward, rewardAmount));
            && |args| == |Params(Erc20Payment(reward.Some?))| && args[4] == hash
            && forall i :: 0 <= i < |args| && i != 4 ==> HasType(args[i], Params(Erc20Payment(reward.Some?))[i])
  {}

  /** The arguments of a built ETH payment: the given ones, with the hash padded to 20 bytes. */
  lemma BuiltEthPayment(coin: Coin, hashes: Hashes, terms: PaymentTerms, tx: Tx)
    requires coin.coinType == Eth && SendPayment(coin, hashes, terms) == Done(tx)
    ensures |ContractHash(hashes, terms.secretHash)| <= 20
    ensures Decode(EthPayment(terms.watcherReward.Some?), tx.data) ==
            Done(EthArgs(FixedBytes(hashes.swapId(terms.timeLock, terms.secretHash)), terms.otherParty.value,
                         FixedBytes(ContractHash(hashes, terms.secretHash)), terms.timeLock,
                         RewardTokens(terms.watcherReward, RewardWei(coin, terms.watcherReward).value))
                 [2 := Padded(FixedBytes(ContractHash(hashes, terms.secretHash)), BytesParam(20))])
  {
    var id, hash := hashes.swapId(terms.timeLock, terms.secretHash), FixedBytes(ContractHash(hashes, terms.secretHash));
    var reward := RewardWei(coin, terms.watcherReward).value;
    EthArgsAreTyped(id, terms.otherParty.value, hash, terms.timeLock, terms.watcherReward, reward);
    EncodedWithHash(EthPayment(terms.watcherReward.Some?),
                    EthArgs(FixedBytes(id), terms.otherParty.value, hash, terms.timeLock,
                            RewardTokens(terms.watcherReward, reward)), 2);
  }

  lemma HonestEthPayment(sender: Coin, receiver: Coin, hashes: Hashes,
                         sent: PaymentTerms, expected: PaymentTerms, tx: Tx)
    requires SameDeal(sender, receiver, sent, expected) && sender.coinType == Eth
    requires SendPayment(sender, hashes, sent) == Done(tx)
    ensures ValidatePayment(receiver, hashes, expected, STATE_SENT, Some(tx)) == Done(()) <==>
            && |ContractHash(hashes, sent.secretHash)| == 20
            && RewardsMatch(receiver, expected.watcherReward, sent.watcherReward)
            && TargetsAgree(sender, sent.watcherReward, RewardWei(sender, sent.watcherReward).value)
  {
    BuiltEthPayment(sender, hashes, sent, tx);
    var args := Decode(EthPayment(sent.watcherReward.Some?), tx.data).value;
    if sent.watcherReward.Some? && expected.watcherReward.Some? {
      HonestRewardIsAcceptedIff(receiver, expected.watcherReward.value, sent.watcherReward.value, args, 4);
    }
    var hash := FixedBytes(ContractHash(hashes, sent.secretHash));
    assert args[..4] == [args[0], args[1], Padded(hash, BytesParam(20)), args[3]];
    assert Padded(hash, BytesParam(20)) == hash <==> |hash.bytes| == 20;
  }

  /** The same for an ERC-20 payment; the hash is its fifth argument. */
  lemma BuiltErc20Payment(coin: Coin, hashes: Hashes, terms: PaymentTerms, tx: Tx)
    requires coin.coinType.Erc20? && SendPayment(coin, hashes, terms) == Done(tx)
    ensures |ContractHash(hashes, terms.secretHash)| <= 20
    ensures var reward := RewardWei(coin, terms.watcherReward).value;
            Decode(Erc20Payment(terms.watcherReward.Some?), tx.data) ==
            Done(Erc20Args(FixedBytes(hashes.swapId(terms.timeLock, terms.secretHash)),
                           Wei(coin, terms.amount).value
                           + RewardFor(terms.watcherReward, {PaymentSpender}, reward),
                           coin.coinType.tokenAddr, terms.otherParty.value,
                           FixedBytes(ContractHash(hashes, terms.secretHash)),
                           terms.timeLock, RewardTokens(terms.watcherReward, reward))
                 [4 := Padded(FixedBytes(ContractHash(hashes, terms.secretHash)), BytesParam(20))])
  {
    SendErc20Decodes(coin, terms.swapContract.value, coin.coinType.tokenAddr,
                     hashes.swapId(terms.timeLock, terms.secretHash), terms.otherParty.value,
                     ContractHash(hashes, terms.secretHash), terms.timeLock, Wei(coin, terms.amount).value,
                     terms.watcherReward, RewardWei(coin, terms.watcherReward).value, tx);
  }

  lemma SendErc20Decodes(coin: Coin, contract: Address, token: Address, id: Bytes32, receiver: Address, hash: Bytes,
                         timeLock: nat, tradeAmount: nat, reward: Option<WatcherReward>, rewardAmount: nat, tx: Tx)
    requires SendErc20(coin, contract, token, FixedBytes(id), receiver, FixedBytes(hash), timeLock, tradeAmount,
                       reward, rewardAmount) == Done(tx)
    ensures |hash| <= 20
    ensures Decode(Erc20Payment(reward.Some?), tx.data) ==
            Done(Erc20Args(FixedBytes(id), tradeAmount + RewardFor(reward, {PaymentSpender}, rewardAmount), token,
                           receiver, FixedBytes(hash), timeLock, RewardTokens(reward, rewardAmount))
                 [4 := Padded(FixedBytes(hash), BytesParam(20))])
  {
    var amount := tradeAmount + RewardFor(reward, {PaymentSpender}, rewardAmount);
    var args := Erc20Args(FixedBytes(id), amount, token, receiver, FixedBytes(hash), timeLock,
                          RewardTokens(reward, rewardAmount));
    Erc20ArgsAreTyped(id, amount, token, receiver, FixedBytes(hash), timeLock, reward, rewardAmount);
    EncodedWithHash(Erc20Payment(reward.Some?), args, 4);
  }

  lemma HonestErc20Payment(sender: Coin, receiver: Coin, hashes: Hashes,
                           sent: PaymentTerms, expected: PaymentTerms, tx: Tx)
    requires SameDeal(sender, receiver, sent, expected) && sender.coinType.Erc20?
    requires SendPayment(sender, hashes, sent) == Done(tx)
    ensures ValidatePayment(receiver, hashes, expected, STATE_SENT, Some(tx)) == Done(()) <==>
            && |ContractHash(hashes, sent.secretHash)| == 20
            && RewardsMatch(receiver, expected.watcherReward, sent.watcherReward)
  {
    BuiltErc20Payment(sender, hashes, sent, tx);
    var args := Decode(Erc20Payment(sent.watcherReward.Some?), tx.data).value;
    var hash := FixedBytes(ContractHash(hashes, sent.secretHash));
    assert args[2..6] == [args[2], args[3], Padded(hash, BytesParam(20)), args[5]];
    assert Padded(hash, BytesParam(20)) == hash <==> |hash.bytes| == 20;
    var reward := RewardWei(sender, sent.watcherReward).value;
    assert args[6..] == RewardTokens(sent.watcherReward, reward);
    HonestErc20Args(sender, receiver, sent, expected, args, hash, reward, tx);
  }

  /** The receiver's checks on the arguments of an honest ERC-20 payment. */
  lemma HonestErc20Args(sender: Coin, receiver: Coin, sent: PaymentTerms, expected: PaymentTerms,
                        args: seq<Token>, hash: Token, reward: nat, tx: Tx)
    requires SameDeal(sender, receiver, sent, expected) && sender.coinType.Erc20?
    requires Wei(sender, sent.amount).Done? && RewardWei(sender, sent.watcherReward) == Done(reward)
    requires Decode(Erc20Payment(sent.watcherReward.Some?), tx.data) == Done(args)
    requires args[6..] == RewardTokens(sent.watcherReward, reward)
    requires args[1] == Uint(Wei(sender, sent.amount).value + RewardFor(sent.watcherReward, {PaymentSpender}, reward))
    requires args[1].number < U256_LIMIT
    requires args[2..6] == [Addr(sender.coinType.tokenAddr), Addr(receiver.myAddress), args[4], Uint(sent.timeLock)]
    requires tx.value == RewardFor(sent.watcherReward, {Contract, PaymentSender}, reward)
    ensures ValidateErc20(receiver, expected, sender.coinType.tokenAddr, args[0], hash,
                          Wei(sender, sent.amount).value, tx) == Done(()) <==>
            args[4] == hash && RewardsMatch(receiver, expected.watcherReward, sent.watcherReward)
  {
    assert args[2..6][2] == args[4];
    if sent.watcherReward.Some? && expected.watcherReward.Some? {
      HonestRewardIsAcceptedIff(receiver, expected.watcherReward.value, sent.watcherReward.value, args, 6);
    }
  }

  // --- what a payment carries -----------------------------------------------------------------------------

  /** What an ETH payment is worth: the reward is added for every target but `NoReward`. */
  ghost predicate EthValueIs(value: nat, trade: nat, target: RewardTarget, reward: nat) {
    match target
    case NoReward => value == trade
    case Contract => value == trade + reward
    case PaymentSender => value == trade + reward
    case PaymentSpender => value == trade + reward
    case PaymentReceiver => value == trade + reward
  }

  /** Where the reward of a token payment is: in the tokens for the spender, in the value of the transaction
      for the contract and the sender, nowhere otherwise. */
  ghost predicate TokensAndValueAre(tokens: nat, value: nat, trade: nat, target: RewardTarget, reward: nat) {
    match target
    case NoReward => tokens == trade && value == 0
    case Contract => tokens == trade && value == reward
    case PaymentSender => tokens == trade && value == reward
    case PaymentSpender => tokens == trade + reward && value == 0
    case PaymentReceiver => tokens == trade && value == 0
  }

  /** A built payment is sent by the payer to the agreed contract. */
  lemma BuiltPaymentIsSentToTheContract(coin: Coin, hashes: Hashes, terms: PaymentTerms, tx: Tx)
    requires SendPayment(coin, hashes, terms) == Done(tx)
    ensures tx.sender == coin.myAddress && terms.swapContract.Some? && tx.action == CallTo(terms.swapContract.value)
    ensures Wei(coin, terms.amount).Done? && terms.otherParty.Some?
    ensures terms.watcherReward.Some? ==> Wei(coin, terms.watcherReward.value.amount).Done?
    ensures IsPaymentOf(coin, tx, terms.watcherReward.Some?)
  {
    if coin.coinType == Eth {
      BuiltEthPayment(coin, hashes, terms, tx);
    } else {
      BuiltErc20Payment(coin, hashes, terms, tx);
    }
  }

  /** What a built ETH payment carries. */
  lemma BuiltEthPaymentCarries(coin: Coin, hashes: Hashes, terms: PaymentTerms, tx: Tx)
    requires coin.coinType == Eth && SendPayment(coin, hashes, terms) == Done(tx)
    ensures Wei(coin, terms.amount).Done? && IsPaymentOf(coin, tx, terms.watcherReward.Some?)
    ensures match terms.watcherReward
            case None => tx.value == Wei(coin, terms.amount).value
            case Some(r) =>
              && Wei(coin, r.amount).Done?
              && EthValueIs(tx.value, Wei(coin, terms.amount).value, r.rewardTarget, Wei(coin, r.amount).value)
              && tx.data.args[4..] == [Uint(TargetCode(r.rewardTarget)), Bool(r.sendContractRewardOnSpend),
                                       Uint(Wei(coin, r.amount).value)]
  {
    BuiltEthPayment(coin, hashes, terms, tx);
  }

  /** What a built ERC-20 payment carries. */
  lemma BuiltErc20PaymentCarries(coin: Coin, hashes: Hashes, terms: PaymentTerms, tx: Tx)
    requires coin.coinType.Erc20? && SendPayment(coin, hashes, terms) == Done(tx)
    ensures Wei(coin, terms.amount).Done? && IsPaymentOf(coin, tx, terms.watcherReward.Some?)
    ensures tx.data.args[1].Uint?
    ensures match terms.watcherReward
            case None => tx.data.args[1].number == Wei(coin, terms.amount).value && tx.value == 0
            case Some(r) =>
              && Wei(coin, r.amount).Done?
              && TokensAndValueAre(tx.data.args[1].number, tx.value, Wei(coin, terms.amount).value,
                                   r.rewardTarget, Wei(coin, r.amount).value)
              && tx.data.args[6..] == [Uint(TargetCode(r.rewardTarget)), Bool(r.sendContractRewardOnSpend),
                                       Uint(Wei(coin, r.amount).value)]
  {
    BuiltErc20Payment(coin, hashes, terms, tx);
  }

  /** The hash in a payment: 20 bytes are used as they are, 32 bytes are shortened; no other length gives 20. */
  lemma HashOfThePayment(hashes: Hashes, secretHash: Bytes)
    ensures |ContractHash(hashes, secretHash)| == 20 <==> |secretHash| == 20 || |secretHash| == 32
    ensures |secretHash| == 20 ==> ContractHash(hashes, secretHash) == secretHash
    ensures |secretHash| == 32 ==> ContractHash(hashes, secretHash) == hashes.ripemd160(secretHash)
  {}

  /** The sum that has to fit into 256 bits: what is added to the trade amount. */
  ghost function AddedToTrade(coin: Coin, reward: Option<WatcherReward>): nat {
    match reward
    case None => 0
    case Some(r) =>
      if !Wei(coin, r.amount).Done? then 0
      else if coin.coinType == Eth then (if r.rewardTarget == NoReward then 0 else Wei(coin, r.amount).value)
      else if r.rewardTarget == PaymentSpender then Wei(coin, r.amount).value else 0
  }

  /** The addresses are valid, and the amounts can be converted and added. */
  ghost predicate CanBePaid(coin: Coin, terms: PaymentTerms) {
    && terms.otherParty.Some? && terms.swapContract.Some? && Wei(coin, terms.amount).Done?
    && (terms.watcherReward.Some? ==> Wei(coin, terms.watcherReward.value.amount).Done?)
    && Wei(coin, terms.amount).value + AddedToTrade(coin, terms.watcherReward) < U256_LIMIT
  }

  /** A payment is built exactly when it can be paid and the hash is no longer than 20 bytes, or has 32. */
  lemma PaymentIsBuiltIff(coin: Coin, hashes: Hashes, terms: PaymentTerms)
    ensures SendPayment(coin, hashes, terms).Done? <==>
            CanBePaid(coin, terms) && (|terms.secretHash| <= 20 || |terms.secretHash| == 32)
  {
    if coin.coinType == Eth {
      EthPaymentIsBuiltIff(coin, hashes, terms);
    } else {
      Erc20PaymentIsBuiltIff(coin, hashes, terms);
    }
  }

  lemma EthPaymentIsBuiltIff(coin: Coin, hashes: Hashes, terms: PaymentTerms)
    requires coin.coinType == Eth
    ensures SendPayment(coin, hashes, terms).Done? <==>
            CanBePaid(coin, terms) && (|terms.secretHash| <= 20 || |terms.secretHash| == 32)
  {
    if terms.otherParty.Some? && RewardWei(coin, terms.watcherReward).Done? {
      EthPaymentIsEncodedIff(coin, hashes, terms);
    }
  }

  lemma Erc20PaymentIsBuiltIff(coin: Coin, hashes: Hashes, terms: PaymentTerms)
    requires coin.coinType.Erc20?
    ensures SendPayment(coin, hashes, terms).Done? <==>
            CanBePaid(coin, terms) && (|terms.secretHash| <= 20 || |terms.secretHash| == 32)
  {
    CanBePaidIff(coin, terms);
    if CanBeConverted(coin, terms) {
      ConvertedErc20PaymentIsBuiltIff(coin, hashes, terms);
    }
  }

  ghost predicate CanBeConverted(coin: Coin, terms: PaymentTerms) {
    && terms.otherParty.Some? && terms.swapContract.Some?
    && Wei(coin, terms.amount).Done? && RewardWei(coin, terms.watcherReward).Done?
  }

  ghost predicate TokenSumFits(coin: Coin, terms: PaymentTerms)
    requires CanBeConverted(coin, terms)
  {
    Wei(coin, terms.amount).value
    + RewardFor(terms.watcherReward, {PaymentSpender}, RewardWei(coin, terms.watcherReward).value) < U256_LIMIT
  }

  lemma CanBePaidIff(coin: Coin, terms: PaymentTerms)
    requires coin.coinType.Erc20?
    ensures CanBePaid(coin, terms) <==> CanBeConverted(coin, terms) && TokenSumFits(coin, terms)
  {}

  /** What is left once everything is converted: the sum and the encoding. */
  lemma ConvertedErc20PaymentIsBuiltIff(coin: Coin, hashes: Hashes, terms: PaymentTerms)
    requires coin.coinType.Erc20? && CanBeConverted(coin, terms)
    ensures SendPayment(coin, hashes, terms).Done? <==>
            TokenSumFits(coin, terms) && (|terms.secretHash| <= 20 || |terms.secretHash| == 32)
  {
    SendErc20IsDoneIff(coin, terms.swapContract.value, coin.coinType.tokenAddr,
                       hashes.swapId(terms.timeLock, terms.secretHash), terms.otherParty.value,
                       ContractHash(hashes, terms.secretHash), terms.timeLock, Wei(coin, terms.amount).value,
                       terms.watcherReward, RewardWei(coin, terms.watcherReward).value);
    HashOfThePayment(hashes, terms.secretHash);
  }

  lemma SendErc20IsDoneIff(coin: Coin, contract: Address, token: Address, id: Bytes32, receiver: Address, hash: Bytes,
                           timeLock: nat, tradeAmount: nat, reward: Option<WatcherReward>, rewardAmount: nat)
    ensures SendErc20(coin, contract, token, FixedBytes(id), receiver, FixedBytes(hash), timeLock, tradeAmount,
                      reward, rewardAmount).Done? <==>
            tradeAmount + RewardFor(reward, {PaymentSpender}, rewardAmount) < U256_LIMIT && |hash| <= 20
  {
    var amount := tradeAmount + RewardFor(reward, {PaymentSpender}, rewardAmount);
    var args := Erc20Args(FixedBytes(id), amount, token, receiver, FixedBytes(hash), timeLock,
                          RewardTokens(reward, rewardAmount));
    Erc20ArgsAreTyped(id, amount, token, receiver, FixedBytes(hash), timeLock, reward, rewardAmount);
    EncodableIff(Erc20Payment(reward.Some?), args, 4);
  }

  lemma EncodableIff(f: Function, given: seq<Token>, k: nat)
    requires |given| == |Params(f)| && k < |given| && Params(f)[k] == BytesParam(20) && given[k].FixedBytes?
    requires forall i :: 0 <= i < |given| && i != k ==> HasType(given[i], Params(f)[i])
    ensures Encode(f, given).Done? <==> |given[k].bytes| <= 20
  {
    assert |given[k].bytes| <= 20 <==> Encodable(given[k], Params(f)[k]);
    assert forall i :: 0 <= i < |given| && i != k ==> Encodable(given[i], Params(f)[i]);
  }

  lemma EthPaymentIsEncodedIff(coin: Coin, hashes: Hashes, terms: PaymentTerms)
    requires coin.coinType == Eth && terms.otherParty.Some? && RewardWei(coin, terms.watcherReward).Done?
    ensures Encode(EthPayment(terms.watcherReward.Some?),
                   EthArgs(FixedBytes(hashes.swapId(terms.timeLock, terms.secretHash)), terms.otherParty.value,
                           FixedBytes(ContractHash(hashes, terms.secretHash)), terms.timeLock,
                           RewardTokens(terms.watcherReward, RewardWei(coin, terms.watcherReward).value))).Done? <==>
            |terms.secretHash| <= 20 || |terms.secretHash| == 32
  {
    var id, hash := hashes.swapId(terms.timeLock, terms.secretHash), FixedBytes(ContractHash(hashes, terms.secretHash));
    var reward := RewardWei(coin, terms.watcherReward).value;
    EthArgsAreTyped(id, terms.otherParty.value, hash, terms.timeLock, terms.watcherReward, reward);
    EncodableIff(EthPayment(terms.watcherReward.Some?),
                 EthArgs(FixedBytes(id), terms.otherParty.value, hash, terms.timeLock,
                         RewardTokens(terms.watcherReward, reward)), 2);
  }

  // --- spending and refunding ---------------------------------------------------------------------------

  function PaymentFunction(coin: Coin, reward: bool): Function {
    if coin.coinType == Eth then EthPayment(reward) else Erc20Payment(reward)
  }

  const NO_TOKEN: Address := 0

  function SpendArgs(coin: Coin, payment: Tx, decoded: seq<Token>, secret: Bytes, watcherReward: bool): seq<Token>
    requires |decoded| == |Params(PaymentFunction(coin, watcherReward))|
  {
    match coin.coinType
    case Eth =>
      if watcherReward then
        [decoded[0], Uint(payment.value), FixedBytes(secret), Addr(NO_TOKEN), Addr(payment.sender),
         Addr(coin.myAddress), decoded[4], decoded[5], decoded[6]]
      else
        [decoded[0], Uint(payment.value), FixedBytes(secret), Addr(NO_TOKEN), Addr(payment.sender)]
    case Erc20(token) =>
      if watcherReward then
        [decoded[0], decoded[1], FixedBytes(secret), Addr(token), Addr(payment.sender),
         Addr(coin.myAddress), decoded[6], decoded[7], decoded[8]]
      else
        [decoded[0], decoded[1], FixedBytes(secret), Addr(token), Addr(payment.sender)]
  }

  /** The receiver spends: everything but the secret is read from the payment transaction. */
  function SpendPayment(coin: Coin, payment: Tx, swapContract: Option<Address>, secret: Bytes,
                        watcherReward: bool, status: nat): Outcome<Tx>
  {
    var contract :- OrFail(swapContract);
    var decoded :- Decode(PaymentFunction(coin, watcherReward), payment.data);
    var _ :- Check(status == STATE_SENT);
    var data :- Encode(ReceiverSpend(watcherReward), SpendArgs(coin, payment, decoded, secret, watcherReward));
    Done(Tx(coin.myAddress, CallTo(contract), 0, data))
  }

  /** A watcher spends for the taker. The contract address is the one the payment called. */
  function WatcherSpend(watcher: Coin, payment: Tx, taker: Address, secret: Bytes,
                        watcherReward: bool, status: nat): Outcome<Tx>
  {
    var contract :- OrFail(if payment.action.CallTo? then Some(payment.action.contract) else None);
    var decoded :- Decode(PaymentFunction(watcher, watcherReward), payment.data);
    match watcher.coinType
    case Eth =>
      var id :- Input(decoded, 0);
      var _ :- Check(status == STATE_SENT);
      var target :- Input(decoded, 4);
      var sendsReward :- Input(decoded, 5);
      var rewardAmount :- Input(decoded, 6);
      var data :- Encode(ReceiverSpend(watcherReward),
                         [id, Uint(payment.value), FixedBytes(secret), Addr(NO_TOKEN), Addr(payment.sender),
                          Addr(taker), target, sendsReward, rewardAmount]);
      Done(Tx(watcher.myAddress, CallTo(contract), 0, data))
    case Erc20(token) =>
      var id :- Input(decoded, 0);
      var amount :- Input(decoded, 1);
      var target :- Input(decoded, 6);
      var sendsReward :- Input(decoded, 7);
      var rewardAmount :- Input(decoded, 8);
      var _ :- Check(status == STATE_SENT);
      var data :- Encode(ReceiverSpend(watcherReward),
                         [id, amount, FixedBytes(secret), Addr(token), Addr(payment.sender),
                          Addr(taker), target, sendsReward, rewardAmount]);
      Done(Tx(watcher.myAddress, CallTo(contract), 0, data))
  }

  function RefundArgs(coin: Coin, payment: Tx, decoded: seq<Token>, watcherReward: bool): seq<Token>
    requires |decoded| == |Params(PaymentFunction(coin, watcherReward))|
  {
    match coin.coinType
    case Eth =>
      if watcherReward then
        [decoded[0], Uint(payment.value), decoded[2], Addr(NO_TOKEN), Addr(coin.myAddress), decoded[1],
         decoded[4], decoded[5], decoded[6]]
      else
        [decoded[0], Uint(payment.value), decoded[2], Addr(NO_TOKEN), decoded[1]]
    case Erc20(token) =>
      if watcherReward then
        [decoded[0], decoded[1], decoded[4], Addr(token), Addr(coin.myAddress), decoded[3],
         decoded[6], decoded[7], decoded[8]]
      else
        [decoded[0], decoded[1], decoded[4], Addr(token), decoded[3]]
  }

  /** The sender takes the payment back after the lock time. */
  function RefundPayment(coin: Coin, payment: Tx, swapContract: Option<Address>, watcherReward: bool, status: nat)
    : Outcome<Tx>
  {
    var contract :- OrFail(swapContract);
    var decoded :- Decode(PaymentFunction(coin, watcherReward), payment.data);
    var _ :- Check(status == STATE_SENT);
    var data :- Encode(SenderRefund(watcherReward), RefundArgs(coin, payment, decoded, watcherReward));
    Done(Tx(coin.myAddress, CallTo(contract), 0, data))
  }

  /** A watcher refunds for the taker; only payments with a reward can be refunded this way. */
  function WatcherRefund(watcher: Coin, payment: Tx, taker: Address, status: nat): Outcome<Tx> {
    var contract :- OrFail(if payment.action.CallTo? then Some(payment.action.contract) else None);
    var decoded :- Decode(PaymentFunction(watcher, true), payment.data);
    var id :- Input(decoded, 0);
    match watcher.coinType
    case Eth =>
      var receiver :- Input(decoded, 1);
      var hash :- Input(decoded, 2);
      var _ :- Check(status == STATE_SENT);
      var target :- Input(decoded, 4);
      var sendsReward :- Input(decoded, 5);
      var rewardAmount :- Input(decoded, 6);
      var data :- Encode(SenderRefund(true),
                         [id, Uint(payment.value), hash, Addr(NO_TOKEN), Addr(taker), receiver,
                          target, sendsReward, rewardAmount]);
      Done(Tx(watcher.myAddress, CallTo(contract), 0, data))
    case Erc20(token) =>
      var amount :- Input(decoded, 1);
      var receiver :- Input(decoded, 3);
      var hash :- Input(decoded, 4);
      var target :- Input(decoded, 6);
      var sendsReward :- Input(decoded, 7);
      var rewardAmount :- Input(decoded, 8);
      var _ :- Check(status == STATE_SENT);
      var data :- Encode(SenderRefund(true),
                         [id, amount, hash, Addr(token), Addr(taker), receiver,
                          target, sendsReward, rewardAmount]);
      Done(Tx(watcher.myAddress, CallTo(contract), 0, data))
  }

  /** Reads the secret back from a spend transaction. */
  function ExtractSecret(spend: Tx, watcherReward: bool): Outcome<Bytes> {
    var tokens :- Decode(ReceiverSpend(watcherReward), spend.data);
    var _ :- Check(|tokens| >= 3);
    match tokens[2]
    case FixedBytes(secret) => Done(secret)
    case _ => Failed
  }

  // --- the tuple the contract keeps -----------------------------------------------------------------------

  /** What a payment is identified by, under the parameter names of the contract's interface. */
  datatype Tuple = Tuple(id: Token, amount: Token, hash: Token, token: Token, sender: Token, receiver: Token,
                         reward: seq<Token>)

  ghost predicate IsPaymentOf(coin: Coin, payment: Tx, reward: bool) {
    Decode(PaymentFunction(coin, reward), payment.data).Done?
  }

  ghost predicate IsCallOf(tx: Tx, f: Function) { Decode(f, tx.data).Done? }

  /** The tuple paid in; the amount of an ETH payment is the value of the transaction, its token the zero
      address. */
  ghost function PaidTuple(payment: Tx): Tuple
    requires payment.data.Call? && WellTyped(payment.data.function_, payment.data.args)
    requires payment.data.function_.EthPayment? || payment.data.function_.Erc20Payment?
  {
    var a := payment.data.args;
    if payment.data.function_.EthPayment? then
      Tuple(a[0], Uint(payment.value), a[2], Addr(0), Addr(payment.sender), a[1], a[4..])
    else
      Tuple(a[0], a[1], a[4], a[2], Addr(payment.sender), a[3], a[6..])
  }

  /** The tuple a spend claims, with the secret in the place of its hash. Without reward
      parameters the receiver is whoever sends the call. */
  ghost function ClaimedTuple(spend: Tx): Tuple
    requires spend.data.Call? && spend.data.function_.ReceiverSpend?
    requires WellTyped(spend.data.function_, spend.data.args)
  {
    var a := spend.data.args;
    if spend.data.function_.reward then Tuple(a[0], a[1], a[2], a[3], a[4], a[5], a[6..])
    else Tuple(a[0], a[1], a[2], a[3], a[4], Addr(spend.sender), [])
  }

  ghost function RefundedTuple(refund: Tx): Tuple
    requires refund.data.Call? && refund.data.function_.SenderRefund?
    requires WellTyped(refund.data.function_, refund.data.args)
  {
    var a := refund.data.args;
    if refund.data.function_.reward then Tuple(a[0], a[1], a[2], a[3], a[4], a[5], a[6..])
    else Tuple(a[0], a[1], a[2], a[3], Addr(refund.sender), a[4], [])
  }

  ghost predicate SameToken(coin: Coin, payment: Tx, reward: bool)
    requires IsPaymentOf(coin, payment, reward)
  {
    coin.coinType.Erc20? ==> PaidTuple(payment).token == Addr(coin.coinType.tokenAddr)
  }

  /** The receiver's spend of any well-formed payment claims exactly the tuple that was paid in. */
  lemma SpendReconstructsThePayment(coin: Coin, payment: Tx, contract: Address, secret: Bytes32, reward: bool)
    requires IsPaymentOf(coin, payment, reward) && SameToken(coin, payment, reward)
    requires PaidTuple(payment).receiver == Addr(coin.myAddress)
    ensures var spend := SpendPayment(coin, payment, Some(contract), secret, reward, STATE_SENT);
            && spend.Done? && IsCallOf(spend.value, ReceiverSpend(reward))
            && spend.value.action == CallTo(contract)
            && ClaimedTuple(spend.value) == PaidTuple(payment).(hash := FixedBytes(secret))
  {
    var paid := payment.data.args;
    var a := SpendArgs(coin, payment, paid, secret, reward);
    assert WellTyped(ReceiverSpend(reward), a);
    assert SpendPayment(coin, payment, Some(contract), secret, reward, STATE_SENT)
        == Done(Tx(coin.myAddress, CallTo(contract), 0, Call(ReceiverSpend(reward), a)));
    if reward {
      var k := if coin.coinType == Eth then 4 else 6;
      assert a[6..] == [paid[k], paid[k + 1], paid[k + 2]] == paid[k..];
    } else {
      assert PaidTuple(payment).reward == [];
    }
  }

  /** The sender's refund names exactly the tuple, hash included, that was paid in. */
  lemma RefundReconstructsThePayment(coin: Coin, payment: Tx, contract: Address, reward: bool)
    requires IsPaymentOf(coin, payment, reward) && SameToken(coin, payment, reward)
    requires payment.sender == coin.myAddress
    ensures var refund := RefundPayment(coin, payment, Some(contract), reward, STATE_SENT);
            && refund.Done? && IsCallOf(refund.value, SenderRefund(reward))
            && refund.value.action == CallTo(contract)
            && RefundedTuple(refund.value) == PaidTuple(payment)
  {
    var paid := payment.data.args;
    var a := RefundArgs(coin, payment, paid, reward);
    assert WellTyped(SenderRefund(reward), a);
    assert RefundPayment(coin, payment, Some(contract), reward, STATE_SENT)
        == Done(Tx(coin.myAddress, CallTo(contract), 0, Call(SenderRefund(reward), a)));
    if reward {
      var k := if coin.coinType == Eth then 4 else 6;
      assert a[6..] == [paid[k], paid[k + 1], paid[k + 2]] == paid[k..];
    } else {
      assert PaidTuple(payment).reward == [];
    }
  }

  /** The watcher's calls are the taker's own, argument for argument, whatever the state is. */
  lemma WatcherCallsAreTheTakersOwn(watcher: Coin, taker: Coin, payment: Tx, secret: Bytes, status: nat)
    requires watcher.coinType == taker.coinType && payment.action.CallTo?
    ensures var contract := Some(payment.action.contract);
            && (var own := SpendPayment(taker, payment, contract, secret, true, status);
                var forTaker := WatcherSpend(watcher, payment, taker.myAddress, secret, true, status);
                own.Done? == forTaker.Done? &&
                (own.Done? ==> forTaker.value == own.value.(sender := watcher.myAddress)))
            && (var own := RefundPayment(taker, payment, contract, true, status);
                var forTaker := WatcherRefund(watcher, payment, taker.myAddress, status);
                own.Done? == forTaker.Done? &&
                (own.Done? ==> forTaker.value == own.value.(sender := watcher.myAddress)))
  {}

  ghost predicate IsCallFrom(call: Outcome<Tx>, sender: Address, contract: Option<Address>, status: nat) {
    call.Done? ==>
      && status == 1 && call.value.sender == sender && call.value.value == 0
      && contract.Some? && call.value.action == CallTo(contract.value)
  }

  /** Spends and refunds are made only while the payment is in the sent state; they carry no value and go to the
      contract. */
  lemma CallsNeedTheSentState(coin: Coin, payment: Tx, contract: Option<Address>, secret: Bytes,
                              reward: bool, status: nat)
    ensures IsCallFrom(SpendPayment(coin, payment, contract, secret, reward, status), coin.myAddress, contract, status)
    ensures IsCallFrom(RefundPayment(coin, payment, contract, reward, status), coin.myAddress, contract, status)
  {}

  /** So are the watcher's, which go to the contract that the payment called. */
  lemma WatcherCallsNeedTheSentState(coin: Coin, payment: Tx, taker: Address, secret: Bytes, reward: bool, status: nat)
    ensures var called := if payment.action.CallTo? then Some(payment.action.contract) else None;
            && IsCallFrom(WatcherSpend(coin, payment, taker, secret, reward, status), coin.myAddress, called, status)
            && IsCallFrom(WatcherRefund(coin, payment, taker, status), coin.myAddress, called, status)
  {}

  /** Without reward parameters in the payment a watcher cannot spend. */
  lemma WatcherNeedsAReward(watcher: Coin, payment: Tx, taker: Address, secret: Bytes, status: nat)
    ensures !WatcherSpend(watcher, payment, taker, secret, false, status).Done?
  {}

  /** The secret comes back from any spend exactly when it has the 32 bytes of the contract. */
  lemma SecretComesBackIff(coin: Coin, payment: Tx, contract: Address, secret: Bytes, reward: bool)
    requires SpendPayment(coin, payment, Some(contract), secret, reward, STATE_SENT).Done?
    ensures var spend := SpendPayment(coin, payment, Some(contract), secret, reward, STATE_SENT).value;
            && ExtractSecret(spend, reward).Done?
            && (ExtractSecret(spend, reward).value == secret <==> |secret| == 32)
            && secret <= ExtractSecret(spend, reward).value
  {
    var spend := SpendPayment(coin, payment, Some(contract), secret, reward, STATE_SENT).value;
    var a := spend.data.args;
    assert Params(ReceiverSpend(reward))[2] == BytesParam(32);
    assert a[2] == Padded(FixedBytes(secret), BytesParam(32));
  }

  // --- an accepted payment is the agreed one ----------------------------------------------------------------

  /** The reward a payment with a reward carries. */
  ghost function PaidReward(payment: Tx): nat
    requires payment.data.Call? && WellTyped(payment.data.function_, payment.data.args)
    requires payment.data.function_ == EthPayment(true) || payment.data.function_ == Erc20Payment(true)
  {
    payment.data.args[|payment.data.args| - 1].number
  }

  /** Acceptance fixes state, contract, token, parties, id, hash and lock time. */
  lemma AcceptedPaymentIsTheAgreedOne(coin: Coin, hashes: Hashes, terms: PaymentTerms, status: nat, tx: Tx)
    requires ValidatePayment(coin, hashes, terms, status, Some(tx)) == Done(())
    ensures status == 1 && tx.action == CallTo(terms.swapContract.value)
    ensures IsPaymentOf(coin, tx, terms.watcherReward.Some?)
    ensures SameToken(coin, tx, terms.watcherReward.Some?)
    ensures var paid := PaidTuple(tx);
            && paid.id == FixedBytes(hashes.swapId(terms.timeLock, terms.secretHash))
            && paid.hash == FixedBytes(ContractHash(hashes, terms.secretHash))
            && Some(tx.sender) == terms.otherParty && paid.receiver == Addr(coin.myAddress)
    ensures tx.data.args[if coin.coinType == Eth then 3 else 5] == Uint(terms.timeLock)
  {
    var decoded := Decode(PaymentFunction(coin, terms.watcherReward.Some?), tx.data).value;
    if coin.coinType == Eth {
      assert decoded[..4][0] == decoded[0] && decoded[..4][1] == decoded[1];
      assert decoded[..4][2] == decoded[2] && decoded[..4][3] == decoded[3];
    } else {
      assert decoded[2..6][0] == decoded[2] && decoded[2..6][1] == decoded[3];
      assert decoded[2..6][2] == decoded[4] && decoded[2..6][3] == decoded[5];
    }
  }

  /** Acceptance of an ETH payment, or of any payment with a reward, fixes the amount; the reward
      is within the margins around the agreed one, and is where its target says. */
  lemma AcceptedAmountIsTheAgreedOne(coin: Coin, hashes: Hashes, terms: PaymentTerms, status: nat, tx: Tx)
    requires ValidatePayment(coin, hashes, terms, status, Some(tx)) == Done(())
    ensures IsPaymentOf(coin, tx, terms.watcherReward.Some?)
    ensures terms.watcherReward.None? && coin.coinType == Eth ==>
              PaidTuple(tx).amount == Uint(Wei(coin, terms.amount).value)
    ensures terms.watcherReward.Some? ==>
              var agreed, paid := terms.watcherReward.value, PaidReward(tx);
              && PaidTuple(tx).reward ==
                 [Uint(TargetCode(agreed.rewardTarget)), Bool(agreed.sendContractRewardOnSpend), Uint(paid)]
              && (agreed.isExactAmount ==> paid == Wei(coin, agreed.amount).value)
              && RewardLowerBoundary(Wei(coin, agreed.amount).value) <= paid
              && paid <= RewardUpperBoundary(Wei(coin, agreed.amount).value)
              && PaidTuple(tx).amount == Uint(Wei(coin, terms.amount).value +
                   RewardFor(terms.watcherReward,
                             if coin.coinType == Eth then {Contract, PaymentSender, PaymentSpender}
                             else {PaymentSpender},
                             paid))
              && (coin.coinType.Erc20? ==> tx.value == RewardFor(terms.watcherReward, {Contract, PaymentSender}, paid))
  {
    var decoded := Decode(PaymentFunction(coin, terms.watcherReward.Some?), tx.data).value;
    if terms.watcherReward.Some? {
      var reward := terms.watcherReward.value;
      assert ValidateReward(coin, reward, decoded, if coin.coinType == Eth then 4 else 6) == Done(PaidReward(tx));
    }
  }

  /** What an accepted payment carries. The ETH receiver does not expect a reward for himself in the value. */
  lemma AcceptedPaymentCarries(coin: Coin, hashes: Hashes, terms: PaymentTerms, status: nat, tx: Tx)
    requires ValidatePayment(coin, hashes, terms, status, Some(tx)) == Done(())
    ensures IsPaymentOf(coin, tx, terms.watcherReward.Some?) && Wei(coin, terms.amount).Done?
    ensures coin.coinType == Eth && terms.watcherReward.None? ==> tx.value == Wei(coin, terms.amount).value
    ensures coin.coinType == Eth && terms.watcherReward.Some? ==>
              if terms.watcherReward.value.rewardTarget == PaymentReceiver
              then tx.value == Wei(coin, terms.amount).value
              else EthValueIs(tx.value, Wei(coin, terms.amount).value, terms.watcherReward.value.rewardTarget,
                              PaidReward(tx))
    ensures coin.coinType.Erc20? && terms.watcherReward.None? ==> tx.value == 0
    ensures coin.coinType.Erc20? && terms.watcherReward.Some? ==>
              && tx.data.args[1].Uint?
              && TokensAndValueAre(tx.data.args[1].number, tx.value, Wei(coin, terms.amount).value,
                                   terms.watcherReward.value.rewardTarget, PaidReward(tx))
  {
    AcceptedAmountIsTheAgreedOne(coin, hashes, terms, status, tx);
  }

  /** The token amount of an ERC-20 payment without a reward is not fixed: with any other amount in its
      place the payment is judged the same. */
  lemma AcceptanceIgnoresTheTokenAmountWithoutReward(coin: Coin, hashes: Hashes, terms: PaymentTerms, status: nat,
                                                     tx: Tx, amount: nat)
    requires coin.coinType.Erc20? && terms.watcherReward.None? && tx.data.Call?
    requires |tx.data.args| > 1 && tx.data.args[1].Uint?
    ensures var other := tx.(data := tx.data.(args := tx.data.args[1 := Uint(amount)]));
            ValidatePayment(coin, hashes, terms, status, Some(other)) ==
            ValidatePayment(coin, hashes, terms, status, Some(tx))
  {
    var args := tx.data.args;
    var changed := args[1 := Uint(amount)];
    assert |args| == 6 ==> changed[2..6] == args[2..6];
    assert WellTyped(Erc20Payment(false), args) <==> WellTyped(Erc20Payment(false), changed);
  }

  /** `other` is accepted like `tx` and carries the same reward arguments. */
  ghost predicate SameReward(coin: Coin, hashes: Hashes, terms: PaymentTerms, status: nat, tx: Tx, other: Tx)
    ensures SameReward(coin, hashes, terms, status, tx, other) ==>
              var reward := terms.watcherReward.Some?;
              IsPaymentOf(coin, tx, reward) && IsPaymentOf(coin, other, reward)
  {
    && ValidatePayment(coin, hashes, terms, status, Some(tx)) == Done(())
    && ValidatePayment(coin, hashes, terms, status, Some(other)) == Done(())
    && PaidTuple(tx).reward == PaidTuple(other).reward
  }

  /** So acceptance fixes the amount exactly for ETH payments and for payments with a reward: all accepted
      payments under the same terms that carry the same reward have the same amount, and otherwise any
      amount can be put into an accepted payment. */
  lemma AcceptanceFixesTheAmountIff(coin: Coin, hashes: Hashes, terms: PaymentTerms, status: nat, tx: Tx)
    requires ValidatePayment(coin, hashes, terms, status, Some(tx)) == Done(())
    ensures (forall other: Tx :: SameReward(coin, hashes, terms, status, tx, other) ==>
               PaidTuple(other).amount == PaidTuple(tx).amount) <==>
            coin.coinType == Eth || terms.watcherReward.Some?
  {
    AcceptedAmountIsTheAgreedOne(coin, hashes, terms, status, tx);
    if coin.coinType == Eth || terms.watcherReward.Some? {
      forall other: Tx | SameReward(coin, hashes, terms, status, tx, other)
        ensures PaidTuple(other).amount == PaidTuple(tx).amount
      {
        AcceptedAmountIsTheAgreedOne(coin, hashes, terms, status, other);
      }
    } else {
      var args := tx.data.args;
      var amount := if args[1].number == 0 then 1 else 0;
      var other := tx.(data := tx.data.(args := args[1 := Uint(amount)]));
      AcceptanceIgnoresTheTokenAmountWithoutReward(coin, hashes, terms, status, tx, amount);
      AcceptedAmountIsTheAgreedOne(coin, hashes, terms, status, other);
      assert SameReward(coin, hashes, terms, status, tx, other);
    }
  }

  /** What the receiver accepted, the receiver can claim: the spend built for it matches the tuple. */
  lemma AcceptedPaymentCanBeClaimed(coin: Coin, hashes: Hashes, terms: PaymentTerms, tx: Tx, secret: Bytes32)
    requires ValidatePayment(coin, hashes, terms, STATE_SENT, Some(tx)) == Done(())
    ensures var reward := terms.watcherReward.Some?;
            var spend := SpendPayment(coin, tx, terms.swapContract, secret, reward, STATE_SENT);
            && spend.Done? && IsCallOf(spend.value, ReceiverSpend(reward))
            && IsPaymentOf(coin, tx, reward)
            && spend.value.action == tx.action
            && ClaimedTuple(spend.value) == PaidTuple(tx).(hash := FixedBytes(secret))
            && ExtractSecret(spend.value, reward) == Done(secret)
  {
    AcceptedPaymentIsTheAgreedOne(coin, hashes, terms, STATE_SENT, tx);
    var contract := terms.swapContract.value;
    SpendReconstructsThePayment(coin, tx, contract, secret, terms.watcherReward.Some?);
    SecretComesBackIff(coin, tx, contract, secret, terms.watcherReward.Some?);
  }
}
