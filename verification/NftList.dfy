/**
 The cached list of the NFTs a wallet owns. It is updated one transfer at a time; over every
 history of transfers that is valid on chain it has to equal the wallet's true holdings.
 */
module NftList {
  import opened Wrappers

  type Address = nat

  const ZERO_ADDRESS: Address := 0

  datatype Token = Token(contract: Address, tokenId: nat)

  datatype ContractType = Erc721 | Erc1155

  datatype Transfer = Transfer(
    contractType: ContractType, token: Token, from: Address, to: Address, amount: nat, blockNumber: nat)

  /** An entry of the list. The amount of an ERC-721 token is whatever its metadata says. */
  datatype Nft = Nft(amount: nat, blockNumber: nat)

  type List = map<Token, Nft>

  /** The amount in the metadata of a token, or `None` if the request fails. */
  type Metadata = Token -> Option<nat>

  datatype UpdateError =
    | TokenNotFoundInWallet | AttemptToReceiveAlreadyOwnedErc721 | InsufficientAmountInCache | NoMetadata

  datatype TransferStatus = Receive | Send

  /** A transfer to oneself counts as received. Addresses are compared ignoring case. */
  function GetTxStatus(myWallet: Address, toAddress: Address): TransferStatus {
    if myWallet == toAddress then Receive else Send
  }

  // --- the handlers ---------------------------------------------------------------------------------

  ghost function AfterSendErc721(list: List, t: Transfer): Result<List, UpdateError> {
    if t.token !in list then Err(TokenNotFoundInWallet) else Ok(list - {t.token})
  }

  ghost function AfterReceiveErc721(list: List, metadata: Metadata, my: Address, t: Transfer)
    : Result<List, UpdateError>
  {
    if t.token in list then
      if my != t.from then Err(AttemptToReceiveAlreadyOwnedErc721)
      else Ok(list[t.token := Nft(list[t.token].amount, t.blockNumber)])
    else if metadata(t.token).None? then Err(NoMetadata)
    else Ok(list[t.token := Nft(metadata(t.token).value, t.blockNumber)])
  }

  ghost function AfterSendErc1155(list: List, t: Transfer): Result<List, UpdateError> {
    if t.token !in list then Err(TokenNotFoundInWallet)
    else if list[t.token].amount == t.amount then Ok(list - {t.token})
    else if list[t.token].amount > t.amount then
      Ok(list[t.token := Nft(list[t.token].amount - t.amount, list[t.token].blockNumber)])
    else Err(InsufficientAmountInCache)
  }

  ghost function AfterReceiveErc1155(list: List, metadata: Metadata, my: Address, t: Transfer)
    : Result<List, UpdateError>
  {
    if t.token in list then
      Ok(list[t.token := Nft(list[t.token].amount + (if my != t.from then t.amount else 0), t.blockNumber)])
    else if metadata(t.token).None? then Err(NoMetadata)
    else Ok(list[t.token := Nft(t.amount, t.blockNumber)])
  }

  ghost function AfterTransfer(list: List, metadata: Metadata, my: Address, t: Transfer)
    : Result<List, UpdateError>
  {
    match (GetTxStatus(my, t.to), t.contractType)
    case (Send, Erc721) => AfterSendErc721(list, t)
    case (Receive, Erc721) => AfterReceiveErc721(list, metadata, my, t)
    case (Send, Erc1155) => AfterSendErc1155(list, t)
    case (Receive, Erc1155) => AfterReceiveErc1155(list, metadata, my, t)
  }

  /** The list after a sequence of transfers, stopping at the first error. */
  ghost function AfterTransfers(list: List, metadata: Metadata, my: Address, txs: seq<Transfer>)
    : Result<List, UpdateError>
    decreases |txs|
  {
    if txs == [] then Ok(list) else
    match AfterTransfer(list, metadata, my, txs[0])
    case Ok(next) => AfterTransfers(next, metadata, my, txs[1..])
    case Err(e) => Err(e)
  }

  lemma {:induction false} AfterOneMoreTransfer(list: List, metadata: Metadata, my: Address,
                                                txs: seq<Transfer>, t: Transfer)
    ensures AfterTransfers(list, metadata, my, txs + [t]) ==
            match AfterTransfers(list, metadata, my, txs)
            case Ok(next) => AfterTransfer(next, metadata, my, t)
            case Err(e) => Err(e)
    decreases |txs|
  {
    var all := txs + [t];
    if txs == [] {
      assert all[1..] == [];
    } else {
      assert all[1..] == txs[1..] + [t];
      var first := AfterTransfer(list, metadata, my, txs[0]);
      if first.Ok? {
        AfterOneMoreTransfer(first.value, metadata, my, txs[1..], t);
      }
    }
  }

  /** How many tokens the list shows. */
  ghost function Listed(list: List, token: Token): nat { if token in list then list[token].amount else 0 }

  /** What a caller sees: a transfer touches the entry of its token only. An ERC-721 token is listed
      afterwards exactly if it came to the wallet. The listed amount of an ERC-1155 token grows by what came
      from others and shrinks by what went to others, to nothing if all went. */
  lemma TransferChangesOneToken(list: List, metadata: Metadata, my: Address, t: Transfer)
    requires AfterTransfer(list, metadata, my, t).Ok?
    ensures var after := AfterTransfer(list, metadata, my, t).value;
            && after - {t.token} == list - {t.token}
            && (t.contractType == Erc721 ==> (t.token in after <==> t.to == my))
            && (t.contractType == Erc1155 && t.to != my ==>
                  && Listed(after, t.token) == Listed(list, t.token) - t.amount
                  && (t.token in after <==> Listed(after, t.token) > 0))
            && (t.contractType == Erc1155 && t.to == my && t.from != my ==>
                  Listed(after, t.token) == Listed(list, t.token) + t.amount)
            && (t.to == t.from == my && t.token in list ==> Listed(after, t.token) == Listed(list, t.token))
            && (t.to == my ==> t.token in after && after[t.token].blockNumber == t.blockNumber)
            && (t.to == my && t.token !in list && t.contractType == Erc721 ==>
                  metadata(t.token) == Some(after[t.token].amount))
            && (t.to == my && t.token !in list && t.contractType == Erc1155 ==> after[t.token].amount == t.amount)
            && (t.to != my && t.token in after ==> after[t.token].blockNumber == list[t.token].blockNumber)
  {
    var after := AfterTransfer(list, metadata, my, t).value;
    assert after.Keys - {t.token} == list.Keys - {t.token};
  }

  /** A transfer fails exactly if it sends what is not listed or more than is listed, receives an ERC-721
      token that is listed already from somebody else, or needs metadata that is not available. */
  lemma TransferFailsIff(list: List, metadata: Metadata, my: Address, t: Transfer)
    ensures AfterTransfer(list, metadata, my, t).Err? <==>
            || (t.to != my && t.token !in list)
            || (t.to != my && t.contractType == Erc1155 && t.amount > Listed(list, t.token))
            || (t.to == my && t.from != my && t.contractType == Erc721 && t.token in list)
            || (t.to == my && t.token !in list && metadata(t.token).None?)
    ensures AfterTransfer(list, metadata, my, t).Err? ==>
              AfterTransfer(list, metadata, my, t).error ==
              if t.to != my then (if t.token in list then InsufficientAmountInCache else TokenNotFoundInWallet)
              else if t.token in list then AttemptToReceiveAlreadyOwnedErc721 else NoMetadata
  {}

  class NftListStorage {
    var list: List

    constructor ()
      ensures list == map[]
    {
      list := map[];
    }

    /** Runs over the transfers and stops at the first error, which changes nothing itself. */
    method UpdateNftList(metadata: Metadata, my: Address, txs: seq<Transfer>) returns (r: Result<(), UpdateError>)
      modifies this
      ensures r.Ok? <==> AfterTransfers(old(list), metadata, my, txs).Ok?
      ensures r.Ok? ==> list == AfterTransfers(old(list), metadata, my, txs).value
      ensures r.Err? ==> AfterTransfers(old(list), metadata, my, txs) == Err(r.error)
      ensures r.Err? ==> exists k :: 0 <= k < |txs| && AfterTransfers(old(list), metadata, my, txs[..k]) == Ok(list)
    {
      for i := 0 to |txs|
        invariant AfterTransfers(old(list), metadata, my, txs) == AfterTransfers(list, metadata, my, txs[i..])
        invariant AfterTransfers(old(list), metadata, my, txs[..i]) == Ok(list)
      {
        assert txs[i..][1..] == txs[i + 1..];
        AfterOneMoreTransfer(old(list), metadata, my, txs[..i], txs[i]);
        assert txs[..i + 1] == txs[..i] + [txs[i]];
        var handled := HandleNftTx(metadata, my, txs[i]);
        if handled.Err? {
          return handled;
        }
      }
      return Ok(());
    }

    method HandleNftTx(metadata: Metadata, my: Address, t: Transfer) returns (r: Result<(), UpdateError>)
      modifies this
      ensures match AfterTransfer(old(list), metadata, my, t)
              case Ok(next) => r.Ok? && list == next
              case Err(e) => r == Err(e) && list == old(list)
    {
      match (GetTxStatus(my, t.to), t.contractType)
      case (Send, Erc721) => r := HandleSendErc721(t);
      case (Receive, Erc721) => r := HandleReceiveErc721(metadata, my, t);
      case (Send, Erc1155) => r := HandleSendErc1155(t);
      case (Receive, Erc1155) => r := HandleReceiveErc1155(metadata, my, t);
    }

    method HandleSendErc721(t: Transfer) returns (r: Result<(), UpdateError>)
      modifies this
      ensures match AfterSendErc721(old(list), t)
              case Ok(next) => r.Ok? && list == next
              case Err(e) => r == Err(e) && list == old(list)
    {
      if t.token !in list {
        return Err(TokenNotFoundInWallet);
      }
      list := list - {t.token};
      return Ok(());
    }

    method HandleReceiveErc721(metadata: Metadata, my: Address, t: Transfer) returns (r: Result<(), UpdateError>)
      modifies this
      ensures match AfterReceiveErc721(old(list), metadata, my, t)
              case Ok(next) => r.Ok? && list == next
              case Err(e) => r == Err(e) && list == old(list)
    {
      if t.token in list {
        if my != t.from {
          return Err(AttemptToReceiveAlreadyOwnedErc721);
        }
        var nft := list[t.token].(blockNumber := t.blockNumber);
        list := list[t.token := nft];
      } else {
        var amount := metadata(t.token);
        if amount.None? {
          return Err(NoMetadata);
        }
        list := list[t.token := Nft(amount.value, t.blockNumber)];
      }
      return Ok(());
    }

    method HandleSendErc1155(t: Transfer) returns (r: Result<(), UpdateError>)
      modifies this
      ensures match AfterSendErc1155(old(list), t)
              case Ok(next) => r.Ok? && list == next
              case Err(e) => r == Err(e) && list == old(list)
    {
      if t.token !in list {
        return Err(TokenNotFoundInWallet);
      }
      var nft := list[t.token];
      if nft.amount == t.amount {
        list := list - {t.token};
      } else if nft.amount > t.amount {
        nft := nft.(amount := nft.amount - t.amount);
        list := list[t.token := nft];
      } else {
        return Err(InsufficientAmountInCache);
      }
      return Ok(());
    }

    method HandleReceiveErc1155(metadata: Metadata, my: Address, t: Transfer) returns (r: Result<(), UpdateError>)
      modifies this
      ensures match AfterReceiveErc1155(old(list), metadata, my, t)
              case Ok(next) => r.Ok? && list == next
              case Err(e) => r == Err(e) && list == old(list)
    {
      if t.token in list {
        var nft := list[t.token];
        if my != t.from {
          nft := nft.(amount := nft.amount + t.amount);
        }
        nft := nft.(blockNumber := t.blockNumber);
        list := list[t.token := nft];
      } else {
        if metadata(t.token).None? {
          return Err(NoMetadata);
        }
        list := list[t.token := Nft(t.amount, t.blockNumber)];
      }
      return Ok(());
    }
  }

  // --- the chain ------------------------------------------------------------------------------------

  /** Who owns each ERC-721 token, and every ERC-1155 balance. The zero address mints and burns. */
  datatype Chain = Chain(kind: Token -> ContractType, owners: map<Token, Address>, balances: map<(Token, Address), nat>)

  ghost function Owner(c: Chain, token: Token): Address {
    if token in c.owners then c.owners[token] else ZERO_ADDRESS
  }

  ghost function Balance(c: Chain, token: Token, who: Address): nat {
    if (token, who) in c.balances then c.balances[(token, who)] else 0
  }

  /** The rules of EIP-721 and EIP-1155. EIP-1155 allows the amount zero. */
  ghost predicate Permitted(c: Chain, t: Transfer) {
    && c.kind(t.token) == t.contractType
    && match t.contractType
       case Erc721 => Owner(c, t.token) == t.from && t.amount > 0
       case Erc1155 => t.from == ZERO_ADDRESS || Balance(c, t.token, t.from) >= t.amount
  }

  ghost function Debited(c: Chain, t: Transfer): Chain
    requires t.from != ZERO_ADDRESS ==> Balance(c, t.token, t.from) >= t.amount
  {
    if t.from == ZERO_ADDRESS then c
    else c.(balances := c.balances[(t.token, t.from) := Balance(c, t.token, t.from) - t.amount])
  }

  /** What the transfer does on chain: first the debit, then the credit. */
  ghost function Apply(c: Chain, t: Transfer): Chain
    requires Permitted(c, t)
  {
    match t.contractType
    case Erc721 => c.(owners := c.owners[t.token := t.to])
    case Erc1155 =>
      var d := Debited(c, t);
      d.(balances := d.balances[(t.token, t.to) := Balance(d, t.token, t.to) + t.amount])
  }

  ghost predicate ValidHistory(c: Chain, h: seq<Transfer>)
    decreases |h|
  {
    h == [] || (Permitted(c, h[0]) && ValidHistory(Apply(c, h[0]), h[1..]))
  }

  ghost function ApplyAll(c: Chain, h: seq<Transfer>): Chain
    requires ValidHistory(c, h)
    decreases |h|
  {
    if h == [] then c else ApplyAll(Apply(c, h[0]), h[1..])
  }

  /** The list says what the wallet holds of `token`: it is listed iff the balance is not zero. */
  ghost predicate TokenInSync(list: List, c: Chain, my: Address, token: Token) {
    if c.kind(token) == Erc721 then token in list <==> Owner(c, token) == my
    else && (token in list <==> Balance(c, token, my) > 0)
         && (token in list ==> list[token].amount == Balance(c, token, my))
  }

  ghost predicate InSync(list: List, c: Chain, my: Address) {
    forall token :: TokenInSync(list, c, my, token)
  }

  // --- the list follows the chain ---------------------------------------------------------------------

  ghost predicate Involves(t: Transfer, my: Address) { t.from == my || t.to == my }

  lemma OthersTransfersDoNotMatter(list: List, c: Chain, my: Address, t: Transfer)
    requires InSync(list, c, my) && Permitted(c, t) && !Involves(t, my)
    ensures InSync(list, Apply(c, t), my)
  {
    forall token ensures TokenInSync(list, Apply(c, t), my, token) {
      assert TokenInSync(list, c, my, token);
    }
  }

  lemma HandlerKeepsOtherTokens(list: List, c: Chain, metadata: Metadata, my: Address, t: Transfer, token: Token)
    requires AfterTransfer(list, metadata, my, t).Ok? && Permitted(c, t) && token != t.token
    requires TokenInSync(list, c, my, token)
    ensures TokenInSync(AfterTransfer(list, metadata, my, t).value, Apply(c, t), my, token)
  {}

  lemma HandlerFollowsTheTransfer(list: List, c: Chain, metadata: Metadata, my: Address, t: Transfer)
    requires my != ZERO_ADDRESS && TokenInSync(list, c, my, t.token)
    requires Permitted(c, t) && Involves(t, my) && metadata(t.token).Some?
    ensures t.amount > 0 || t.token in list ==>
              && AfterTransfer(list, metadata, my, t).Ok?
              && TokenInSync(AfterTransfer(list, metadata, my, t).value, Apply(c, t), my, t.token)
    ensures t.amount == 0 && t.token !in list && AfterTransfer(list, metadata, my, t).Ok? ==>
              !TokenInSync(AfterTransfer(list, metadata, my, t).value, Apply(c, t), my, t.token)
  {}

  /** One permitted transfer of the wallet keeps the list in sync exactly when its amount is not
      zero or the token is already listed. */
  lemma HandlerKeepsSyncIff(list: List, c: Chain, metadata: Metadata, my: Address, t: Transfer)
    requires my != ZERO_ADDRESS && InSync(list, c, my)
    requires Permitted(c, t) && Involves(t, my) && metadata(t.token).Some?
    ensures (AfterTransfer(list, metadata, my, t).Ok? &&
             InSync(AfterTransfer(list, metadata, my, t).value, Apply(c, t), my))
            <==> (t.amount > 0 || t.token in list)
  {
    assert TokenInSync(list, c, my, t.token);
    HandlerFollowsTheTransfer(list, c, metadata, my, t);
    if t.amount > 0 || t.token in list {
      var next := AfterTransfer(list, metadata, my, t).value;
      forall token ensures TokenInSync(next, Apply(c, t), my, token) {
        if token != t.token {
          assert TokenInSync(list, c, my, token);
          HandlerKeepsOtherTokens(list, c, metadata, my, t, token);
        }
      }
    }
  }

  /** The transfers of the wallet, in order: what the history table holds. */
  ghost function Mine(h: seq<Transfer>, my: Address): seq<Transfer> {
    if h == [] then [] else
    (if Involves(h[0], my) then [h[0]] else []) + Mine(h[1..], my)
  }

  /** The wallet takes part in a transfer of zero tokens only while it holds some. */
  ghost predicate NoEmptyTransfers(c: Chain, my: Address, h: seq<Transfer>)
    requires ValidHistory(c, h)
    decreases |h|
  {
    h == [] ||
    ((Involves(h[0], my) ==> h[0].amount > 0 || Balance(c, h[0].token, my) > 0) &&
     NoEmptyTransfers(Apply(c, h[0]), my, h[1..]))
  }

  /** The handlers never fail, and the list equals the holdings after every transfer. */
  ghost predicate StaysInSync(list: List, c: Chain, metadata: Metadata, my: Address, h: seq<Transfer>)
    requires ValidHistory(c, h)
    decreases |h|
  {
    && InSync(list, c, my)
    && (h == [] ||
        if Involves(h[0], my) then
          var next := AfterTransfer(list, metadata, my, h[0]);
          next.Ok? && StaysInSync(next.value, Apply(c, h[0]), metadata, my, h[1..])
        else StaysInSync(list, Apply(c, h[0]), metadata, my, h[1..]))
  }

  /** Over every history that is valid on chain the list stays equal to the holdings, exactly if the wallet
      takes part in a transfer of zero tokens only while it holds some. */
  lemma {:induction false} ListStaysInSyncIff(list: List, c: Chain, metadata: Metadata, my: Address, h: seq<Transfer>)
    requires my != ZERO_ADDRESS && InSync(list, c, my) && ValidHistory(c, h)
    requires forall token :: metadata(token).Some?
    ensures StaysInSync(list, c, metadata, my, h) <==> NoEmptyTransfers(c, my, h)
    decreases |h|
  {
    if h != [] {
      var t := h[0];
      if Involves(t, my) {
        HandlerKeepsSyncIff(list, c, metadata, my, t);
        assert TokenInSync(list, c, my, t.token);
        var next := AfterTransfer(list, metadata, my, t);
        if t.amount > 0 || t.token in list {
          ListStaysInSyncIff(next.value, Apply(c, t), metadata, my, h[1..]);
        }
      } else {
        OthersTransfersDoNotMatter(list, c, my, t);
        ListStaysInSyncIff(list, Apply(c, t), metadata, my, h[1..]);
      }
    }
  }

  lemma {:induction false} SyncAtTheEnd(list: List, c: Chain, metadata: Metadata, my: Address, h: seq<Transfer>)
    requires ValidHistory(c, h) && StaysInSync(list, c, metadata, my, h)
    ensures AfterTransfers(list, metadata, my, Mine(h, my)).Ok?
    ensures InSync(AfterTransfers(list, metadata, my, Mine(h, my)).value, ApplyAll(c, h), my)
    decreases |h|
  {
    if h != [] {
      var t, mine := h[0], Mine(h, my);
      if Involves(t, my) {
        assert mine[0] == t && mine[1..] == Mine(h[1..], my);
        SyncAtTheEnd(AfterTransfer(list, metadata, my, t).value, Apply(c, t), metadata, my, h[1..]);
      } else {
        assert mine == Mine(h[1..], my);
        SyncAtTheEnd(list, Apply(c, t), metadata, my, h[1..]);
      }
    }
  }

  /** Over every such history the handlers never fail and the list ends up equal to the true holdings. */
  lemma ListEqualsHoldings(list: List, c: Chain, metadata: Metadata, my: Address, h: seq<Transfer>)
    requires my != ZERO_ADDRESS && InSync(list, c, my) && ValidHistory(c, h) && NoEmptyTransfers(c, my, h)
    requires forall token :: metadata(token).Some?
    ensures AfterTransfers(list, metadata, my, Mine(h, my)).Ok?
    ensures InSync(AfterTransfers(list, metadata, my, Mine(h, my)).value, ApplyAll(c, h), my)
  {
    ListStaysInSyncIff(list, c, metadata, my, h);
    SyncAtTheEnd(list, c, metadata, my, h);
  }

  /** Receiving zero tokens of an unlisted ERC-1155 token leaves an entry although the wallet holds nothing;
      sending zero of them is an error although the chain permits it. */
  lemma EmptyTransfersBreakTheList(my: Address, other: Address, token: Token, metadata: Metadata) returns (c: Chain)
    requires my != ZERO_ADDRESS && my != other && metadata(token).Some?
    ensures InSync(map[], c, my)
    ensures var received := Transfer(Erc1155, token, other, my, 0, 5);
            && Permitted(c, received)
            && AfterTransfers(map[], metadata, my, [received]) == Ok(map[token := Nft(0, 5)])
            && !InSync(map[token := Nft(0, 5)], Apply(c, received), my)
    ensures var sent := Transfer(Erc1155, token, my, other, 0, 5);
            && Permitted(c, sent)
            && AfterTransfers(map[], metadata, my, [sent]) == Err(TokenNotFoundInWallet)
  {
    c := Chain(_ => Erc1155, map[], map[]);
    var received := Transfer(Erc1155, token, other, my, 0, 5);
    assert !TokenInSync(map[token := Nft(0, 5)], Apply(c, received), my, token);
  }

  // --- amounts --------------------------------------------------------------------------------------

  ghost function ReceivedFromOthers(h: seq<Transfer>, token: Token, my: Address): nat {
    if h == [] then 0 else
    (if h[0].contractType == Erc1155 && h[0].token == token && h[0].to == my && h[0].from != my then h[0].amount else 0)
    + ReceivedFromOthers(h[1..], token, my)
  }

  ghost function SentToOthers(h: seq<Transfer>, token: Token, my: Address): nat {
    if h == [] then 0 else
    (if h[0].contractType == Erc1155 && h[0].token == token && h[0].from == my && h[0].to != my then h[0].amount else 0)
    + SentToOthers(h[1..], token, my)
  }

  /** An ERC-1155 balance is the initial one plus what others sent minus what was sent to others;
      transfers to oneself change nothing. */
  lemma {:induction false} BalanceIsConserved(c: Chain, h: seq<Transfer>, token: Token, my: Address)
    requires my != ZERO_ADDRESS && ValidHistory(c, h)
    ensures Balance(ApplyAll(c, h), token, my) ==
            Balance(c, token, my) + ReceivedFromOthers(h, token, my) - SentToOthers(h, token, my)
    decreases |h|
  {
    if h != [] {
      BalanceIsConserved(Apply(c, h[0]), h[1..], token, my);
    }
  }

  /** The listed amount of an ERC-1155 token, in terms of the history. */
  lemma ListedAmountIsConserved(list: List, c: Chain, metadata: Metadata, my: Address, h: seq<Transfer>, token: Token)
    requires my != ZERO_ADDRESS && InSync(list, c, my) && ValidHistory(c, h) && NoEmptyTransfers(c, my, h)
    requires (forall t :: metadata(t).Some?) && ApplyAll(c, h).kind(token) == Erc1155
    ensures AfterTransfers(list, metadata, my, Mine(h, my)).Ok?
    ensures var after := AfterTransfers(list, metadata, my, Mine(h, my)).value;
            var balance := Balance(c, token, my) + ReceivedFromOthers(h, token, my) - SentToOthers(h, token, my);
            && (token in after <==> balance > 0)
            && (token in after ==> after[token].amount == balance)
  {
    ListEqualsHoldings(list, c, metadata, my, h);
    BalanceIsConserved(c, h, token, my);
    assert TokenInSync(AfterTransfers(list, metadata, my, Mine(h, my)).value, ApplyAll(c, h), my, token);
  }
}
