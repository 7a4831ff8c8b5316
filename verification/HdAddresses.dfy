/**
 Generating the addresses of a hierarchical-deterministic account. An account only stores how
 many addresses of each chain are known; addresses are derived from their index.
 */
module HdAddresses {
  import opened Wrappers

  datatype Error = AddressLimitReached | DerivationFailed | StorageFailed | BalanceFailed

  datatype Chain = External | Internal

  /** Indices at or above this limit are reserved for hardened keys ("Extended keys" of BIP 32). */
  const ADDRESS_LIMIT: nat := 0x8000_0000

  const DEFAULT_RECEIVER_CHAIN := External

  type Address = nat

  datatype Path = Path(chain: Chain, addressId: nat)

  datatype HDAddressBalance = HDAddressBalance(address: Address, path: Path, balance: nat)

  /** The coin: derivation, which storage updates and which balance requests fail, and balances. */
  datatype Wallet = Wallet(
    derive: Path -> Option<Address>,
    storageFails: Path -> bool,
    balancesFail: seq<Address> -> bool,
    balanceOf: Address -> nat)

  /** An address with the path it was derived from and its own balance. */
  ghost predicate IsRow(w: Wallet, row: HDAddressBalance, path: Path) {
    row.path == path && w.derive(path) == Some(row.address) && row.balance == w.balanceOf(row.address)
  }

  /** `rows` are the addresses `from` to `to - 1` of the chain, in order. */
  ghost predicate AreRows(w: Wallet, rows: seq<HDAddressBalance>, chain: Chain, from: nat, to: nat) {
    from <= to && |rows| == to - from &&
    forall i :: 0 <= i < |rows| ==> IsRow(w, rows[i], Path(chain, from + i))
  }

  /** No derivation, storage update or balance request fails. */
  ghost predicate NeverFails(w: Wallet) {
    && (forall path :: w.derive(path).Some? && !w.storageFails(path))
    && (forall addresses :: !w.balancesFail(addresses))
  }

  class HDAccount {
    var externalNumber: nat
    var internalNumber: nat

    constructor ()
      ensures externalNumber == internalNumber == 0
    {
      externalNumber, internalNumber := 0, 0;
    }

    function KnownAddressesNumber(chain: Chain): nat
      reads this
    {
      if chain == External then externalNumber else internalNumber
    }

    predicate IsAddressActivated(path: Path)
      reads this
    {
      path.addressId < KnownAddressesNumber(path.chain)
    }

    /** The next address. Nothing is stored unless everything succeeds. The last index below the
        limit is never handed out, because the new number has to stay below the limit too. */
    method GenerateNewAddress(w: Wallet, chain: Chain) returns (r: Result<(Address, Path), Error>)
      modifies this
      ensures var next := Path(chain, old(KnownAddressesNumber(chain)));
              && (r.Err? <==> next.addressId + 1 >= 0x8000_0000 || w.derive(next).None? || w.storageFails(next))
              && (next.addressId + 1 < ADDRESS_LIMIT ==> r != Err(AddressLimitReached))
              && (r == Err(DerivationFailed) <==> next.addressId < ADDRESS_LIMIT && w.derive(next).None?)
              && (r == Err(StorageFailed) <==>
                    next.addressId + 1 < ADDRESS_LIMIT && w.derive(next).Some? && w.storageFails(next))
              && r != Err(BalanceFailed)
              && (r.Ok? ==> r.value == (w.derive(next).value, next) && IsAddressActivated(next))
      ensures externalNumber == old(externalNumber) + (if r.Ok? && chain == External then 1 else 0)
      ensures internalNumber == old(internalNumber) + (if r.Ok? && chain == Internal then 1 else 0)
    {
      var knownAddressesNumber := KnownAddressesNumber(chain);
      var path := Path(chain, knownAddressesNumber);
      if knownAddressesNumber >= ADDRESS_LIMIT {
        return Err(AddressLimitReached);
      }
      var address := w.derive(path);
      if address.None? {
        return Err(DerivationFailed);
      }
      if knownAddressesNumber + 1 >= ADDRESS_LIMIT {
        return Err(AddressLimitReached);
      }
      if w.storageFails(path) {
        return Err(StorageFailed);
      }
      if chain == External {
        externalNumber := knownAddressesNumber + 1;
      } else {
        internalNumber := knownAddressesNumber + 1;
      }
      return Ok((address.value, path));
    }

    /** Generates addresses until the list has `minimum` of them. The new ones have consecutive
        indices from the old known number on, each with its own balance; the known number rises by
        the number generated, also when a later step fails. */
    method GenNewAddresses(w: Wallet, addresses: seq<HDAddressBalance>, minimum: nat)
        returns (r: Result<seq<HDAddressBalance>, Error>)
      modifies this
      ensures internalNumber == old(internalNumber) && externalNumber >= old(externalNumber)
      ensures r.Ok? ==>
                && minimum < ADDRESS_LIMIT && addresses <= r.value
                && |r.value| == (if |addresses| < minimum then minimum else |addresses|)
                && AreRows(w, r.value[|addresses|..], DEFAULT_RECEIVER_CHAIN, old(externalNumber), externalNumber)
      ensures r.Err? ==>
                externalNumber - old(externalNumber) <= (if |addresses| < minimum then minimum - |addresses| else 0)
      ensures minimum < ADDRESS_LIMIT && r == Err(AddressLimitReached) ==>
                |addresses| < minimum && old(externalNumber) + (minimum - |addresses|) >= ADDRESS_LIMIT
      ensures |addresses| < minimum && old(externalNumber) + (minimum - |addresses|) >= ADDRESS_LIMIT ==> r.Err?
      ensures minimum >= ADDRESS_LIMIT ==> r == Err(AddressLimitReached)
      ensures minimum < ADDRESS_LIMIT && old(externalNumber) <= |addresses| ==> r != Err(AddressLimitReached)
      ensures minimum < ADDRESS_LIMIT && |addresses| >= minimum ==>
                r == Ok(addresses) && externalNumber == old(externalNumber)
      ensures NeverFails(w) ==>
                (r.Ok? <==> minimum < ADDRESS_LIMIT &&
                            (|addresses| < minimum ==> old(externalNumber) + (minimum - |addresses|) < ADDRESS_LIMIT))
    {
      if minimum >= ADDRESS_LIMIT {
        return Err(AddressLimitReached);
      }
      if |addresses| >= minimum {
        return Ok(addresses);
      }
      var toGenerate := minimum - |addresses|;
      var chain := DEFAULT_RECEIVER_CHAIN;
      ghost var known := externalNumber;
      var newAddresses: seq<HDAddressBalance> := [];
      var addressesToRequest: seq<Address> := [];
      for k := 0 to toGenerate
        invariant internalNumber == old(internalNumber) && externalNumber == known + k
        invariant k > 0 ==> known + k < ADDRESS_LIMIT
        invariant |newAddresses| == |addressesToRequest| == k
        invariant forall i :: 0 <= i < k ==>
                    && w.derive(Path(chain, known + i)) == Some(addressesToRequest[i])
                    && newAddresses[i] == HDAddressBalance(addressesToRequest[i], Path(chain, known + i), 0)
      {
        var generated := GenerateNewAddress(w, chain);
        if generated.Err? {
          return Err(generated.error);
        }
        var (address, path) := generated.value;
        newAddresses := newAddresses + [HDAddressBalance(address, path, 0)];
        addressesToRequest := addressesToRequest + [address];
      }
      if w.balancesFail(addressesToRequest) {
        return Err(BalanceFailed);
      }
      var rows := WithBalances(w, newAddresses, addressesToRequest);
      assert AreRows(w, rows, chain, known, externalNumber);
      assert (addresses + rows)[|addresses|..] == rows;
      return Ok(addresses + rows);
    }

    /** All known addresses of one chain. */
    method KnownAddressesBalances(w: Wallet, chain: Chain) returns (r: Result<seq<HDAddressBalance>, Error>)
      ensures r.Ok? ==> AreRows(w, r.value, chain, 0, KnownAddressesNumber(chain))
      ensures r != Err(AddressLimitReached)
      ensures NeverFails(w) ==> r.Ok?
      ensures r == Err(DerivationFailed) <==>
              exists id :: 0 <= id < KnownAddressesNumber(chain) && w.derive(Path(chain, id)).None?
    {
      var infos: seq<HDAddressBalance> := [];
      var addresses: seq<Address> := [];
      for id := 0 to KnownAddressesNumber(chain)
        invariant |infos| == |addresses| == id
        invariant forall i :: 0 <= i < id ==>
                    && w.derive(Path(chain, i)) == Some(addresses[i])
                    && infos[i] == HDAddressBalance(addresses[i], Path(chain, i), 0)
      {
        var address := w.derive(Path(chain, id));
        if address.None? {
          return Err(DerivationFailed);
        }
        infos := infos + [HDAddressBalance(address.value, Path(chain, id), 0)];
        addresses := addresses + [address.value];
      }
      if w.balancesFail(addresses) {
        return Err(BalanceFailed);
      }
      var rows := WithBalances(w, infos, addresses);
      return Ok(rows);
    }

    /** Enabling an account without scanning: the list has every known address of both chains, the
        newly generated ones included, exactly once; the limit is reached only if `minimum` asks
        for it; and the total is the sum of the balances. */
    method EnableHdAccount(w: Wallet, minimum: Option<nat>) returns (r: Result<(seq<HDAddressBalance>, nat), Error>)
      modifies this
      ensures r.Ok? ==>
                var (rows, total) := r.value;
                && total == TotalBalance(rows)
                && EveryPathOnce(w, rows, externalNumber, internalNumber)
                && |rows| == (if minimum.Some? && minimum.value > old(externalNumber) + old(internalNumber)
                              then minimum.value else old(externalNumber) + old(internalNumber))
      ensures (minimum.None? || minimum.value < ADDRESS_LIMIT) ==> r != Err(AddressLimitReached)
      ensures NeverFails(w) ==> (r.Ok? <==> minimum.None? || minimum.value < ADDRESS_LIMIT)
      ensures r.Ok? ==>
                var rows, known := r.value.0, old(externalNumber) + old(internalNumber);
                && internalNumber == old(internalNumber) && known <= |rows|
                && AreRows(w, rows[..old(externalNumber)], External, 0, old(externalNumber))
                && AreRows(w, rows[old(externalNumber)..known], Internal, 0, internalNumber)
                && AreRows(w, rows[known..], External, old(externalNumber), externalNumber)
    {
      var external := KnownAddressesBalances(w, External);
      if external.Err? {
        return Err(external.error);
      }
      var internal := KnownAddressesBalances(w, Internal);
      if internal.Err? {
        return Err(internal.error);
      }
      var rows := external.value + internal.value;
      ghost var known, added := externalNumber, [];
      if minimum.Some? {
        var generated := GenNewAddresses(w, rows, minimum.value);
        if generated.Err? {
          return Err(generated.error);
        }
        added := generated.value[|rows|..];
        rows := generated.value;
      }
      assert rows == external.value + internal.value + added;
      assert rows[..known] == external.value && rows[known..known + internalNumber] == internal.value;
      assert rows[known + internalNumber..] == added;
      RowsOfBothChains(w, external.value, internal.value, added, known, externalNumber, internalNumber);
      var total := SumBalances(rows);
      return Ok((rows, total));
    }
  }

  /** The rows are the known addresses of both chains: each path once, with its own address and
      balance, and as many as are known. */
  ghost predicate EveryPathOnce(w: Wallet, rows: seq<HDAddressBalance>, external: nat, internal: nat) {
    && |rows| == external + internal
    && (forall i, j :: 0 <= i < j < |rows| ==> rows[i].path != rows[j].path)
    && (forall i :: 0 <= i < |rows| ==> IsRow(w, rows[i], rows[i].path))
    && (forall i :: 0 <= i < |rows| ==>
          rows[i].path.addressId < (if rows[i].path.chain == External then external else internal))
  }

  lemma RowsOfBothChains(w: Wallet, a: seq<HDAddressBalance>, b: seq<HDAddressBalance>, c: seq<HDAddressBalance>,
                         known: nat, external: nat, internal: nat)
    requires AreRows(w, a, External, 0, known) && AreRows(w, b, Internal, 0, internal)
    requires AreRows(w, c, External, known, external)
    ensures EveryPathOnce(w, a + b + c, external, internal)
  {
    var rows := a + b + c;
    forall i | 0 <= i < |rows|
      ensures IsRow(w, rows[i], rows[i].path)
      ensures rows[i].path == if i < known then Path(External, i)
                              else if i < known + internal then Path(Internal, i - known)
                              else Path(External, i - internal)
    {
      if i < known { assert rows[i] == a[i]; }
      else if i < known + internal { assert rows[i] == b[i - known]; }
      else { assert rows[i] == c[i - known - internal]; }
    }
  }

  function TotalBalance(rows: seq<HDAddressBalance>): nat {
    if rows == [] then 0 else TotalBalance(rows[..|rows| - 1]) + rows[|rows| - 1].balance
  }

  /** The total is the sum: of two parts, and of one row. */
  lemma {:induction false} TotalBalanceOfParts(a: seq<HDAddressBalance>, b: seq<HDAddressBalance>,
                                               row: HDAddressBalance)
    ensures TotalBalance(a + b) == TotalBalance(a) + TotalBalance(b) && TotalBalance([row]) == row.balance
    decreases |b|
  {
    assert [row][..0] == [];
    if b == [] {
      assert a + b == a;
    } else {
      TotalBalanceOfParts(a, b[..|b| - 1], row);
      assert (a + b)[..|a + b| - 1] == a + b[..|b| - 1];
    }
  }

  method SumBalances(rows: seq<HDAddressBalance>) returns (total: nat)
    ensures total == TotalBalance(rows)
  {
    total := 0;
    for i := 0 to |rows|
      invariant total == TotalBalance(rows[..i])
    {
      assert rows[..i + 1][..i] == rows[..i];
      total := total + rows[i].balance;
    }
    assert rows[..|rows|] == rows;
  }

  /** Balances come back in the order of the request and are zipped with the address infos. */
  method WithBalances(w: Wallet, infos: seq<HDAddressBalance>, requested: seq<Address>)
      returns (rows: seq<HDAddressBalance>)
    requires |infos| == |requested|
    ensures |rows| == |infos|
    ensures forall i :: 0 <= i < |rows| ==> rows[i] == infos[i].(balance := w.balanceOf(requested[i]))
  {
    rows := [];
    for i := 0 to |infos|
      invariant |rows| == i
      invariant forall j :: 0 <= j < i ==> rows[j] == infos[j].(balance := w.balanceOf(requested[j]))
    {
      rows := rows + [infos[i].(balance := w.balanceOf(requested[i]))];
    }
  }
}
