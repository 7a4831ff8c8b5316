/**
 The simple ledger that the recently-spent cache has to agree with: a wallet's coins under
 one script, the transactions that spend them and the funds that arrive from outside.
 */
module UtxoLedger {

  type Hash = nat
  type Bytes = seq<bv8>

  datatype OutPoint = OutPoint(hash: Hash, index: nat)

  /** An output of the wallet's own script, identified as the cache identifies it. */
  datatype CachedUnspentInfo = CachedUnspentInfo(outpoint: OutPoint, value: nat)

  type Coin = CachedUnspentInfo

  /** What happens to the wallet: one of its own transactions, or funds arriving from outside. */
  datatype Event =
    | Spent(inputs: set<Coin>, hash: Hash, created: set<Coin>)
    | Received(hash: Hash, coins: set<Coin>)

  type History = seq<Event>

  ghost function Unspent(start: set<Coin>, h: History): set<Coin> {
    if h == [] then start else
    var before := Unspent(start, h[..|h| - 1]);
    match h[|h| - 1]
    case Spent(inputs, _, created) => before - inputs + created
    case Received(_, coins) => before + coins
  }

  /** Every coin the wallet has ever owned. */
  ghost function Ever(start: set<Coin>, h: History): set<Coin> {
    if h == [] then start else
    Ever(start, h[..|h| - 1]) + (match h[|h| - 1]
                                 case Spent(_, _, created) => created
                                 case Received(_, coins) => coins)
  }

  ghost function SpentCoins(h: History): set<Coin> {
    if h == [] then {} else
    SpentCoins(h[..|h| - 1]) + (match h[|h| - 1]
                                case Spent(inputs, _, _) => inputs
                                case Received(_, _) => {})
  }

  /** The outputs created by the wallet's own transactions. */
  ghost function CreatedCoins(h: History): set<Coin> {
    if h == [] then {} else
    CreatedCoins(h[..|h| - 1]) + (match h[|h| - 1]
                                  case Spent(_, _, created) => created
                                  case Received(_, _) => {})
  }

  ghost predicate OnePerOutpoint(coins: set<Coin>) {
    forall a, b :: a in coins && b in coins && a.outpoint == b.outpoint ==> a == b
  }

  ghost predicate OutputsOf(hash: Hash, coins: set<Coin>) {
    (forall c :: c in coins ==> c.outpoint.hash == hash) && OnePerOutpoint(coins)
  }

  ghost predicate FreshHash(start: set<Coin>, h: History, hash: Hash) {
    forall c :: c in Ever(start, h) ==> c.outpoint.hash != hash
  }

  /** A transaction spends coins that are unspent at that point; its hash is new. */
  ghost predicate ValidEvent(start: set<Coin>, h: History, e: Event) {
    match e
    case Spent(inputs, hash, created) =>
      inputs != {} && inputs <= Unspent(start, h) && FreshHash(start, h, hash) && OutputsOf(hash, created)
    case Received(hash, coins) => FreshHash(start, h, hash) && OutputsOf(hash, coins)
  }

  ghost predicate ValidHistory(start: set<Coin>, h: History) {
    if h == [] then OnePerOutpoint(start) else
    ValidHistory(start, h[..|h| - 1]) && ValidEvent(start, h[..|h| - 1], h[|h| - 1])
  }

  /** At every point the coins ever owned split into the unspent and the spent ones. */
  lemma {:induction false} UnspentAndSpentPartitionEver(start: set<Coin>, h: History)
    requires ValidHistory(start, h)
    ensures Ever(start, h) == Unspent(start, h) + SpentCoins(h)
    ensures Unspent(start, h) !! SpentCoins(h)
    ensures CreatedCoins(h) <= Ever(start, h)
    ensures OnePerOutpoint(Ever(start, h))
  {
    if h != [] {
      UnspentAndSpentPartitionEver(start, h[..|h| - 1]);
    }
  }

  lemma {:induction false} SpentCoinsGrow(start: set<Coin>, h: History, k: nat)
    requires k <= |h| && ValidHistory(start, h)
    ensures ValidHistory(start, h[..k])
    ensures SpentCoins(h[..k]) <= SpentCoins(h) && CreatedCoins(h[..k]) <= CreatedCoins(h)
    ensures Ever(start, h[..k]) <= Ever(start, h)
    ensures k < |h| && h[k].Spent? ==> h[k].inputs <= SpentCoins(h) && h[k].created <= CreatedCoins(h)
    decreases |h| - k
  {
    if k == |h| {
      assert h[..k] == h;
    } else {
      SpentCoinsGrow(start, h, k + 1);
      assert h[..k + 1][..k] == h[..k];
      assert h[..k + 1][k] == h[k];
    }
  }

  /** No outpoint is an input of two transactions. */
  ghost predicate NoDoubleSpend(h: History) {
    forall i, j, a, b ::
      0 <= i < j < |h| && h[i].Spent? && h[j].Spent? && a in h[i].inputs && b in h[j].inputs
      ==> a.outpoint != b.outpoint
  }

  lemma InputsWereUnspent(start: set<Coin>, h: History, j: nat)
    requires ValidHistory(start, h) && j < |h| && h[j].Spent?
    ensures ValidHistory(start, h[..j]) && h[j].inputs <= Unspent(start, h[..j])
  {
    SpentCoinsGrow(start, h, j + 1);
    assert h[..j + 1][..j] == h[..j] && h[..j + 1][j] == h[j];
  }

  lemma InputsOfTwoSpendsDiffer(start: set<Coin>, h: History, i: nat, j: nat, a: Coin, b: Coin)
    requires ValidHistory(start, h)
    requires i < j < |h| && h[i].Spent? && h[j].Spent? && a in h[i].inputs && b in h[j].inputs
    ensures a.outpoint != b.outpoint
  {
    var before := h[..j];
    InputsWereUnspent(start, h, j);
    assert a in SpentCoins(before) by {
      assert before[i] == h[i];
      SpentCoinsGrow(start, before, i);
    }
    UnspentAndSpentPartitionEver(start, before);
  }

  lemma ValidHistoryNeverDoubleSpends(start: set<Coin>, h: History)
    requires ValidHistory(start, h)
    ensures NoDoubleSpend(h)
  {
    forall i, j, a, b | 0 <= i < j < |h| && h[i].Spent? && h[j].Spent? && a in h[i].inputs && b in h[j].inputs
      ensures a.outpoint != b.outpoint
    {
      InputsOfTwoSpendsDiffer(start, h, i, j, a, b);
    }
  }

  // --- ancestry -----------------------------------------------------------------------------

  /** Every coin whose spending led, directly or through later transactions, to `o`. */
  ghost function Ancestors(h: History, o: Coin): set<Coin> {
    if h == [] then {} else
    var before := h[..|h| - 1];
    match h[|h| - 1]
    case Spent(inputs, _, created) =>
      if o in created then inputs + (set i, a | i in inputs && a in Ancestors(before, i) :: a)
      else Ancestors(before, o)
    case Received(_, _) => Ancestors(before, o)
  }

  lemma {:induction false} AncestorsAreSpent(h: History, o: Coin)
    ensures Ancestors(h, o) <= SpentCoins(h)
    ensures o !in CreatedCoins(h) ==> Ancestors(h, o) == {}
    decreases |h|
  {
    if h != [] {
      var before := h[..|h| - 1];
      AncestorsAreSpent(before, o);
      if h[|h| - 1].Spent? {
        forall i | i in h[|h| - 1].inputs { AncestorsAreSpent(before, i); }
      }
    }
  }

  ghost predicate SpentInto(h: History, a: Coin, o: Coin) {
    exists k :: 0 <= k < |h| && h[k].Spent? && a in h[k].inputs && o in h[k].created
  }

  /** A chain of own transactions leading from `p[0]` to the last coin of `p`. */
  ghost predicate SpendChain(h: History, p: seq<Coin>) {
    |p| >= 2 && forall j :: 0 <= j < |p| - 1 ==> SpentInto(h, p[j], p[j + 1])
  }

  lemma {:induction false} CreatedOrSpentWasOwned(start: set<Coin>, h: History, a: Coin, o: Coin)
    requires ValidHistory(start, h) && SpentInto(h, a, o)
    ensures a in Ever(start, h) && o in Ever(start, h)
    decreases |h|
  {
    var before := h[..|h| - 1];
    var k :| 0 <= k < |h| && h[k].Spent? && a in h[k].inputs && o in h[k].created;
    UnspentAndSpentPartitionEver(start, before);
    if k < |before| {
      assert before[k] == h[k];
      CreatedOrSpentWasOwned(start, before, a, o);
    }
  }

  lemma {:induction false} AncestorsThroughOneSpend(start: set<Coin>, h: History, b: Coin, o: Coin)
    requires ValidHistory(start, h) && SpentInto(h, b, o)
    ensures b in Ancestors(h, o) && Ancestors(h, b) <= Ancestors(h, o)
    decreases |h|
  {
    var before := h[..|h| - 1];
    var last := h[|h| - 1];
    var k :| 0 <= k < |h| && h[k].Spent? && b in h[k].inputs && o in h[k].created;
    UnspentAndSpentPartitionEver(start, before);
    if k < |before| {
      assert before[k] == h[k];
      CreatedOrSpentWasOwned(start, before, b, o);
      AncestorsThroughOneSpend(start, before, b, o);
    } else {
      assert b in Ever(start, before);
      assert Ancestors(h, b) == Ancestors(before, b);
      assert forall a :: a in Ancestors(before, b) ==> b in last.inputs && a in Ancestors(before, b);
    }
  }

  lemma {:induction false} SpendChainsAreAncestry(start: set<Coin>, h: History, p: seq<Coin>)
    requires ValidHistory(start, h) && SpendChain(h, p)
    ensures p[0] in Ancestors(h, p[|p| - 1])
    decreases |p|
  {
    var n := |p| - 1;
    AncestorsThroughOneSpend(start, h, p[n - 1], p[n]);
    if n > 1 {
      SpendChainsAreAncestry(start, h, p[..n]);
    }
  }

  lemma SpentIntoLater(h: History, e: Event, p: seq<Coin>)
    requires SpendChain(h, p)
    ensures SpendChain(h + [e], p)
  {
    forall j | 0 <= j < |p| - 1 ensures SpentInto(h + [e], p[j], p[j + 1]) {
      assert SpentInto(h, p[j], p[j + 1]);
      var k :| 0 <= k < |h| && h[k].Spent? && p[j] in h[k].inputs && p[j + 1] in h[k].created;
      assert (h + [e])[k] == h[k];
    }
  }

  lemma {:induction false} AncestryIsASpendChain(h: History, a: Coin, o: Coin) returns (p: seq<Coin>)
    requires a in Ancestors(h, o)
    ensures SpendChain(h, p) && p[0] == a && p[|p| - 1] == o
    decreases |h|
  {
    var before := h[..|h| - 1];
    var last := h[|h| - 1];
    assert h == before + [last];
    if last.Spent? && o in last.created {
      if a in last.inputs {
        assert h[|h| - 1] == last;
        assert SpentInto(h, a, o);
        p := [a, o];
      } else {
        var i :| i in last.inputs && a in Ancestors(before, i);
        var q := AncestryIsASpendChain(before, a, i);
        SpentIntoLater(before, last, q);
        assert h[|h| - 1] == last;
        assert SpentInto(h, i, o);
        p := q + [o];
        forall j | 0 <= j < |p| - 1 ensures SpentInto(h, p[j], p[j + 1]) {
          if j < |q| - 1 { assert p[j] == q[j] && p[j + 1] == q[j + 1]; }
        }
      }
    } else {
      p := AncestryIsASpendChain(before, a, o);
      SpentIntoLater(before, last, p);
    }
  }

  /** `Ancestors` is exactly reachability along chains of own transactions. */
  lemma AncestorsAreSpendChains(start: set<Coin>, h: History, a: Coin, o: Coin)
    requires ValidHistory(start, h)
    ensures a in Ancestors(h, o) <==> exists p :: SpendChain(h, p) && p[0] == a && p[|p| - 1] == o
  {
    if a in Ancestors(h, o) {
      var p := AncestryIsASpendChain(h, a, o);
    }
    forall p | SpendChain(h, p) && p[0] == a && p[|p| - 1] == o ensures a in Ancestors(h, o) {
      SpendChainsAreAncestry(start, h, p);
    }
  }

  /** A coin owned now was owned at point `k`, or descends from a coin that was unspent then,
      unless outside funds arrived in between. */
  lemma {:induction false} EveryCoinComesFromTheSnapshot(start: set<Coin>, h: History, k: nat, o: Coin)
    requires ValidHistory(start, h) && k <= |h| && o in Unspent(start, h)
    requires forall j :: k <= j < |h| ==> h[j].Spent?
    ensures o in Unspent(start, h[..k]) ||
            exists a :: a in Unspent(start, h[..k]) && a in Ancestors(h, o)
    decreases |h|
  {
    if k == |h| {
      assert h[..k] == h;
    } else {
      var before := h[..|h| - 1];
      var last := h[|h| - 1];
      assert before[..k] == h[..k];
      if o in last.created {
        var i :| i in last.inputs;
        EveryCoinComesFromTheSnapshot(start, before, k, i);
        if i !in Unspent(start, h[..k]) {
          var a :| a in Unspent(start, h[..k]) && a in Ancestors(before, i);
          assert a in Ancestors(h, o);
        }
      } else {
        EveryCoinComesFromTheSnapshot(start, before, k, o);
      }
    }
  }
}
