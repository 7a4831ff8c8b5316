/**
 The registry of activated coins: the coins themselves, and for every platform coin the tokens
 that were activated on it. The two maps must agree after any sequence of activations,
 re-activations and removals.
 */
module CoinsRegistry {

  /** Tickers are only compared. */
  type Ticker = nat

  datatype Coin = Coin(ticker: Ticker, platformTicker: Ticker) {
    predicate IsPlatformCoin() { ticker == platformTicker }
  }

  datatype Entry = Entry(coin: Coin, availableFlag: bool) {
    /** Tokens are always available; a platform coin can be in passive mode. */
    predicate IsAvailable() { !coin.IsPlatformCoin() || availableFlag }

    function WithAvailability(to: bool): Entry {
      if coin.IsPlatformCoin() then this.(availableFlag := to) else this
    }
  }

  type Coins = map<Ticker, Entry>
  type PlatformTokens = map<Ticker, set<Ticker>>

  /** The value of the two maps. */
  datatype Registry = Registry(coins: Coins, platformTokens: PlatformTokens)

  /** The configuration: the platform of every ticker. */
  type Config = Ticker -> Ticker

  ghost predicate Configured(conf: Config, coin: Coin) { coin.platformTicker == conf(coin.ticker) }

  ghost predicate CoinsAreNamed(conf: Config, coins: Coins) {
    forall t :: t in coins ==> coins[t].coin == Coin(t, conf(t))
  }

  ghost predicate PlatformsAreEnabled(conf: Config, r: Registry) {
    forall p :: p in r.platformTokens ==> p in r.coins && conf(p) == p
  }

  ghost predicate TokensBelong(conf: Config, r: Registry) {
    forall p, t :: p in r.platformTokens && t in r.platformTokens[p] ==> t in r.coins && conf(t) == p && t != p
  }

  /** Every platform listed is an enabled platform coin; every token listed is enabled, belongs to
      that platform and is not itself a platform. */
  ghost predicate Consistent(conf: Config, r: Registry) {
    CoinsAreNamed(conf, r.coins) && PlatformsAreEnabled(conf, r) && TokensBelong(conf, r)
  }

  // --- the operations on values ---------------------------------------------------------------------

  /** `lp_register_coin`; the registry is unchanged if the ticker is taken. */
  ghost function Registered(r: Registry, ticker: Ticker, coin: Coin): Registry {
    if ticker in r.coins then r else
    Registry(r.coins[ticker := Entry(coin, true)],
             if coin.IsPlatformCoin() && coin.ticker !in r.platformTokens
             then r.platformTokens[coin.ticker := {}] else r.platformTokens)
  }

  ghost function TokenAdded(r: Registry, coin: Coin): Registry {
    if coin.ticker in r.coins then r else
    Registry(r.coins[coin.ticker := Entry(coin, true)],
             if coin.platformTicker in r.platformTokens
             then r.platformTokens[coin.platformTicker := r.platformTokens[coin.platformTicker] + {coin.ticker}]
             else r.platformTokens)
  }

  ghost function TokensInserted(coins: Coins, tokens: seq<Coin>): Coins
    decreases |tokens|
  {
    if tokens == [] then coins else
    var n := |tokens| - 1;
    var before := TokensInserted(coins, tokens[..n]);
    if tokens[n].ticker in before then before else before[tokens[n].ticker := Entry(tokens[n], true)]
  }

  ghost function Tickers(tokens: seq<Coin>): set<Ticker> { set t | t in tokens :: t.ticker }

  ghost predicate AlreadyActive(r: Registry, platform: Coin) {
    platform.ticker in r.coins && r.coins[platform.ticker].IsAvailable()
  }

  ghost function PlatformAdded(r: Registry, platform: Coin, tokens: seq<Coin>): Registry {
    if AlreadyActive(r, platform) then r else
    var p := platform.ticker;
    var entry := if p in r.coins then r.coins[p].WithAvailability(true) else Entry(platform, true);
    Registry(TokensInserted(r.coins[p := entry], tokens),
             r.platformTokens[p := (if p in r.platformTokens then r.platformTokens[p] else {}) + Tickers(tokens)])
  }

  ghost function Removed(r: Registry, coin: Coin): Registry {
    if coin.IsPlatformCoin() then
      var tokens := if coin.ticker in r.platformTokens then r.platformTokens[coin.ticker] else {};
      Registry(r.coins - tokens - {coin.ticker}, r.platformTokens - {coin.ticker})
    else
      Registry(r.coins - {coin.ticker},
               if coin.platformTicker in r.platformTokens
               then r.platformTokens[coin.platformTicker := r.platformTokens[coin.platformTicker] - {coin.ticker}]
               else r.platformTokens)
  }

  ghost function AvailabilitySet(r: Registry, ticker: Ticker, to: bool): Registry {
    if ticker in r.coins then r.(coins := r.coins[ticker := r.coins[ticker].WithAvailability(to)]) else r
  }

  // --- every operation keeps the registry consistent ---------------------------------------------------

  datatype Operation =
    | Register(ticker: Ticker, coin: Coin)
    | AddToken(coin: Coin)
    | AddPlatform(platform: Coin, tokens: seq<Coin>)
    | Remove(coin: Coin)
    | SetAvailable(ticker: Ticker, to: bool)

  /** Tokens that are activated together with a platform belong to it. */
  ghost predicate Belong(platform: Coin, tokens: seq<Coin>) {
    platform.IsPlatformCoin() &&
    forall i :: 0 <= i < |tokens| ==> tokens[i].platformTicker == platform.ticker && !tokens[i].IsPlatformCoin()
  }

  ghost predicate WellFormed(conf: Config, op: Operation) {
    match op
    case Register(ticker, coin) => Configured(conf, coin) && ticker == coin.ticker
    case AddToken(coin) => Configured(conf, coin)
    case AddPlatform(platform, tokens) =>
      && Configured(conf, platform) && (forall i :: 0 <= i < |tokens| ==> Configured(conf, tokens[i]))
      && Belong(platform, tokens)
    case Remove(coin) => Configured(conf, coin)
    case SetAvailable(_, _) => true
  }

  ghost function Apply(r: Registry, op: Operation): Registry {
    match op
    case Register(ticker, coin) => Registered(r, ticker, coin)
    case AddToken(coin) => TokenAdded(r, coin)
    case AddPlatform(platform, tokens) => PlatformAdded(r, platform, tokens)
    case Remove(coin) => Removed(r, coin)
    case SetAvailable(ticker, to) => AvailabilitySet(r, ticker, to)
  }

  lemma {:induction false} TokensInsertedContents(conf: Config, coins: Coins, tokens: seq<Coin>)
    ensures TokensInserted(coins, tokens).Keys == coins.Keys + Tickers(tokens)
    ensures forall t :: t in coins ==> TokensInserted(coins, tokens)[t] == coins[t]
    ensures forall t :: t in TokensInserted(coins, tokens) && t !in coins ==>
              var entry := TokensInserted(coins, tokens)[t];
              entry.availableFlag && entry.coin.ticker == t && entry.coin in tokens
    ensures CoinsAreNamed(conf, coins) && (forall i :: 0 <= i < |tokens| ==> Configured(conf, tokens[i])) ==>
              CoinsAreNamed(conf, TokensInserted(coins, tokens))
    decreases |tokens|
  {
    if tokens != [] {
      var n := |tokens| - 1;
      TokensInsertedContents(conf, coins, tokens[..n]);
      assert tokens == tokens[..n] + [tokens[n]];
      assert Tickers(tokens) == Tickers(tokens[..n]) + {tokens[n].ticker};
    }
  }

  lemma ExtendedListIsConsistent(conf: Config, r: Registry, coins: Coins, p: Ticker, tickers: set<Ticker>)
    requires PlatformsAreEnabled(conf, r) && TokensBelong(conf, r)
    requires r.coins.Keys + {p} + tickers <= coins.Keys && conf(p) == p
    requires forall t :: t in tickers ==> conf(t) == p && t != p
    ensures var listed := (if p in r.platformTokens then r.platformTokens[p] else {}) + tickers;
            var after := Registry(coins, r.platformTokens[p := listed]);
            PlatformsAreEnabled(conf, after) && TokensBelong(conf, after)
  {}

  lemma PlatformAddedIsConsistent(conf: Config, r: Registry, platform: Coin, tokens: seq<Coin>)
    requires Consistent(conf, r) && WellFormed(conf, AddPlatform(platform, tokens))
    ensures Consistent(conf, PlatformAdded(r, platform, tokens))
  {
    if !AlreadyActive(r, platform) {
      var p := platform.ticker;
      var entry := if p in r.coins then r.coins[p].WithAvailability(true) else Entry(platform, true);
      var coins := r.coins[p := entry];
      assert CoinsAreNamed(conf, coins);
      TokensInsertedContents(conf, coins, tokens);
      ExtendedListIsConsistent(conf, r, TokensInserted(coins, tokens), p, Tickers(tokens));
    }
  }

  /** After an activation the platform is available, its old and new tokens are listed, every token is
      enabled, and no other coin has changed. */
  lemma ActivationEnablesEverything(conf: Config, r: Registry, platform: Coin, tokens: seq<Coin>)
    requires Consistent(conf, r) && !AlreadyActive(r, platform)
    ensures var after, p := PlatformAdded(r, platform, tokens), platform.ticker;
            && AlreadyActive(after, platform)
            && after.coins[p].coin == (if p in r.coins then r.coins[p].coin else platform)
            && after.coins.Keys == r.coins.Keys + {p} + Tickers(tokens)
            && (forall t :: t in Tickers(tokens) && t != p && t !in r.coins ==>
                  after.coins[t].IsAvailable() && after.coins[t].coin.ticker == t && after.coins[t].coin in tokens)
            && after.platformTokens.Keys == r.platformTokens.Keys + {p}
            && after.platformTokens[p] == (if p in r.platformTokens then r.platformTokens[p] else {}) + Tickers(tokens)
            && (forall t :: t in r.coins && t != p ==> t in after.coins && after.coins[t] == r.coins[t])
            && (forall q :: q in r.platformTokens && q != p ==> after.platformTokens[q] == r.platformTokens[q])
  {
    var p := platform.ticker;
    var entry := if p in r.coins then r.coins[p].WithAvailability(true) else Entry(platform, true);
    TokensInsertedContents(conf, r.coins[p := entry], tokens);
  }

  lemma RefusedActivationChangesNothing(r: Registry, platform: Coin, tokens: seq<Coin>)
    requires platform.ticker in r.coins && r.coins[platform.ticker].IsAvailable()
    ensures PlatformAdded(r, platform, tokens) == r
  {}

  /** Removing a platform removes all its listed tokens and itself, and nothing else; every other
      platform keeps its list, and the tokens on it stay enabled. */
  lemma RemovingAPlatform(conf: Config, r: Registry, p: Ticker)
    requires Consistent(conf, r) && conf(p) == p
    ensures var after := Removed(r, Coin(p, p));
            && p !in after.coins && p !in after.platformTokens
            && (forall t :: t in after.coins <==>
                  t in r.coins && t != p && !(p in r.platformTokens && t in r.platformTokens[p]))
            && after.platformTokens.Keys == r.platformTokens.Keys - {p}
            && (forall q :: q in r.platformTokens && q != p ==> KeepsPlatform(r, after, q))
            && (forall t :: t in r.coins && conf(t) != p ==> t in after.coins && after.coins[t] == r.coins[t])
  {
    var after := Removed(r, Coin(p, p));
    forall t | t in r.coins && conf(t) != p ensures t in after.coins && after.coins[t] == r.coins[t] {
      assert p in r.platformTokens ==> t !in r.platformTokens[p];
    }
  }

  /** The platform, its list and the coins on it are as before. */
  ghost predicate KeepsPlatform(r: Registry, after: Registry, q: Ticker)
    requires q in r.platformTokens
  {
    && q in after.platformTokens && after.platformTokens[q] == r.platformTokens[q]
    && q in after.coins
    && forall t :: t in r.platformTokens[q] && t in r.coins ==> t in after.coins && after.coins[t] == r.coins[t]
  }

  /** A registration keeps the registry consistent exactly when it is refused or the coin is registered
      under its own ticker. */
  lemma RegisteredIsConsistentIff(conf: Config, r: Registry, ticker: Ticker, coin: Coin)
    requires Consistent(conf, r) && Configured(conf, coin)
    ensures Consistent(conf, Registered(r, ticker, coin)) <==> ticker in r.coins || ticker == coin.ticker
  {
    var after := Registered(r, ticker, coin);
    if ticker !in r.coins && ticker != coin.ticker {
      assert after.coins[ticker].coin != Coin(ticker, conf(ticker));
    }
  }

  /** An accepted registration adds the coin under the ticker, lists a platform coin with no tokens unless it is
      listed, and changes nothing else; a refused one changes nothing at all. */
  lemma RegistrationAddsOneCoin(r: Registry, ticker: Ticker, coin: Coin)
    ensures ticker in r.coins ==> Registered(r, ticker, coin) == r
    ensures ticker !in r.coins ==>
              var after := Registered(r, ticker, coin);
              && ticker in after.coins && after.coins[ticker].coin == coin && after.coins[ticker].IsAvailable()
              && after.coins - {ticker} == r.coins
              && (coin.ticker in after.platformTokens <==> coin.ticker in r.platformTokens || coin.IsPlatformCoin())
              && (coin.ticker !in r.platformTokens && coin.IsPlatformCoin() ==> after.platformTokens[coin.ticker] == {})
              && (forall p :: p in r.platformTokens ==>
                    p in after.platformTokens && after.platformTokens[p] == r.platformTokens[p])
              && (forall p :: p in after.platformTokens && p != coin.ticker ==> p in r.platformTokens)
  {
    if ticker !in r.coins {
      assert Registered(r, ticker, coin).coins - {ticker} == r.coins;
    }
  }

  /** An accepted token is enabled and listed under its platform, if that is listed; every other coin and list is
      unchanged. A refused one changes nothing. */
  lemma AddedTokenIsListed(r: Registry, coin: Coin)
    ensures coin.ticker in r.coins ==> TokenAdded(r, coin) == r
    ensures coin.ticker !in r.coins ==>
              var after, p := TokenAdded(r, coin), coin.platformTicker;
              && coin.ticker in after.coins && after.coins[coin.ticker].coin == coin
              && after.coins[coin.ticker].IsAvailable()
              && after.coins - {coin.ticker} == r.coins
              && after.platformTokens.Keys == r.platformTokens.Keys
              && (p in r.platformTokens ==> after.platformTokens[p] == r.platformTokens[p] + {coin.ticker})
              && (forall q :: q in r.platformTokens && q != p ==> after.platformTokens[q] == r.platformTokens[q])
  {
    if coin.ticker !in r.coins {
      assert TokenAdded(r, coin).coins - {coin.ticker} == r.coins;
    }
  }

  /** So the token goes when its platform is removed afterwards. */
  lemma TokenGoesWithItsPlatform(r: Registry, coin: Coin)
    requires coin.ticker !in r.coins && coin.platformTicker in r.platformTokens
    ensures coin.ticker !in Removed(TokenAdded(r, coin), Coin(coin.platformTicker, coin.platformTicker)).coins
  {
    AddedTokenIsListed(r, coin);
  }

  /** Removing a token takes it out of both maps and touches nothing else. */
  lemma RemovingAToken(r: Registry, coin: Coin)
    requires !coin.IsPlatformCoin()
    ensures var after, p := Removed(r, coin), coin.platformTicker;
            && coin.ticker !in after.coins && after.coins == r.coins - {coin.ticker}
            && after.platformTokens.Keys == r.platformTokens.Keys
            && (p in r.platformTokens ==> after.platformTokens[p] == r.platformTokens[p] - {coin.ticker})
            && (forall q :: q in r.platformTokens && q != p ==> after.platformTokens[q] == r.platformTokens[q])
  {}

  /** Removing a coin undoes its registration and its activation as a token. */
  lemma RemovingUndoesAdding(conf: Config, r: Registry, coin: Coin)
    requires Consistent(conf, r) && Configured(conf, coin) && coin.ticker !in r.coins
    ensures Removed(Registered(r, coin.ticker, coin), coin) == r
    ensures Removed(TokenAdded(r, coin), coin) == r
  {
    var p := coin.platformTicker;
    if p in r.platformTokens {
      assert coin.ticker !in r.platformTokens[p];
      assert r.platformTokens[p] + {coin.ticker} - {coin.ticker} == r.platformTokens[p];
      assert r.platformTokens[p] - {coin.ticker} == r.platformTokens[p];
      assert r.platformTokens[p := r.platformTokens[p] - {coin.ticker}] == r.platformTokens;
    }
    var coins := r.coins[coin.ticker := Entry(coin, true)];
    assert coins - {coin.ticker} == r.coins;
    if coin.IsPlatformCoin() {
      assert r.platformTokens[coin.ticker := {}] - {coin.ticker} == r.platformTokens;
      assert coins - {} == coins;
    }
  }

  /** Switching a platform coin to a mode and back changes nothing, tokens have no mode, and no switch
      makes the registry inconsistent. */
  lemma AvailabilityOnlyOfPlatforms(conf: Config, r: Registry, ticker: Ticker, to: bool)
    requires Consistent(conf, r)
    ensures var after := AvailabilitySet(r, ticker, to);
            && Consistent(conf, after)
            && after.platformTokens == r.platformTokens && after.coins.Keys == r.coins.Keys
            && (forall t :: t in r.coins && (t != ticker || conf(t) != t) ==> after.coins[t] == r.coins[t])
            && (ticker in r.coins && conf(ticker) == ticker ==> (after.coins[ticker].IsAvailable() <==> to))
            && (ticker in r.coins ==> AvailabilitySet(after, ticker, r.coins[ticker].availableFlag) == r)
  {}

  lemma TokenAddedIsConsistent(conf: Config, r: Registry, coin: Coin)
    requires Consistent(conf, r) && Configured(conf, coin)
    ensures Consistent(conf, TokenAdded(r, coin))
  {}

  lemma RemovedIsConsistent(conf: Config, r: Registry, coin: Coin)
    requires Consistent(conf, r) && Configured(conf, coin)
    ensures Consistent(conf, Removed(r, coin))
  {
    if coin.IsPlatformCoin() {
      RemovingAPlatform(conf, r, coin.ticker);
    }
  }

  /** The condition on the tokens is needed: activation keeps the registry consistent exactly when
      they belong to the platform, unless it is refused. */
  lemma ActivationIsConsistentIff(conf: Config, r: Registry, platform: Coin, tokens: seq<Coin>)
    requires Consistent(conf, r) && Configured(conf, platform)
    requires forall i :: 0 <= i < |tokens| ==> Configured(conf, tokens[i])
    ensures Consistent(conf, PlatformAdded(r, platform, tokens)) <==>
            AlreadyActive(r, platform) || Belong(platform, tokens)
  {
    if Belong(platform, tokens) {
      PlatformAddedIsConsistent(conf, r, platform, tokens);
    } else if !AlreadyActive(r, platform) {
      var after := PlatformAdded(r, platform, tokens);
      if Consistent(conf, after) {
        assert platform.ticker in after.platformTokens;
        forall i | 0 <= i < |tokens|
          ensures tokens[i].platformTicker == platform.ticker && !tokens[i].IsPlatformCoin()
        {
          assert tokens[i].ticker in after.platformTokens[platform.ticker];
        }
      }
    }
  }

  /** The coins of an operation are as configured. */
  ghost predicate UsesConfiguredCoins(conf: Config, op: Operation) {
    match op
    case Register(_, coin) => Configured(conf, coin)
    case AddToken(coin) => Configured(conf, coin)
    case AddPlatform(platform, tokens) =>
      Configured(conf, platform) && forall i :: 0 <= i < |tokens| ==> Configured(conf, tokens[i])
    case Remove(coin) => Configured(conf, coin)
    case SetAvailable(_, _) => true
  }

  /** A registration is refused or under the coin's own ticker, an activation is refused or of tokens that
      belong to the platform. */
  ghost predicate Harmless(r: Registry, op: Operation) {
    match op
    case Register(ticker, coin) => ticker in r.coins || ticker == coin.ticker
    case AddPlatform(platform, tokens) => AlreadyActive(r, platform) || Belong(platform, tokens)
    case _ => true
  }

  lemma OperationKeepsConsistencyIff(conf: Config, r: Registry, op: Operation)
    requires Consistent(conf, r) && UsesConfiguredCoins(conf, op)
    ensures Consistent(conf, Apply(r, op)) <==> Harmless(r, op)
  {
    match op
    case Register(ticker, coin) => RegisteredIsConsistentIff(conf, r, ticker, coin);
    case AddToken(coin) => TokenAddedIsConsistent(conf, r, coin);
    case AddPlatform(platform, tokens) => ActivationIsConsistentIff(conf, r, platform, tokens);
    case Remove(coin) => RemovedIsConsistent(conf, r, coin);
    case SetAvailable(ticker, to) => AvailabilityOnlyOfPlatforms(conf, r, ticker, to);
  }

  ghost function ApplyAll(r: Registry, ops: seq<Operation>): Registry {
    if ops == [] then r else Apply(ApplyAll(r, ops[..|ops| - 1]), ops[|ops| - 1])
  }

  const NOTHING := Registry(map[], map[])

  /** The two maps agree after every operation of the run. */
  ghost predicate AlwaysConsistent(conf: Config, ops: seq<Operation>) {
    && (ops != [] ==> AlwaysConsistent(conf, ops[..|ops| - 1]))
    && Consistent(conf, ApplyAll(NOTHING, ops))
  }

  /** Every operation of the run is harmless where it happens. */
  ghost predicate AllHarmless(ops: seq<Operation>) {
    ops != [] ==>
      && AllHarmless(ops[..|ops| - 1])
      && Harmless(ApplyAll(NOTHING, ops[..|ops| - 1]), ops[|ops| - 1])
  }

  /** The two maps agree after every operation of a run, exactly if every registration and every activation
      is harmless where it happens. */
  lemma {:induction false} RunIsConsistentIff(conf: Config, ops: seq<Operation>)
    requires forall i :: 0 <= i < |ops| ==> UsesConfiguredCoins(conf, ops[i])
    ensures AlwaysConsistent(conf, ops) <==> AllHarmless(ops)
  {
    if ops != [] {
      var n := |ops| - 1;
      RunIsConsistentIff(conf, ops[..n]);
      if AllHarmless(ops[..n]) {
        OperationKeepsConsistencyIff(conf, ApplyAll(NOTHING, ops[..n]), ops[n]);
      }
    }
  }

  /** After every sequence of well-formed operations the two maps agree. */
  lemma {:induction false} EveryRunIsConsistent(conf: Config, ops: seq<Operation>)
    requires forall i :: 0 <= i < |ops| ==> WellFormed(conf, ops[i])
    ensures AllHarmless(ops) && Consistent(conf, ApplyAll(NOTHING, ops))
  {
    if ops != [] {
      var n := |ops| - 1;
      EveryRunIsConsistent(conf, ops[..n]);
      OperationKeepsConsistencyIff(conf, ApplyAll(NOTHING, ops[..n]), ops[n]);
    }
  }

  /** The platform coin 1, registered under the ticker 2: the registry lists a platform that is not enabled. */
  lemma ForeignTickerIsInconsistent()
    ensures var ops := [Register(2, Coin(1, 1))];
            && UsesConfiguredCoins(t => t, ops[0])
            && 1 in ApplyAll(NOTHING, ops).platformTokens && 1 !in ApplyAll(NOTHING, ops).coins
            && !Consistent(t => t, ApplyAll(NOTHING, ops))
  {
    var ops := [Register(2, Coin(1, 1))];
    assert ApplyAll(NOTHING, ops[..0]) == NOTHING;
    assert ApplyAll(NOTHING, ops) == Registered(NOTHING, 2, Coin(1, 1));
  }

  // --- the registry object ------------------------------------------------------------------------------

  class CoinsContext {
    var coins: Coins
    var platformCoinTokens: PlatformTokens

    ghost function Value(): Registry
      reads this
    {
      Registry(coins, platformCoinTokens)
    }

    constructor ()
      ensures Value() == NOTHING
    {
      coins, platformCoinTokens := map[], map[];
    }

    method RegisterCoin(ticker: Ticker, coin: Coin) returns (ok: bool)
      modifies this
      ensures ok <==> ticker !in old(coins)
      ensures Value() == Registered(old(Value()), ticker, coin)
    {
      if ticker in coins {
        return false;
      }
      coins := coins[ticker := Entry(coin, true)];
      if coin.IsPlatformCoin() {
        if coin.ticker !in platformCoinTokens {
          platformCoinTokens := platformCoinTokens[coin.ticker := {}];
        }
      }
      return true;
    }

    method AddToken(coin: Coin) returns (ok: bool)
      modifies this
      ensures ok <==> coin.ticker !in old(coins)
      ensures Value() == TokenAdded(old(Value()), coin)
    {
      if coin.ticker in coins {
        return false;
      }
      if coin.platformTicker in platformCoinTokens {
        platformCoinTokens :=
          platformCoinTokens[coin.platformTicker := platformCoinTokens[coin.platformTicker] + {coin.ticker}];
      }
      coins := coins[coin.ticker := Entry(coin, true)];
      return true;
    }

    method AddPlatformWithTokens(platform: Coin, tokens: seq<Coin>) returns (ok: bool)
      modifies this
      ensures ok <==> !AlreadyActive(old(Value()), platform)
      ensures Value() == PlatformAdded(old(Value()), platform, tokens)
    {
      var p := platform.ticker;
      if p in coins {
        if coins[p].IsAvailable() {
          return false;
        }
        coins := coins[p := coins[p].WithAvailability(true)];
      } else {
        coins := coins[p := Entry(platform, true)];
      }
      ghost var withPlatform := coins;
      var tokenTickers: set<Ticker> := {};
      for i := 0 to |tokens|
        invariant platformCoinTokens == old(platformCoinTokens)
        invariant coins == TokensInserted(withPlatform, tokens[..i])
        invariant tokenTickers == Tickers(tokens[..i])
      {
        assert tokens[..i + 1][..i] == tokens[..i] && tokens[..i + 1] == tokens[..i] + [tokens[i]];
        tokenTickers := tokenTickers + {tokens[i].ticker};
        if tokens[i].ticker !in coins {
          coins := coins[tokens[i].ticker := Entry(tokens[i], true)];
        }
      }
      assert tokens[..|tokens|] == tokens;
      var listed := if p in platformCoinTokens then platformCoinTokens[p] else {};
      platformCoinTokens := platformCoinTokens[p := listed + tokenTickers];
      return true;
    }

    method RemoveCoin(coin: Coin)
      modifies this
      ensures Value() == Removed(old(Value()), coin)
    {
      if coin.IsPlatformCoin() {
        if coin.ticker in platformCoinTokens {
          var tokensToRemove := platformCoinTokens[coin.ticker];
          platformCoinTokens := platformCoinTokens - {coin.ticker};
          var rest := tokensToRemove;
          while rest != {}
            invariant rest <= tokensToRemove
            invariant platformCoinTokens == old(platformCoinTokens) - {coin.ticker}
            invariant coins == old(coins) - (tokensToRemove - rest)
            decreases rest
          {
            var token :| token in rest;
            coins := coins - {token};
            rest := rest - {token};
          }
        }
      } else if coin.platformTicker in platformCoinTokens {
        platformCoinTokens :=
          platformCoinTokens[coin.platformTicker := platformCoinTokens[coin.platformTicker] - {coin.ticker}];
      }
      coins := coins - {coin.ticker};
    }

    method UpdateIsAvailable(ticker: Ticker, to: bool)
      modifies this
      ensures Value() == AvailabilitySet(old(Value()), ticker, to)
    {
      if ticker in coins {
        coins := coins[ticker := coins[ticker].WithAvailability(to)];
      }
    }
  }
}
