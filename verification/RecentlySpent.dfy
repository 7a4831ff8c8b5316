/**
 The cache of recently sent transactions. The daemon needs time to update its unspent list,
 so the wallet keeps two maps, from a spent coin to the coins that replaced it and back, and
 rewrites every stale list with them.
 */
module RecentlySpent {
  import opened Wrappers
  import opened UtxoLedger

  datatype TransactionOutput = TransactionOutput(scriptPubkey: Bytes, value: nat)

  /** An entry of the daemon's list. Entries that differ only in height are different entries. */
  datatype UnspentInfo = UnspentInfo(outpoint: OutPoint, value: nat, height: Option<nat>) {
    function Cached(): CachedUnspentInfo { CachedUnspentInfo(outpoint, value) }
  }

  function CachedAll(unspents: set<UnspentInfo>): set<Coin> {
    set u | u in unspents :: u.Cached()
  }

  /** The outputs of a transaction that pay to `script`; the output index is cast to 32 bits. */
  function OwnOutputs(script: Bytes, hash: Hash, outputs: seq<TransactionOutput>): (r: set<Coin>)
    ensures forall c :: c in r ==> c.outpoint.hash == hash
    ensures |outputs| <= 0x1_0000_0000 ==> OnePerOutpoint(r)
  {
    set i | 0 <= i < |outputs| && outputs[i].scriptPubkey == script ::
      CachedUnspentInfo(OutPoint(hash, i % 0x1_0000_0000), outputs[i].value)
  }

  /** Unless there are more outputs than 32 bits can number, a coin is one of these exactly if it is the output
      of its index, pays its value and pays to the script. */
  lemma OwnOutputsAreExact(script: Bytes, hash: Hash, outputs: seq<TransactionOutput>, c: Coin)
    requires |outputs| <= 0x1_0000_0000
    ensures c in OwnOutputs(script, hash, outputs) <==>
            && c.outpoint.hash == hash && c.outpoint.index < |outputs|
            && outputs[c.outpoint.index] == TransactionOutput(script, c.value)
  {
    var i := c.outpoint.index;
    if i < |outputs| && outputs[i] == TransactionOutput(script, c.value) && c.outpoint.hash == hash {
      assert c == CachedUnspentInfo(OutPoint(hash, i % 0x1_0000_0000), outputs[i].value);
    }
  }

  type CoinMap = map<Coin, set<Coin>>

  /** The value of the two maps. */
  datatype Cache = Cache(inputToOutput: CoinMap, outputToInput: CoinMap)

  const EMPTY := Cache(map[], map[])

  // --- one spend ------------------------------------------------------------------------------

  /** The inputs that were already recorded as replacements of `a`. */
  ghost function Touching(o2i: CoinMap, inputs: set<Coin>, a: Coin): set<Coin> {
    set i | i in inputs && i in o2i && a in o2i[i]
  }

  ghost function Replaced(c: Cache, inputs: set<Coin>, created: set<Coin>, a: Coin): set<Coin>
    requires a in c.inputToOutput
  {
    var touching := Touching(c.outputToInput, inputs, a);
    if touching == {} then c.inputToOutput[a] else c.inputToOutput[a] - touching + created
  }

  ghost function PreviousInputs(c: Cache, inputs: set<Coin>): set<Coin> {
    set i, a | i in inputs && i in c.outputToInput && a in c.outputToInput[i] && a in c.inputToOutput :: a
  }

  /** The cache after one more spend, independent of any iteration order. */
  ghost function AfterSpend(c: Cache, inputs: set<Coin>, created: set<Coin>): Cache {
    Cache(
      map a | a in c.inputToOutput.Keys + inputs ::
        if a in inputs then created else Replaced(c, inputs, created, a),
      map o | o in c.outputToInput.Keys + created ::
        if o in created then PreviousInputs(c, inputs) + inputs else c.outputToInput[o])
  }

  /** What one more spend means, for any cache: the inputs map to exactly the new coins, the new coins back to
      the inputs and to whatever those replaced; another spent coin trades the inputs that replaced it for the
      new coins, and nothing else changes. */
  lemma SpendUpdatesTheMaps(c: Cache, inputs: set<Coin>, created: set<Coin>)
    ensures var after := AfterSpend(c, inputs, created);
            && after.inputToOutput.Keys == c.inputToOutput.Keys + inputs
            && after.outputToInput.Keys == c.outputToInput.Keys + created
            && (forall i :: i in inputs ==> after.inputToOutput[i] == created)
            && (forall a, o :: a in c.inputToOutput && a !in inputs ==>
                  (o in after.inputToOutput[a] <==>
                   || (o in c.inputToOutput[a] && !(o in inputs && Replaces(c, o, a)))
                   || (o in created && exists i :: i in inputs && Replaces(c, i, a))))
            && (forall o, a :: o in created ==>
                  (a in after.outputToInput[o] <==>
                   a in inputs || (a in c.inputToOutput && exists i :: i in inputs && Replaces(c, i, a))))
            && (forall o :: o in c.outputToInput && o !in created ==> after.outputToInput[o] == c.outputToInput[o])
  {
    forall a, i | i in inputs && Replaces(c, i, a) ensures i in Touching(c.outputToInput, inputs, a) {}
    forall a | Touching(c.outputToInput, inputs, a) != {} ensures exists i :: i in inputs && Replaces(c, i, a) {
      var i :| i in Touching(c.outputToInput, inputs, a);
      assert Replaces(c, i, a);
    }
    forall a ensures a in PreviousInputs(c, inputs) <==>
                     a in c.inputToOutput && exists i :: i in inputs && Replaces(c, i, a) {}
  }

  /** The cache says that `i` was created in place of `a`. */
  ghost predicate Replaces(c: Cache, i: Coin, a: Coin) { i in c.outputToInput && a in c.outputToInput[i] }

  /** The cache after a whole history; only the wallet's own transactions are recorded. */
  ghost function Replay(h: History): Cache {
    if h == [] then EMPTY else
    var before := Replay(h[..|h| - 1]);
    match h[|h| - 1]
    case Spent(inputs, _, created) => AfterSpend(before, inputs, created)
    case Received(_, _) => before
  }

  // --- the cache is ancestry --------------------------------------------------------------------

  /** The two maps are exactly the still unspent descendants of every spent coin, and exactly
      the ancestors of every output created. */
  ghost predicate Exact(start: set<Coin>, h: History, c: Cache) {
    && c.inputToOutput.Keys == SpentCoins(h)
    && c.outputToInput.Keys == CreatedCoins(h)
    && (forall a :: a in c.inputToOutput ==>
          c.inputToOutput[a] == set o | o in Unspent(start, h) && a in Ancestors(h, o))
    && (forall o :: o in c.outputToInput ==> c.outputToInput[o] == Ancestors(h, o))
  }

  /** What an own transaction adds to the ancestry: exactly what the cache looks up. */
  lemma AncestorsAfterSpend(start: set<Coin>, before: History, e: Event, c: Cache, a: Coin)
    requires ValidHistory(start, before) && Exact(start, before, c)
    requires e.Spent? && ValidEvent(start, before, e)
    ensures forall o :: o in e.created ==>
              (a in Ancestors(before + [e], o) <==>
               a in e.inputs || Touching(c.outputToInput, e.inputs, a) != {})
    ensures forall o :: o !in e.created ==> Ancestors(before + [e], o) == Ancestors(before, o)
    ensures forall i :: i in e.inputs ==> (i in Touching(c.outputToInput, e.inputs, a) <==> a in Ancestors(before, i))
  {
    var h := before + [e];
    assert h[..|h| - 1] == before;
    var touching := Touching(c.outputToInput, e.inputs, a);
    forall i | i in e.inputs ensures i in touching <==> a in Ancestors(before, i) {
      AncestorsAreSpent(before, i);
    }
    if touching != {} {
      var i :| i in touching;
      assert i in e.inputs && a in Ancestors(before, i);
    }
    forall o | o in e.created && a !in e.inputs && a in Ancestors(h, o) ensures touching != {} {
      var i :| i in e.inputs && a in Ancestors(before, i);
      assert i in touching;
    }
  }

  lemma ExactAfterSpendForward(start: set<Coin>, before: History, e: Event, c: Cache, a: Coin)
    requires ValidHistory(start, before) && Exact(start, before, c)
    requires e.Spent? && ValidEvent(start, before, e)
    requires a in c.inputToOutput.Keys + e.inputs
    ensures AfterSpend(c, e.inputs, e.created).inputToOutput[a]
         == set o | o in Unspent(start, before + [e]) && a in Ancestors(before + [e], o)
  {
    var h := before + [e];
    assert h[..|h| - 1] == before;
    UnspentAndSpentPartitionEver(start, before);
    AncestorsAfterSpend(start, before, e, c, a);
    forall o | o in Unspent(start, before) ensures Ancestors(before, o) <= SpentCoins(before) {
      AncestorsAreSpent(before, o);
    }
  }

  lemma ExactAfterSpendBack(start: set<Coin>, before: History, e: Event, c: Cache, o: Coin)
    requires ValidHistory(start, before) && Exact(start, before, c)
    requires e.Spent? && ValidEvent(start, before, e)
    requires o in c.outputToInput.Keys + e.created
    ensures AfterSpend(c, e.inputs, e.created).outputToInput[o] == Ancestors(before + [e], o)
  {
    var h := before + [e];
    assert h[..|h| - 1] == before;
    forall i | i in e.inputs ensures Ancestors(before, i) <= SpentCoins(before)
      ensures i !in c.outputToInput ==> Ancestors(before, i) == {}
    {
      AncestorsAreSpent(before, i);
    }
    var prev := PreviousInputs(c, e.inputs);
    var anc := set i, a | i in e.inputs && a in Ancestors(before, i) :: a;
    forall a ensures a in prev <==> a in anc {
      if a in anc {
        var i :| i in e.inputs && a in Ancestors(before, i);
        assert i in c.outputToInput && a in c.outputToInput[i] && a in c.inputToOutput;
      }
    }
    assert prev == anc;
  }

  /** Over every valid history the cache is exactly the ancestry of the ledger. */
  lemma {:induction false} CacheIsExactAncestry(start: set<Coin>, h: History)
    requires ValidHistory(start, h)
    ensures Exact(start, h, Replay(h))
    decreases |h|
  {
    if h != [] {
      var before, e := h[..|h| - 1], h[|h| - 1];
      var c := Replay(before);
      CacheIsExactAncestry(start, before);
      assert h == before + [e];
      match e
      case Spent(inputs, _, created) =>
        forall a | a in c.inputToOutput.Keys + inputs
          ensures Replay(h).inputToOutput[a] == set o | o in Unspent(start, h) && a in Ancestors(h, o)
        {
          ExactAfterSpendForward(start, before, e, c, a);
        }
        forall o | o in c.outputToInput.Keys + created
          ensures Replay(h).outputToInput[o] == Ancestors(h, o)
        {
          ExactAfterSpendBack(start, before, e, c, o);
        }
      case Received(_, coins) =>
        UnspentAndSpentPartitionEver(start, before);
        forall a | a in c.inputToOutput
          ensures c.inputToOutput[a] == set o | o in Unspent(start, h) && a in Ancestors(h, o)
        {
          forall o | o in coins ensures a !in Ancestors(h, o) { AncestorsAreSpent(before, o); }
        }
    }
  }

  /** No replacement is itself replaced. */
  ghost predicate ValuesAreNotKeys(m: CoinMap) {
    forall a, o :: a in m && o in m[a] ==> o !in m
  }

  /** The two maps are inverse to each other on unspent coins, and no value is a key. */
  lemma CacheMapsAreInverse(start: set<Coin>, h: History)
    requires ValidHistory(start, h)
    ensures ValuesAreNotKeys(Replay(h).inputToOutput)
    ensures forall a, o :: a in Replay(h).inputToOutput && o in Replay(h).inputToOutput[a] ==>
              o in Replay(h).outputToInput && a in Replay(h).outputToInput[o]
    ensures forall a, o ::
              (o in Replay(h).outputToInput && o in Unspent(start, h) && a in Replay(h).outputToInput[o]) ==>
              a in Replay(h).inputToOutput && o in Replay(h).inputToOutput[a]
  {
    CacheIsExactAncestry(start, h);
    UnspentAndSpentPartitionEver(start, h);
    forall o { AncestorsAreSpent(h, o); }
  }

  // --- rewriting a stale list -------------------------------------------------------------------

  /** `p` follows replacements from its first coin to its last. */
  ghost predicate ReplacementPath(m: CoinMap, p: seq<Coin>) {
    |p| >= 1 && forall j :: 0 <= j < |p| - 1 ==> p[j] in m && p[j + 1] in m[p[j]]
  }

  ghost predicate Reaches(m: CoinMap, from: set<Coin>, o: Coin) {
    exists p :: ReplacementPath(m, p) && p[0] in from && p[|p| - 1] == o
  }

  /** `r` is what is left of `from` once every spent coin has been replaced, to the end. */
  ghost predicate IsRewrite(m: CoinMap, from: set<Coin>, r: set<Coin>) {
    forall o :: o in r <==> o !in m && Reaches(m, from, o)
  }

  /** One round: the coins kept, and the replacements of the others. */
  ghost function Kept(m: CoinMap, from: set<Coin>): set<Coin> { set o | o in from && o !in m }

  ghost function Replacements(m: CoinMap, from: set<Coin>): set<Coin> {
    set a, o | a in from && a in m && o in m[a] :: o
  }

  /** A round does not change which final coins can be reached. */
  lemma RoundKeepsRewrite(m: CoinMap, from: set<Coin>, r: set<Coin>)
    requires IsRewrite(m, Kept(m, from) + Replacements(m, from), r)
    ensures IsRewrite(m, from, r)
  {
    var next := Kept(m, from) + Replacements(m, from);
    forall o | o !in m ensures Reaches(m, from, o) <==> Reaches(m, next, o) {
      if Reaches(m, from, o) {
        var p :| ReplacementPath(m, p) && p[0] in from && p[|p| - 1] == o;
        if |p| == 1 {
          assert p[0] in next;
        } else {
          var q := p[1..];
          assert p[1] in Replacements(m, from);
          assert ReplacementPath(m, q) && q[0] in next && q[|q| - 1] == o;
        }
      }
      if Reaches(m, next, o) {
        var p :| ReplacementPath(m, p) && p[0] in next && p[|p| - 1] == o;
        if p[0] !in from {
          var a :| a in from && a in m && p[0] in m[a];
          var q := [a] + p;
          assert ReplacementPath(m, q) && q[0] in from && q[|q| - 1] == o;
        }
      }
    }
  }

  lemma NothingToReplaceIsRewritten(m: CoinMap, from: set<Coin>)
    requires Replacements(m, from) == {}
    ensures IsRewrite(m, from, Kept(m, from))
  {
    forall o ensures o in Kept(m, from) <==> o !in m && Reaches(m, from, o) {
      if o in Kept(m, from) {
        assert ReplacementPath(m, [o]) && [o][0] in from;
      }
      if o !in m && Reaches(m, from, o) {
        var p :| ReplacementPath(m, p) && p[0] in from && p[|p| - 1] == o;
        if |p| > 1 { assert p[1] in Replacements(m, from); }
      }
    }
  }

  /** `o` is a replacement, at the end of a path of at least one step. */
  ghost predicate IsReplacement(m: CoinMap, from: set<Coin>, o: Coin) {
    exists p :: ReplacementPath(m, p) && |p| >= 2 && p[0] in from && p[|p| - 1] == o
  }

  /** `r` has exactly the unspent entries of the list, as they are, and the final replacements of the others,
      which have no height. */
  ghost predicate IsListRewrite(m: CoinMap, listed: set<UnspentInfo>, r: set<UnspentInfo>) {
    forall u :: u in r <==>
      u.Cached() !in m && (u in listed || (u.height == None && IsReplacement(m, CachedAll(listed), u.Cached())))
  }

  /** The entries after one round. */
  ghost predicate IsRound(m: CoinMap, listed: set<UnspentInfo>, next: set<UnspentInfo>) {
    forall u :: u in next <==>
      || (u in listed && u.Cached() !in m)
      || (u.height == None && u.Cached() in Replacements(m, CachedAll(listed)))
  }

  lemma NoRoundIsNeeded(m: CoinMap, listed: set<UnspentInfo>, r: set<UnspentInfo>)
    requires Replacements(m, CachedAll(listed)) == {}
    requires forall u :: u in r <==> u in listed && u.Cached() !in m
    ensures IsListRewrite(m, listed, r)
  {
    forall o ensures !IsReplacement(m, CachedAll(listed), o) {
      HasReplacements(m, CachedAll(listed), o);
    }
  }

  lemma HasReplacements(m: CoinMap, from: set<Coin>, o: Coin)
    ensures IsReplacement(m, from, o) ==> Replacements(m, from) != {}
  {
    if IsReplacement(m, from, o) {
      var p :| ReplacementPath(m, p) && |p| >= 2 && p[0] in from && p[|p| - 1] == o;
      assert p[1] in Replacements(m, from);
    }
  }

  lemma ReplacementsOfTheNextRound(m: CoinMap, listed: set<UnspentInfo>, next: set<UnspentInfo>, o: Coin)
    requires IsRound(m, listed, next)
    ensures IsReplacement(m, CachedAll(next), o) ==> IsReplacement(m, CachedAll(listed), o)
    ensures IsReplacement(m, CachedAll(listed), o) ==>
              IsReplacement(m, CachedAll(next), o) || o in Replacements(m, CachedAll(listed))
    ensures o in Replacements(m, CachedAll(listed)) ==> IsReplacement(m, CachedAll(listed), o)
  {
    if IsReplacement(m, CachedAll(next), o) {
      var p :| ReplacementPath(m, p) && |p| >= 2 && p[0] in CachedAll(next) && p[|p| - 1] == o;
      assert p[0] in m;
      var u :| u in next && u.Cached() == p[0];
      var a :| a in CachedAll(listed) && a in m && p[0] in m[a];
      var q := [a] + p;
      assert ReplacementPath(m, q) && q[0] in CachedAll(listed) && q[|q| - 1] == o;
    }
    if IsReplacement(m, CachedAll(listed), o) {
      var p :| ReplacementPath(m, p) && |p| >= 2 && p[0] in CachedAll(listed) && p[|p| - 1] == o;
      assert p[1] in Replacements(m, CachedAll(listed));
      if |p| > 2 {
        var q := p[1..];
        var o1: Coin := p[1];
        var u := UnspentInfo(o1.outpoint, o1.value, None);
        assert u.Cached() == o1 && u in next;
        assert ReplacementPath(m, q) && q[0] in CachedAll(next) && q[|q| - 1] == o;
      }
    }
    if o in Replacements(m, CachedAll(listed)) {
      var a :| a in CachedAll(listed) && a in m && o in m[a];
      assert ReplacementPath(m, [a, o]);
    }
  }

  /** A round does not change what the list is rewritten to. */
  lemma RoundKeepsListRewrite(m: CoinMap, listed: set<UnspentInfo>, next: set<UnspentInfo>, r: set<UnspentInfo>)
    requires IsRound(m, listed, next) && IsListRewrite(m, next, r)
    ensures IsListRewrite(m, listed, r)
  {
    forall u ensures u in r <==>
      u.Cached() !in m && (u in listed || (u.height == None && IsReplacement(m, CachedAll(listed), u.Cached())))
    {
      ReplacementsOfTheNextRound(m, listed, next, u.Cached());
    }
  }

  /** Apart from heights, a rewritten list is the rewrite of its coins. */
  lemma ListRewriteIsRewrite(m: CoinMap, listed: set<UnspentInfo>, r: set<UnspentInfo>)
    requires IsListRewrite(m, listed, r)
    ensures IsRewrite(m, CachedAll(listed), CachedAll(r))
  {
    forall o ensures o in CachedAll(r) <==> o !in m && Reaches(m, CachedAll(listed), o) {
      if o in CachedAll(r) {
        var u :| u in r && u.Cached() == o;
        if u in listed {
          assert ReplacementPath(m, [o]) && [o][0] in CachedAll(listed);
        }
      }
      if o !in m && Reaches(m, CachedAll(listed), o) {
        var p :| ReplacementPath(m, p) && p[0] in CachedAll(listed) && p[|p| - 1] == o;
        if |p| == 1 {
          var u :| u in listed && u.Cached() == o;
          assert u in r;
        } else {
          assert IsReplacement(m, CachedAll(listed), o);
          var u := UnspentInfo(o.outpoint, o.value, None);
          assert u.Cached() == o && u in r;
        }
      }
    }
  }

  /** When no replacement is itself a key, one round is all there is. */
  lemma OneRoundIsEnough(m: CoinMap, from: set<Coin>)
    requires ValuesAreNotKeys(m)
    ensures IsRewrite(m, from, Kept(m, from) + Replacements(m, from))
    ensures Replacements(m, Kept(m, from) + Replacements(m, from)) == {}
  {
    var next := Kept(m, from) + Replacements(m, from);
    NothingToReplaceIsRewritten(m, next);
    assert Kept(m, next) == next;
    RoundKeepsRewrite(m, from, next);
  }

  /** So the rewrite of any list by the cache of a valid history takes one effective round. */
  lemma ValidHistoriesNeedOneRound(start: set<Coin>, h: History, listed: set<Coin>)
    requires ValidHistory(start, h)
    ensures var m := Replay(h).inputToOutput;
            && IsRewrite(m, listed, Kept(m, listed) + Replacements(m, listed))
            && Replacements(m, Kept(m, listed) + Replacements(m, listed)) == {}
  {
    CacheMapsAreInverse(start, h);
    OneRoundIsEnough(Replay(h).inputToOutput, listed);
  }

  // --- termination ------------------------------------------------------------------------------

  /** No transaction spends a coin created by itself or later, and none creates the coins of an
      earlier one. Inputs may be spent again, and need not be the wallet's. */
  ghost predicate Causal(h: History) {
    forall j, k :: 0 <= j <= k < |h| && h[j].Spent? && h[k].Spent? ==>
      h[j].inputs !! h[k].created && (j < k ==> h[j].created !! h[k].created)
  }

  /** When the coin was created: 0 if by no transaction of `h`, else the position after it. */
  ghost function CreationRank(h: History, c: Coin): nat {
    if h == [] then 0
    else if h[|h| - 1].Spent? && c in h[|h| - 1].created then |h|
    else CreationRank(h[..|h| - 1], c)
  }

  /** Every replacement is younger than what it replaces. */
  ghost predicate Ranked(h: History, m: CoinMap) {
    forall a, o :: a in m && o in m[a] ==> CreationRank(h, a) < CreationRank(h, o) <= |h|
  }

  lemma {:induction false} RankIsBounded(h: History, c: Coin)
    ensures CreationRank(h, c) <= |h|
  {
    if h != [] { RankIsBounded(h[..|h| - 1], c); }
  }

  ghost predicate KeysWereSpent(h: History, m: CoinMap) {
    forall a :: a in m ==> exists k :: 0 <= k < |h| && h[k].Spent? && a in h[k].inputs
  }

  ghost predicate ValuesWereCreated(h: History, m: CoinMap) {
    forall a, o :: a in m && o in m[a] ==> exists k :: 0 <= k < |h| && h[k].Spent? && o in h[k].created
  }

  lemma {:induction false} KeysAndValuesOfReplay(h: History)
    ensures KeysWereSpent(h, Replay(h).inputToOutput)
    ensures ValuesWereCreated(h, Replay(h).inputToOutput)
  {
    if h != [] {
      var before := h[..|h| - 1];
      KeysAndValuesOfReplay(before);
      var m, m' := Replay(before).inputToOutput, Replay(h).inputToOutput;
      forall a | a in m' ensures exists k :: 0 <= k < |h| && h[k].Spent? && a in h[k].inputs {
        if a in m {
          var k :| 0 <= k < |before| && before[k].Spent? && a in before[k].inputs;
          assert h[k] == before[k];
        }
      }
      forall a, o | a in m' && o in m'[a]
        ensures exists k :: 0 <= k < |h| && h[k].Spent? && o in h[k].created
      {
        if a in m && o in m[a] {
          var k :| 0 <= k < |before| && before[k].Spent? && o in before[k].created;
          assert h[k] == before[k];
        }
      }
    }
  }

  lemma KeysAreOlder(h: History, a: Coin)
    requires h != [] && Causal(h) && h[|h| - 1].Spent?
    requires a in Replay(h).inputToOutput
    ensures CreationRank(h, a) == CreationRank(h[..|h| - 1], a) < |h|
  {
    KeysAndValuesOfReplay(h);
    var k :| 0 <= k < |h| && h[k].Spent? && a in h[k].inputs;
    assert a !in h[|h| - 1].created;
    RankIsBounded(h[..|h| - 1], a);
  }

  lemma OldValuesKeepTheirRank(h: History, a: Coin, o: Coin)
    requires h != [] && Causal(h) && h[|h| - 1].Spent?
    requires a in Replay(h[..|h| - 1]).inputToOutput && o in Replay(h[..|h| - 1]).inputToOutput[a]
    ensures CreationRank(h, o) == CreationRank(h[..|h| - 1], o)
  {
    var before := h[..|h| - 1];
    KeysAndValuesOfReplay(before);
    var k :| 0 <= k < |before| && before[k].Spent? && o in before[k].created;
    assert h[k] == before[k];
    assert o !in h[|h| - 1].created;
  }

  /** The recursion of the rewrite gets younger with every round. */
  lemma {:induction false} CausalHistoriesAreRanked(h: History)
    requires Causal(h)
    ensures Ranked(h, Replay(h).inputToOutput)
  {
    if h != [] {
      var before := h[..|h| - 1];
      assert Causal(before) by {
        assert forall j :: 0 <= j < |before| ==> before[j] == h[j];
      }
      CausalHistoriesAreRanked(before);
      if h[|h| - 1].Spent? {
        var m, m' := Replay(before).inputToOutput, Replay(h).inputToOutput;
        forall a, o | a in m' && o in m'[a] ensures CreationRank(h, a) < CreationRank(h, o) <= |h| {
          KeysAreOlder(h, a);
          if o !in h[|h| - 1].created {
            OldValuesKeepTheirRank(h, a, o);
          }
        }
      }
    }
  }

  lemma {:induction false} ValidHistoriesAreCausal(start: set<Coin>, h: History)
    requires ValidHistory(start, h)
    ensures Causal(h)
  {
    if h != [] {
      var before, e := h[..|h| - 1], h[|h| - 1];
      ValidHistoriesAreCausal(start, before);
      UnspentAndSpentPartitionEver(start, before);
      forall j, k | 0 <= j <= k < |h| && h[j].Spent? && h[k].Spent?
        ensures h[j].inputs !! h[k].created && (j < k ==> h[j].created !! h[k].created)
      {
        if k < |before| {
          assert before[j] == h[j] && before[k] == h[k];
        } else if j < |before| {
          SpentCoinsGrow(start, before, j);
          assert before[j] == h[j];
        }
      }
    }
  }

  // --- agreement with the ledger -----------------------------------------------------------------

  /** Whatever mixture of once-owned coins the daemon lists, only unspent coins are left. */
  lemma RewriteIsUnspent(start: set<Coin>, h: History, listed: set<Coin>, r: set<Coin>)
    requires ValidHistory(start, h) && listed <= Ever(start, h)
    requires IsRewrite(Replay(h).inputToOutput, listed, r)
    ensures r <= Unspent(start, h)
  {
    var m := Replay(h).inputToOutput;
    CacheIsExactAncestry(start, h);
    UnspentAndSpentPartitionEver(start, h);
    forall o | o in r ensures o in Unspent(start, h) {
      var p :| ReplacementPath(m, p) && p[0] in listed && p[|p| - 1] == o;
      if |p| > 1 {
        assert p[|p| - 2] in m && p[|p| - 1] in m[p[|p| - 2]];
      }
    }
  }

  lemma CurrentCoinIsReached(start: set<Coin>, h: History, k: nat, o: Coin)
    requires ValidHistory(start, h) && k <= |h| && o in Unspent(start, h)
    requires forall j :: k <= j < |h| ==> h[j].Spent?
    ensures o !in Replay(h).inputToOutput && Reaches(Replay(h).inputToOutput, Unspent(start, h[..k]), o)
  {
    var m := Replay(h).inputToOutput;
    CacheIsExactAncestry(start, h);
    UnspentAndSpentPartitionEver(start, h);
    EveryCoinComesFromTheSnapshot(start, h, k, o);
    if o in Unspent(start, h[..k]) {
      assert ReplacementPath(m, [o]) && [o][0] in Unspent(start, h[..k]);
    } else {
      var a :| a in Unspent(start, h[..k]) && a in Ancestors(h, o);
      AncestorsAreSpent(h, o);
      var p := [a, o];
      assert ReplacementPath(m, p) && p[0] == a && p[|p| - 1] == o;
    }
  }

  /** The unspent list of any earlier point becomes exactly the current one, if only the
      wallet's own transactions happened since. */
  lemma RewriteIsExact(start: set<Coin>, h: History, k: nat, r: set<Coin>)
    requires ValidHistory(start, h) && k <= |h|
    requires forall j :: k <= j < |h| ==> h[j].Spent?
    requires IsRewrite(Replay(h).inputToOutput, Unspent(start, h[..k]), r)
    ensures r == Unspent(start, h)
  {
    assert Unspent(start, h[..k]) <= Ever(start, h) by {
      SpentCoinsGrow(start, h, k);
      UnspentAndSpentPartitionEver(start, h[..k]);
    }
    RewriteIsUnspent(start, h, Unspent(start, h[..k]), r);
    forall o | o in Unspent(start, h) ensures o in r {
      CurrentCoinIsReached(start, h, k, o);
    }
  }

  // --- the cache object --------------------------------------------------------------------------

  lemma ReplacedWithOneMoreInput(c: Cache, done: set<Coin>, created: set<Coin>, input: Coin, a: Coin)
    requires a in c.inputToOutput && input !in done
    ensures Replaced(c, done + {input}, created, a) ==
            if input in c.outputToInput && a in c.outputToInput[input]
            then Replaced(c, done, created, a) - {input} + created
            else Replaced(c, done, created, a)
  {
    var t, t' := Touching(c.outputToInput, done, a), Touching(c.outputToInput, done + {input}, a);
    if input in c.outputToInput && a in c.outputToInput[input] {
      assert t' == t + {input};
    } else {
      assert t' == t;
    }
  }

  lemma ReplayOneMore(h: History, e: Event)
    requires e.Spent?
    ensures Replay(h + [e]) == AfterSpend(Replay(h), e.inputs, e.created)
  {
    assert (h + [e])[..|h + [e]| - 1] == h;
  }

  class RecentlySpentOutPoints {
    var inputToOutputMap: CoinMap
    var outputToInputMap: CoinMap
    const forScriptPubkey: Bytes

    /** What has been recorded, in order. */
    ghost var recorded: History

    ghost function Value(): Cache
      reads this
    {
      Cache(inputToOutputMap, outputToInputMap)
    }

    /** The maps are those of the recorded transactions. */
    ghost predicate Valid()
      reads this
    {
      Value() == Replay(recorded)
    }

    constructor (forScriptPubkey: Bytes)
      ensures Valid() && recorded == []
      ensures Value() == EMPTY && this.forScriptPubkey == forScriptPubkey
    {
      inputToOutputMap, outputToInputMap := map[], map[];
      this.forScriptPubkey := forScriptPubkey;
      recorded := [];
    }

    /** Records a sent transaction; whatever the iteration order, the result is `AfterSpend`. */
    method AddSpent(inputs: seq<UnspentInfo>, spendTxHash: Hash, outputs: seq<TransactionOutput>)
      requires Valid()
      modifies this
      ensures Valid()
      ensures recorded == old(recorded) + [Spent(set u | u in inputs :: u.Cached(), spendTxHash,
                                                 OwnOutputs(forScriptPubkey, spendTxHash, outputs))]
      ensures Value() == AfterSpend(old(Value()), set u | u in inputs :: u.Cached(),
                                    OwnOutputs(forScriptPubkey, spendTxHash, outputs))
    {
      var spent := set u | u in inputs :: u.Cached();
      var toReplace := OwnOutputs(forScriptPubkey, spendTxHash, outputs);
      UpdateMaps(spent, toReplace);
      ReplayOneMore(recorded, Spent(spent, spendTxHash, toReplace));
      recorded := recorded + [Spent(spent, spendTxHash, toReplace)];
    }

    /** The three passes over the maps. */
    method UpdateMaps(spent: set<Coin>, toReplace: set<Coin>)
      modifies this`inputToOutputMap, this`outputToInputMap
      ensures Value() == AfterSpend(old(Value()), spent, toReplace)
    {
      var prevInputsSpent := ReplaceInChains(spent, toReplace);
      RecordAncestors(toReplace, prevInputsSpent + spent);
      RecordReplacements(spent, toReplace);
    }

    /** The nested loops over the inputs and over their recorded ancestors. */
    method ReplaceInChains(spent: set<Coin>, toReplace: set<Coin>) returns (prevInputsSpent: set<Coin>)
      modifies this`inputToOutputMap
      ensures inputToOutputMap.Keys == old(inputToOutputMap).Keys
      ensures forall a :: a in inputToOutputMap ==>
                inputToOutputMap[a] == Replaced(old(Value()), spent, toReplace, a)
      ensures prevInputsSpent == PreviousInputs(old(Value()), spent)
    {
      ghost var c := Value();
      prevInputsSpent := {};
      var rest := spent;
      while rest != {}
        invariant rest <= spent && inputToOutputMap.Keys == c.inputToOutput.Keys
        invariant forall a :: a in inputToOutputMap ==>
                    inputToOutputMap[a] == Replaced(c, spent - rest, toReplace, a)
        invariant prevInputsSpent == PreviousInputs(c, spent - rest)
        decreases rest
      {
        var input :| input in rest;
        ghost var done := spent - rest;
        assert spent - (rest - {input}) == done + {input};
        forall a | a in c.inputToOutput { ReplacedWithOneMoreInput(c, done, toReplace, input, a); }
        if input in outputToInputMap {
          prevInputsSpent := ReplaceInChain(c, done, input, toReplace, prevInputsSpent);
        }
        rest := rest - {input};
      }
    }

    method ReplaceInChain(ghost c: Cache, ghost done: set<Coin>, input: Coin, toReplace: set<Coin>,
                          spentBefore: set<Coin>)
        returns (prevInputsSpent: set<Coin>)
      requires input in outputToInputMap && c.outputToInput == outputToInputMap
      requires inputToOutputMap.Keys == c.inputToOutput.Keys
      modifies this`inputToOutputMap
      ensures inputToOutputMap.Keys == c.inputToOutput.Keys
      ensures forall a :: a in inputToOutputMap ==>
                inputToOutputMap[a] == if a in outputToInputMap[input]
                                       then old(inputToOutputMap)[a] - {input} + toReplace
                                       else old(inputToOutputMap)[a]
      ensures prevInputsSpent == spentBefore + (outputToInputMap[input] * c.inputToOutput.Keys)
    {
      ghost var m := inputToOutputMap;
      prevInputsSpent := spentBefore;
      var rest := outputToInputMap[input];
      while rest != {}
        invariant rest <= outputToInputMap[input] && inputToOutputMap.Keys == m.Keys
        invariant forall a :: a in m ==>
                    inputToOutputMap[a] == if a in outputToInputMap[input] - rest
                                           then m[a] - {input} + toReplace else m[a]
        invariant prevInputsSpent == spentBefore + ((outputToInputMap[input] - rest) * m.Keys)
        decreases rest
      {
        var prev :| prev in rest;
        if prev in inputToOutputMap {
          prevInputsSpent := prevInputsSpent + {prev};
          inputToOutputMap := inputToOutputMap[prev := inputToOutputMap[prev] - {input} + toReplace];
        }
        rest := rest - {prev};
      }
    }

    method RecordAncestors(toReplace: set<Coin>, ancestors: set<Coin>)
      modifies this`outputToInputMap
      ensures outputToInputMap == map o | o in old(outputToInputMap).Keys + toReplace ::
                                    if o in toReplace then ancestors else old(outputToInputMap)[o]
    {
      var rest := toReplace;
      while rest != {}
        invariant rest <= toReplace
        invariant outputToInputMap == map o | o in old(outputToInputMap).Keys + (toReplace - rest) ::
                    if o in toReplace - rest then ancestors else old(outputToInputMap)[o]
        decreases rest
      {
        var output :| output in rest;
        outputToInputMap := outputToInputMap[output := ancestors];
        rest := rest - {output};
      }
      assert toReplace - rest == toReplace;
    }

    method RecordReplacements(spent: set<Coin>, toReplace: set<Coin>)
      modifies this`inputToOutputMap
      ensures inputToOutputMap == map a | a in old(inputToOutputMap).Keys + spent ::
                                    if a in spent then toReplace else old(inputToOutputMap)[a]
    {
      var rest := spent;
      while rest != {}
        invariant rest <= spent
        invariant inputToOutputMap == map a | a in old(inputToOutputMap).Keys + (spent - rest) ::
                    if a in spent - rest then toReplace else old(inputToOutputMap)[a]
        decreases rest
      {
        var input :| input in rest;
        inputToOutputMap := inputToOutputMap[input := toReplace];
        rest := rest - {input};
      }
      assert spent - rest == spent;
    }

    /** Replaces spent entries until none is left. It terminates whenever the recorded transactions are
        causal, whether or not coins were spent twice, because the entries that can still be replaced get
        younger with every round; `floor` bounds their age. */
    method ReplaceSpentOutputsWithCache(outputs: set<UnspentInfo>, ghost floor: nat := 0)
        returns (r: set<UnspentInfo>)
      requires Valid() && Causal(recorded)
      requires forall u :: u in outputs && u.Cached() in inputToOutputMap ==>
                 floor <= CreationRank(recorded, u.Cached())
      ensures IsListRewrite(inputToOutputMap, outputs, r)
      ensures IsRewrite(inputToOutputMap, CachedAll(outputs), CachedAll(r))
      decreases |recorded| - floor
    {
      var kept, replacement := RetainUnspent(outputs);
      if replacement == {} {
        NoRoundIsNeeded(inputToOutputMap, outputs, kept);
        ListRewriteIsRewrite(inputToOutputMap, outputs, kept);
        return kept;
      }
      CausalHistoriesAreRanked(recorded);
      var next := kept + set o | o in replacement :: UnspentInfo(o.outpoint, o.value, None);
      assert IsRound(inputToOutputMap, outputs, next) by {
        forall o | o in replacement
          ensures UnspentInfo(o.outpoint, o.value, None) in next
          ensures UnspentInfo(o.outpoint, o.value, None).Cached() == o {}
        forall u: UnspentInfo | u.height == None && u.Cached() in replacement ensures u in next {
          assert u == UnspentInfo(u.Cached().outpoint, u.Cached().value, None);
        }
      }
      assert floor < |recorded| by {
        var o :| o in replacement;
        var a :| a in CachedAll(outputs) && a in inputToOutputMap && o in inputToOutputMap[a];
        var u :| u in outputs && u.Cached() == a;
        assert floor <= CreationRank(recorded, a) < CreationRank(recorded, o) <= |recorded|;
      }
      r := ReplaceSpentOutputsWithCache(next, floor + 1);
      RoundKeepsListRewrite(inputToOutputMap, outputs, next, r);
      ListRewriteIsRewrite(inputToOutputMap, outputs, r);
    }

    /** One pass over the list: the entries kept, and the replacements of the others. */
    method RetainUnspent(outputs: set<UnspentInfo>) returns (kept: set<UnspentInfo>, replacement: set<Coin>)
      ensures kept == set u | u in outputs && u.Cached() !in inputToOutputMap
      ensures CachedAll(kept) == Kept(inputToOutputMap, CachedAll(outputs))
      ensures replacement == Replacements(inputToOutputMap, CachedAll(outputs))
    {
      kept, replacement := {}, {};
      var rest := outputs;
      while rest != {}
        invariant rest <= outputs
        invariant kept == set u | u in outputs - rest && u.Cached() !in inputToOutputMap
        invariant replacement == Replacements(inputToOutputMap, CachedAll(outputs - rest))
        decreases rest
      {
        var unspent :| unspent in rest;
        assert CachedAll(outputs - (rest - {unspent})) == CachedAll(outputs - rest) + {unspent.Cached()} by {
          assert outputs - (rest - {unspent}) == (outputs - rest) + {unspent};
        }
        if unspent.Cached() in inputToOutputMap {
          replacement := replacement + inputToOutputMap[unspent.Cached()];
        } else {
          kept := kept + {unspent};
        }
        rest := rest - {unspent};
      }
      assert outputs - rest == outputs;
    }
  }
}
