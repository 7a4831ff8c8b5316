/**
 Any number of senders sharing one wallet. Each lists the unspent outputs (the answer may be
 stale), takes the guard of the recently-spent cache, rewrites the list with the cache, builds
 a transaction from the result, broadcasts it, and records it only on success. The guard is
 held from the rewrite to the record.
 */
module SenderProtocol {
  import opened Wrappers
  import opened UtxoLedger
  import opened RecentlySpent

  type SenderId = nat

  datatype Phase =
    | Idle
    | Listed(listed: set<Coin>)
    | Locked(view: set<Coin>)
    | Built(inputs: set<Coin>, hash: Hash, created: set<Coin>)
    | Sent(inputs: set<Coin>, hash: Hash, created: set<Coin>)

  /** The world: the ledger, the shared cache, its guard, and every sender. */
  datatype State = State(
    start: set<Coin>,
    history: History,
    cache: Cache,
    holder: Option<SenderId>,
    senders: map<SenderId, Phase>)

  datatype Step =
    | ListUnspent(s: SenderId, listed: set<Coin>)
    | TakeGuard(s: SenderId, view: set<Coin>)
    | Build(s: SenderId, inputs: set<Coin>, hash: Hash, created: set<Coin>)
    | BroadcastSucceeds(s: SenderId)
    | RecordSpent(s: SenderId)
    | GiveUp(s: SenderId)
    | FundsArrive(hash: Hash, coins: set<Coin>)

  ghost predicate Init(st: State) {
    && st.history == [] && st.cache == EMPTY && st.holder == None
    && OnePerOutpoint(st.start)
    && forall s :: s in st.senders ==> st.senders[s] == Idle
  }

  ghost predicate In(st: State, s: SenderId, phase: Phase) {
    s in st.senders && st.senders[s] == phase
  }

  ghost function Move(st: State, s: SenderId, phase: Phase): State {
    st.(senders := st.senders[s := phase])
  }

  /** What each step does. The network accepts any transaction whose hash is new: it is not
      relied on to reject a double spend. */
  ghost predicate Next(st: State, step: Step, st': State) {
    match step
    case ListUnspent(s, listed) =>
      // the daemon may list any coins the wallet has owned so far, however stale
      In(st, s, Idle) && listed <= Ever(st.start, st.history) && st' == Move(st, s, Listed(listed))
    case TakeGuard(s, view) =>
      && s in st.senders && st.senders[s].Listed? && st.holder == None
      && IsRewrite(st.cache.inputToOutput, st.senders[s].listed, view)
      && st' == Move(st, s, Locked(view)).(holder := Some(s))
    case Build(s, inputs, hash, created) =>
      && s in st.senders && st.senders[s].Locked?
      && inputs != {} && inputs <= st.senders[s].view && OutputsOf(hash, created)
      && st' == Move(st, s, Built(inputs, hash, created))
    case BroadcastSucceeds(s) =>
      && s in st.senders && st.senders[s].Built?
      && var tx := st.senders[s];
      && FreshHash(st.start, st.history, tx.hash)
      && st' == Move(st, s, Sent(tx.inputs, tx.hash, tx.created))
               .(history := st.history + [Spent(tx.inputs, tx.hash, tx.created)])
    case RecordSpent(s) =>
      && s in st.senders && st.senders[s].Sent?
      && var tx := st.senders[s];
      && st' == Move(st, s, Idle).(cache := AfterSpend(st.cache, tx.inputs, tx.created), holder := None)
    case GiveUp(s) =>
      // listing, building, signing or broadcasting failed; the guard is dropped
      && s in st.senders && !st.senders[s].Sent?
      && st' == Move(st, s, Idle).(holder := if st.holder == Some(s) then None else st.holder)
    case FundsArrive(hash, coins) =>
      && ValidEvent(st.start, st.history, Received(hash, coins))
      && st' == st.(history := st.history + [Received(hash, coins)])
  }

  datatype SignedTx = SignedTx(inputs: seq<UnspentInfo>, hash: Hash, outputs: seq<TransactionOutput>)

  /** The end of a send, under the guard: the spend is recorded if and only if the transaction
      could be built and was broadcast. These are the steps `RecordSpent` and `GiveUp`. */
  method GenerateAndSendTx(recentlySpent: RecentlySpentOutPoints, signed: Option<SignedTx>, accepted: bool)
      returns (r: Option<SignedTx>)
    requires recentlySpent.Valid()
    modifies recentlySpent
    ensures recentlySpent.Valid()
    ensures r == if accepted then signed else None
    ensures recentlySpent.Value() ==
            if r.Some?
            then AfterSpend(old(recentlySpent.Value()), set u | u in r.value.inputs :: u.Cached(),
                            OwnOutputs(recentlySpent.forScriptPubkey, r.value.hash, r.value.outputs))
            else old(recentlySpent.Value())
  {
    if signed == None || !accepted {
      return None;
    }
    recentlySpent.AddSpent(signed.value.inputs, signed.value.hash, signed.value.outputs);
    r := signed;
  }

  ghost predicate HoldsGuard(phase: Phase) { phase.Locked? || phase.Built? || phase.Sent? }

  ghost predicate PhaseIsSafe(st: State, phase: Phase) {
    match phase
    case Idle => true
    case Listed(listed) => listed <= Ever(st.start, st.history)
    case Locked(view) => view <= Unspent(st.start, st.history)
    case Built(inputs, hash, created) =>
      inputs != {} && inputs <= Unspent(st.start, st.history) && OutputsOf(hash, created)
    case Sent(_, _, _) => true
  }

  /** The cache as it will be once a pending broadcast has been recorded. */
  ghost function SettledCache(st: State): Cache {
    if st.holder.Some? && st.holder.value in st.senders && st.senders[st.holder.value].Sent? then
      var tx := st.senders[st.holder.value];
      AfterSpend(st.cache, tx.inputs, tx.created)
    else st.cache
  }

  ghost predicate Inv(st: State) {
    && ValidHistory(st.start, st.history)
    && SettledCache(st) == Replay(st.history)
    && (forall s :: s in st.senders && HoldsGuard(st.senders[s]) ==> st.holder == Some(s))
    && (forall s :: s in st.senders ==> PhaseIsSafe(st, st.senders[s]))
  }

  lemma HistoryGrows(start: set<Coin>, h: History, e: Event)
    ensures Ever(start, h) <= Ever(start, h + [e])
    ensures e.Received? ==> Unspent(start, h) <= Unspent(start, h + [e]) && Replay(h + [e]) == Replay(h)
    ensures e.Spent? ==> Replay(h + [e]) == AfterSpend(Replay(h), e.inputs, e.created)
    ensures ValidHistory(start, h) && ValidEvent(start, h, e) ==> ValidHistory(start, h + [e])
  {
    assert (h + [e])[..|h + [e]| - 1] == h;
  }

  lemma TakeGuardKeepsInv(st: State, s: SenderId, view: set<Coin>, st': State)
    requires Inv(st) && Next(st, TakeGuard(s, view), st')
    ensures Inv(st')
  {
    RewriteIsUnspent(st.start, st.history, st.senders[s].listed, view);
  }

  lemma BroadcastKeepsInv(st: State, s: SenderId, st': State)
    requires Inv(st) && Next(st, BroadcastSucceeds(s), st')
    ensures Inv(st')
  {
    var tx := st.senders[s];
    assert st.holder == Some(s) && PhaseIsSafe(st, tx);
    HistoryGrows(st.start, st.history, Spent(tx.inputs, tx.hash, tx.created));
    forall o | o in st'.senders ensures PhaseIsSafe(st', st'.senders[o]) {
      assert o != s ==> PhaseIsSafe(st, st.senders[o]) && !HoldsGuard(st.senders[o]);
    }
  }

  lemma RecordKeepsInv(st: State, s: SenderId, st': State)
    requires Inv(st) && Next(st, RecordSpent(s), st')
    ensures Inv(st')
  {
    assert st.holder == Some(s);
  }

  lemma FundsKeepInv(st: State, hash: Hash, coins: set<Coin>, st': State)
    requires Inv(st) && Next(st, FundsArrive(hash, coins), st')
    ensures Inv(st')
  {
    HistoryGrows(st.start, st.history, Received(hash, coins));
    forall o | o in st'.senders ensures PhaseIsSafe(st', st'.senders[o]) {
      assert PhaseIsSafe(st, st.senders[o]);
    }
  }

  lemma NextKeepsInv(st: State, step: Step, st': State)
    requires Inv(st) && Next(st, step, st')
    ensures Inv(st')
  {
    match step
    case ListUnspent(s, listed) =>
    case TakeGuard(s, view) => TakeGuardKeepsInv(st, s, view, st');
    case Build(s, inputs, hash, created) =>
    case BroadcastSucceeds(s) => BroadcastKeepsInv(st, s, st');
    case RecordSpent(s) => RecordKeepsInv(st, s, st');
    case GiveUp(s) =>
    case FundsArrive(hash, coins) => FundsKeepInv(st, hash, coins, st');
  }

  /** A run: `states[i]` goes to `states[i + 1]` by `steps[i]`. */
  ghost predicate Run(states: seq<State>, steps: seq<Step>) {
    && |states| == |steps| + 1 && Init(states[0])
    && forall i :: 0 <= i < |steps| ==> Next(states[i], steps[i], states[i + 1])
  }

  lemma {:induction false} EveryStateOfARunIsSafe(states: seq<State>, steps: seq<Step>, n: nat)
    requires Run(states, steps) && n < |states|
    ensures Inv(states[n])
  {
    if n > 0 {
      EveryStateOfARunIsSafe(states, steps, n - 1);
      NextKeepsInv(states[n - 1], steps[n - 1], states[n]);
    }
  }

  /** In every interleaving, no outpoint is ever an input of two broadcast transactions. */
  lemma NoRunDoubleSpends(states: seq<State>, steps: seq<Step>, n: nat)
    requires Run(states, steps) && n < |states|
    ensures NoDoubleSpend(states[n].history)
  {
    EveryStateOfARunIsSafe(states, steps, n);
    ValidHistoryNeverDoubleSpends(states[n].start, states[n].history);
  }

  /** A sender whose list was complete at some point since which no outside funds arrived
      works on exactly the unspent coins of the moment it takes the guard. */
  lemma ViewsAreExact(states: seq<State>, steps: seq<Step>, n: nat, k: nat)
    requires Run(states, steps) && n < |steps| && steps[n].TakeGuard?
    requires k <= |states[n].history|
    requires In(states[n], steps[n].s, Listed(Unspent(states[n].start, states[n].history[..k])))
    requires forall j :: k <= j < |states[n].history| ==> states[n].history[j].Spent?
    ensures steps[n].view == Unspent(states[n].start, states[n].history)
  {
    EveryStateOfARunIsSafe(states, steps, n);
    assert Next(states[n], steps[n], states[n + 1]);
    RewriteIsExact(states[n].start, states[n].history, k, steps[n].view);
  }
}
