/**
 Choosing the nonce of a transaction. The nonce is the highest one any node reports; coins of
 one platform share a lock, which a sender keeps until a node reports a higher nonce.
 */
module EthNonce {
  import opened Wrappers

  type Node = nat

  // --- asking the nodes -----------------------------------------------------------------------------

  /** One answer per node; `None` if the request failed. */
  type Answers = seq<Option<nat>>

  ghost predicate AllFailed(answers: Answers) {
    forall i :: 0 <= i < |answers| ==> answers[i] == None
  }

  /** The nodes among the first `n` that reported `nonce`, in order. */
  function Reporting(nodes: seq<Node>, answers: Answers, nonce: nat, n: nat): seq<Node>
    requires n <= |answers| == |nodes|
  {
    if n == 0 then []
    else Reporting(nodes, answers, nonce, n - 1) + if answers[n - 1] == Some(nonce) then [nodes[n - 1]] else []
  }

  /** `nonce` is the highest reported nonce. */
  ghost predicate IsHighest(answers: Answers, nonce: nat) {
    Some(nonce) in answers && forall i :: 0 <= i < |answers| && answers[i].Some? ==> answers[i].value <= nonce
  }

  lemma {:induction false} ReportingIsExact(nodes: seq<Node>, answers: Answers, nonce: nat, n: nat, node: Node)
    requires n <= |answers| == |nodes|
    ensures node in Reporting(nodes, answers, nonce, n) <==>
            exists i :: 0 <= i < n && nodes[i] == node && answers[i] == Some(nonce)
  {
    if n > 0 {
      ReportingIsExact(nodes, answers, nonce, n - 1, node);
    }
  }

  /** And they come in the order of the nodes, each once: `at` are their positions. */
  lemma {:induction false} ReportingKeepsTheOrder(nodes: seq<Node>, answers: Answers, nonce: nat, n: nat)
      returns (at: seq<nat>)
    requires n <= |answers| == |nodes|
    ensures |at| == |Reporting(nodes, answers, nonce, n)|
    ensures forall k :: 0 <= k < |at| ==> at[k] < n && Reporting(nodes, answers, nonce, n)[k] == nodes[at[k]]
    ensures forall j, k :: 0 <= j < k < |at| ==> at[j] < at[k]
    ensures forall i :: 0 <= i < n ==> (i in at <==> answers[i] == Some(nonce))
  {
    at := [];
    if n > 0 {
      at := ReportingKeepsTheOrder(nodes, answers, nonce, n - 1);
      if answers[n - 1] == Some(nonce) {
        at := at + [n - 1];
      }
    }
  }

  /** The first of the rounds `k` to 5 in which a node answered, or 6. */
  ghost function AnsweringRound(rounds: nat -> Answers, k: nat): (r: nat)
    ensures k <= r && (r < 6 ==> !AllFailed(rounds(r)))
    ensures forall j :: k <= j < r ==> AllFailed(rounds(j))
    ensures k <= 6 ==> r <= 6
    decreases 6 - k
  {
    if k >= 6 || !AllFailed(rounds(k)) then k else AnsweringRound(rounds, k + 1)
  }

  /** Asks all nodes, up to six times if every request fails. `rounds(k)` are the answers of round
      `k`. The highest nonce comes with exactly the nodes that reported it, at least one. */
  method GetAddrNonce(nodes: seq<Node>, rounds: nat -> Answers) returns (r: Option<(nat, seq<Node>)>)
    requires forall k :: |rounds(k)| == |nodes|
    ensures r.None? <==> forall k :: 0 <= k < 6 ==> AllFailed(rounds(k))
    ensures r.Some? ==>
              var answers := rounds(AnsweringRound(rounds, 0));
              && IsHighest(answers, r.value.0)
              && r.value.1 == Reporting(nodes, answers, r.value.0, |nodes|) != []
  {
    var errors := 0;
    while true
      invariant errors <= 5
      invariant forall k :: 0 <= k < errors ==> AllFailed(rounds(k))
      invariant AnsweringRound(rounds, 0) == AnsweringRound(rounds, errors)
      decreases 6 - errors
    {
      var answers := rounds(errors);
      var highest := HighestNonce(answers);
      if highest.None? {
        errors := errors + 1;
        if errors > 5 {
          return None;
        }
      } else {
        var chosen := Reporting(nodes, answers, highest.value, |nodes|);
        ghost var i :| 0 <= i < |answers| && answers[i] == highest;
        ReportingIsExact(nodes, answers, highest.value, |nodes|, nodes[i]);
        return Some((highest.value, chosen));
      }
    }
  }

  method HighestNonce(answers: Answers) returns (r: Option<nat>)
    ensures r.None? <==> AllFailed(answers)
    ensures r.Some? ==> IsHighest(answers, r.value)
  {
    r := None;
    for i := 0 to |answers|
      invariant r.None? <==> forall j :: 0 <= j < i ==> answers[j] == None
      invariant r.Some? ==> r in answers[..i]
      invariant r.Some? ==> forall j :: 0 <= j < i && answers[j].Some? ==> answers[j].value <= r.value
    {
      if answers[i].Some? && (r.None? || answers[i].value > r.value) {
        r := answers[i];
      }
      assert answers[..i + 1] == answers[..i] + [answers[i]];
    }
    assert answers[..|answers|] == answers;
  }

  // --- sending under the shared lock -------------------------------------------------------------------

  type CoinId = nat

  datatype Phase = Idle | Locked | Signed(nonce: nat) | Waiting(nonce: nat)

  /** The coins of one platform; `observed` is the last nonce a query returned, `sent` the nonces
      of the transactions that were accepted, in order. */
  datatype State = State(lockedBy: Option<CoinId>, coins: map<CoinId, Phase>, observed: nat, sent: seq<nat>)

  datatype Step =
    | Lock(c: CoinId)
    | ReadNonce(c: CoinId, nonce: nat)
    | SendSucceeds(c: CoinId)
    | Fail(c: CoinId)
    | PollNonce(c: CoinId, nonce: nat)

  ghost predicate Init(st: State) {
    st.lockedBy == None && st.sent == [] && forall c :: c in st.coins ==> st.coins[c] == Idle
  }

  ghost function Move(st: State, c: CoinId, phase: Phase): State { st.(coins := st.coins[c := phase]) }

  /** A query never returns less than an earlier one: the highest nonce over the answering nodes
      does not go down. */
  ghost predicate Next(st: State, step: Step, st': State) {
    step.c in st.coins &&
    match step
    case Lock(c) =>
      st.coins[c] == Idle && st.lockedBy == None && st' == Move(st, c, Locked).(lockedBy := Some(c))
    case ReadNonce(c, nonce) =>
      st.coins[c] == Locked && nonce >= st.observed && st' == Move(st, c, Signed(nonce)).(observed := nonce)
    case SendSucceeds(c) =>
      && st.coins[c].Signed?
      && st' == Move(st, c, Waiting(st.coins[c].nonce)).(sent := st.sent + [st.coins[c].nonce])
    case Fail(c) =>
      // no nonce, no gas price, or no node took the transaction
      (st.coins[c].Locked? || st.coins[c].Signed?) && st' == Move(st, c, Idle).(lockedBy := None)
    case PollNonce(c, nonce) =>
      && st.coins[c].Waiting? && nonce >= st.observed
      && st' == if nonce > st.coins[c].nonce then Move(st, c, Idle).(lockedBy := None, observed := nonce)
                else st.(observed := nonce)
  }

  ghost predicate StrictlyIncreasing(s: seq<nat>) {
    forall i, j :: 0 <= i < j < |s| ==> s[i] < s[j]
  }

  ghost predicate AllBelow(s: seq<nat>, bound: nat) { forall i :: 0 <= i < |s| ==> s[i] < bound }

  ghost predicate Inv(st: State) {
    && StrictlyIncreasing(st.sent)
    && (forall c :: c in st.coins && st.coins[c] != Idle ==> st.lockedBy == Some(c))
    && (st.lockedBy.Some? ==> st.lockedBy.value in st.coins && st.coins[st.lockedBy.value] != Idle)
    && (st.lockedBy.Some? && st.coins[st.lockedBy.value].Waiting? ==>
          AllBelow(st.sent, st.coins[st.lockedBy.value].nonce + 1))
    && (st.lockedBy.Some? && st.coins[st.lockedBy.value].Signed? ==>
          AllBelow(st.sent, st.coins[st.lockedBy.value].nonce)
          && st.coins[st.lockedBy.value].nonce <= st.observed)
    && (st.lockedBy.None? || !st.coins[st.lockedBy.value].Waiting? ==> AllBelow(st.sent, st.observed))
  }

  lemma NextKeepsInv(st: State, step: Step, st': State)
    requires Inv(st) && Next(st, step, st')
    ensures Inv(st')
  {
    match step
    case Lock(c) =>
    case ReadNonce(c, nonce) =>
    case SendSucceeds(c) =>
      assert st.lockedBy == Some(c);
    case Fail(c) =>
      assert st.lockedBy == Some(c);
    case PollNonce(c, nonce) =>
      assert st.lockedBy == Some(c);
  }

  ghost predicate Run(states: seq<State>, steps: seq<Step>) {
    && |states| == |steps| + 1 && Init(states[0])
    && forall i :: 0 <= i < |steps| ==> Next(states[i], steps[i], states[i + 1])
  }

  lemma {:induction false} RunKeepsInv(states: seq<State>, steps: seq<Step>, n: nat)
    requires Run(states, steps) && n < |states|
    ensures Inv(states[n])
  {
    if n > 0 {
      RunKeepsInv(states, steps, n - 1);
      NextKeepsInv(states[n - 1], steps[n - 1], states[n]);
    }
  }

  /** In every run of any number of coins the nonces of successful sends strictly increase. */
  lemma SuccessfulSendsUseIncreasingNonces(states: seq<State>, steps: seq<Step>, n: nat)
    requires Run(states, steps) && n < |states|
    ensures StrictlyIncreasing(states[n].sent)
  {
    RunKeepsInv(states, steps, n);
  }
}
