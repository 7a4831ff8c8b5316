/**
 Searching the swap contract's events in windows of limited size. The windows overlap by one
 block; the answer must be that of a single query over the whole range.
 */
module EthLogSearch {
  import opened Wrappers
  import opened Blocks

  type SwapId = nat
  type TxHash = nat

  datatype Event = Event(id: SwapId, txHash: Option<TxHash>)

  /** The events of every block, in log order. */
  type EventsByBlock = nat -> seq<Event>

  datatype Chain = Chain(sent: EventsByBlock, spent: EventsByBlock, refunded: EventsByBlock, hasTx: TxHash -> bool)

  // --- one query ------------------------------------------------------------------------------------

  function FindEvent(events: seq<Event>, id: SwapId): Option<Event> {
    if events == [] then None
    else if events[0].id == id then Some(events[0])
    else FindEvent(events[1..], id)
  }

  function FindIn(events: EventsByBlock, id: SwapId, from: nat, to: int): Option<Event> {
    FindEvent(InBlocks(events, from, to), id)
  }

  lemma {:induction false} FindInConcat(a: seq<Event>, b: seq<Event>, id: SwapId)
    ensures FindEvent(a + b, id) == if FindEvent(a, id).Some? then FindEvent(a, id) else FindEvent(b, id)
  {
    if a == [] {
      assert a + b == b;
    } else {
      assert (a + b)[1..] == a[1..] + b;
      FindInConcat(a[1..], b, id);
    }
  }

  /** The event `k` of block `b` has this id, and the block is one of those asked for. */
  ghost predicate HasEventAt(events: EventsByBlock, id: SwapId, from: nat, to: int, b: nat, k: nat) {
    from <= b <= to && k < |events(b)| && events(b)[k].id == id
  }

  ghost predicate Occurs(events: EventsByBlock, id: SwapId, from: nat, to: int) {
    exists b: nat, k: nat :: HasEventAt(events, id, from, to, b, k)
  }

  /** No event with this id comes before event `k` of block `b` in the logs. */
  ghost predicate NoneBefore(events: EventsByBlock, id: SwapId, from: nat, to: int, b: nat, k: nat) {
    forall c: nat, j: nat :: HasEventAt(events, id, from, to, c, j) ==> b < c || (b == c && k <= j)
  }

  /** `e` is the first event with this id in the blocks `from` to `to`. */
  ghost predicate IsFirst(events: EventsByBlock, id: SwapId, from: nat, to: int, e: Event) {
    exists b: nat, k: nat ::
      HasEventAt(events, id, from, to, b, k) && NoneBefore(events, id, from, to, b, k) && events(b)[k] == e
  }

  lemma {:induction false} FindEventIsFirst(events: seq<Event>, id: SwapId)
    ensures FindEvent(events, id).None? ==> forall k :: 0 <= k < |events| ==> events[k].id != id
    ensures FindEvent(events, id).Some? ==>
              exists k :: 0 <= k < |events| && events[k] == FindEvent(events, id).value && events[k].id == id &&
                          forall j :: 0 <= j < k ==> events[j].id != id
    decreases |events|
  {
    if events != [] && events[0].id != id {
      var rest := events[1..];
      FindEventIsFirst(rest, id);
      assert forall j :: 0 < j < |events| ==> events[j] == rest[j - 1];
      if FindEvent(rest, id).Some? {
        var k :| 0 <= k < |rest| && rest[k] == FindEvent(rest, id).value && rest[k].id == id &&
                 forall j :: 0 <= j < k ==> rest[j].id != id;
        assert events[k + 1] == rest[k];
      }
    }
  }

  lemma {:induction false} FindInIsFirst(events: EventsByBlock, id: SwapId, from: nat, to: int)
    ensures FindIn(events, id, from, to).None? ==> !Occurs(events, id, from, to)
    ensures FindIn(events, id, from, to).Some? ==> IsFirst(events, id, from, to, FindIn(events, id, from, to).value)
    decreases if from <= to then to - from + 1 else 0
  {
    if from <= to {
      var block := events(from);
      FindInConcat(block, InBlocks(events, from + 1, to), id);
      FindEventIsFirst(block, id);
      FindInIsFirst(events, id, from + 1, to);
      if FindEvent(block, id).Some? {
        var k :| 0 <= k < |block| && block[k] == FindEvent(block, id).value && block[k].id == id &&
                 forall j :: 0 <= j < k ==> block[j].id != id;
        assert HasEventAt(events, id, from, to, from, k) && NoneBefore(events, id, from, to, from, k);
      } else {
        FirstAfter(events, id, from, to);
      }
    }
  }

  /** If the first block has no such event, the first one is that of the other blocks. */
  lemma FirstAfter(events: EventsByBlock, id: SwapId, from: nat, to: int)
    requires forall k :: 0 <= k < |events(from)| ==> events(from)[k].id != id
    ensures Occurs(events, id, from, to) ==> Occurs(events, id, from + 1, to)
    ensures forall e :: IsFirst(events, id, from + 1, to, e) ==> IsFirst(events, id, from, to, e)
  {
    forall b: nat, k: nat | HasEventAt(events, id, from, to, b, k)
      ensures HasEventAt(events, id, from + 1, to, b, k)
    {
      assert b != from;
    }
    forall e | IsFirst(events, id, from + 1, to, e) ensures IsFirst(events, id, from, to, e) {
      var b: nat, k: nat :| HasEventAt(events, id, from + 1, to, b, k) &&
                            NoneBefore(events, id, from + 1, to, b, k) && events(b)[k] == e;
      assert HasEventAt(events, id, from, to, b, k) && NoneBefore(events, id, from, to, b, k);
    }
  }

  lemma FirstIsUnique(events: EventsByBlock, id: SwapId, from: nat, to: int, e: Event, f: Event)
    requires IsFirst(events, id, from, to, e) && IsFirst(events, id, from, to, f)
    ensures e == f && e.id == id && Occurs(events, id, from, to)
  {}

  /** A query finds the first event with the id, and nothing exactly if there is none. */
  lemma FindInIff(events: EventsByBlock, id: SwapId, from: nat, to: int)
    ensures FindIn(events, id, from, to).None? <==> !Occurs(events, id, from, to)
    ensures forall e :: FindIn(events, id, from, to) == Some(e) <==> IsFirst(events, id, from, to, e)
  {
    FindInIsFirst(events, id, from, to);
    forall e | IsFirst(events, id, from, to, e) ensures FindIn(events, id, from, to) == Some(e) {
      FirstIsUnique(events, id, from, to, e, e);
      FirstIsUnique(events, id, from, to, e, FindIn(events, id, from, to).value);
    }
    if FindIn(events, id, from, to).Some? {
      FirstIsUnique(events, id, from, to, FindIn(events, id, from, to).value, FindIn(events, id, from, to).value);
    }
  }

  /** Two windows that share the block `mid` find what one query over both finds. */
  lemma OverlappingWindows(events: EventsByBlock, id: SwapId, from: nat, mid: nat, to: nat)
    requires from <= mid <= to
    ensures FindIn(events, id, from, to) ==
            if FindIn(events, id, from, mid).Some? then FindIn(events, id, from, mid)
            else FindIn(events, id, mid, to)
  {
    SplitBlocks(events, from, mid, to);
    FindInConcat(InBlocks(events, from, mid), InBlocks(events, mid + 1, to), id);
    SplitBlocks(events, from, mid - 1, mid);
    FindInConcat(InBlocks(events, from, mid - 1), InBlocks(events, mid, mid), id);
    SplitBlocks(events, mid, mid, to);
    FindInConcat(InBlocks(events, mid, mid), InBlocks(events, mid + 1, to), id);
  }

  // --- the windows ----------------------------------------------------------------------------------

  function ToBlock(from: nat, head: nat, range: nat): nat {
    if head <= from + range then head else from + range
  }

  /** The windows that are searched, if nothing is found. */
  ghost function Windows(from: nat, head: nat, range: nat): seq<(nat, nat)>
    requires range >= 1 && from <= head
    decreases head - from
  {
    var to := ToBlock(from, head, range);
    [(from, to)] + if to >= head then [] else Windows(to, head, range)
  }

  lemma {:induction false} WindowAt(from: nat, head: nat, range: nat, i: nat)
    requires range >= 1 && from <= head && i < |Windows(from, head, range)|
    ensures var ws := Windows(from, head, range);
            && from <= ws[i].0 <= ws[i].1 <= head && ws[i].1 - ws[i].0 <= range
            && (i + 1 < |ws| ==> ws[i].1 == ws[i + 1].0 && ws[i].1 - ws[i].0 == range)
            && (i + 1 == |ws| ==> ws[i].1 == head)
    decreases head - from
  {
    var to, ws := ToBlock(from, head, range), Windows(from, head, range);
    if to < head {
      var rest := Windows(to, head, range);
      assert |ws| == |rest| + 1 && ws[1] == rest[0] && rest[0].0 == to;
      if i > 0 {
        WindowAt(to, head, range, i - 1);
        assert ws[i] == rest[i - 1] && (i + 1 < |ws| ==> ws[i + 1] == rest[i]);
      }
    }
  }

  /** Every window but the last is as large as the range allows, the last no larger, and each starts where the
      one before it ended. */
  lemma WindowsAreChained(from: nat, head: nat, range: nat)
    requires range >= 1 && from <= head
    ensures var ws := Windows(from, head, range);
            && (forall i :: 0 <= i < |ws| ==> from <= ws[i].0 <= ws[i].1 <= head && ws[i].1 - ws[i].0 <= range)
            && (forall i, j :: 0 <= i && j == i + 1 && j < |ws| ==> ws[i].1 == ws[j].0)
            && (forall i :: 0 <= i < |ws| - 1 ==> ws[i].1 - ws[i].0 == range)
            && ws[0].0 == from && ws[|ws| - 1].1 == head
  {
    var ws := Windows(from, head, range);
    WindowAt(from, head, range, |ws| - 1);
    forall i | 0 <= i < |ws|
      ensures from <= ws[i].0 <= ws[i].1 <= head && ws[i].1 - ws[i].0 <= range
      ensures i < |ws| - 1 ==> ws[i].1 - ws[i].0 == range
    {
      WindowAt(from, head, range, i);
    }
    forall i, j | 0 <= i && j == i + 1 && j < |ws| ensures ws[i].1 == ws[j].0 {
      WindowAt(from, head, range, i);
    }
  }

  ghost predicate Covered(ws: seq<(nat, nat)>, block: nat) {
    exists i :: 0 <= i < |ws| && ws[i].0 <= block <= ws[i].1
  }

  /** For every range of at least one block the windows cover exactly `from` to `head`. */
  lemma {:induction false} WindowsCoverTheRange(from: nat, head: nat, range: nat, block: nat)
    requires range >= 1 && from <= head
    ensures from <= block <= head <==> Covered(Windows(from, head, range), block)
    decreases head - from
  {
    var to, ws := ToBlock(from, head, range), Windows(from, head, range);
    WindowsAreChained(from, head, range);
    assert ws[0] == (from, to);
    if to < block <= head {
      WindowsCoverTheRange(to, head, range, block);
      var rest := Windows(to, head, range);
      var i :| 0 <= i < |rest| && rest[i].0 <= block <= rest[i].1;
      assert ws[i + 1] == rest[i];
    }
  }

  // --- what is found -----------------------------------------------------------------------------------

  datatype Finding = SpendFound(event: Event) | RefundFound(event: Event) | NothingFound

  /** What one pair of queries over `from` to `to` finds; a spend goes first. */
  function Found(chain: Chain, id: SwapId, from: nat, to: nat): Finding {
    match FindIn(chain.spent, id, from, to)
    case Some(event) => SpendFound(event)
    case None =>
      match FindIn(chain.refunded, id, from, to)
      case Some(event) => RefundFound(event)
      case None => NothingFound
  }

  /** What a finding of one window and a finding of the next one make together: the first stands, unless it
      is a refund and a spend follows. */
  function Joined(first: Finding, second: Finding): Finding {
    if first.SpendFound? || (first.RefundFound? && !second.SpendFound?) then first else second
  }

  lemma FoundInTwoWindows(chain: Chain, id: SwapId, from: nat, mid: nat, to: nat)
    requires from <= mid <= to
    ensures Found(chain, id, from, to) == Joined(Found(chain, id, from, mid), Found(chain, id, mid, to))
  {
    OverlappingWindows(chain.spent, id, from, mid, to);
    OverlappingWindows(chain.refunded, id, from, mid, to);
  }

  // --- what the windows find ---------------------------------------------------------------------------

  /** What every window finds. */
  type Findings = (nat, nat) -> Finding

  function FindingsOf(chain: Chain, id: SwapId): Findings {
    (from: nat, to: nat) => Found(chain, id, from, to)
  }

  /** Neighbouring windows make one window, and a window without blocks has nothing. */
  ghost predicate Joins(found: Findings) {
    && (forall from, mid, to :: from <= mid <= to ==> found(from, to) == Joined(found(from, mid), found(mid, to)))
    && (forall from, to :: to < from ==> found(from, to) == NothingFound)
  }

  lemma FindingsJoin(chain: Chain, id: SwapId)
    ensures Joins(FindingsOf(chain, id))
  {
    var found := FindingsOf(chain, id);
    forall from, mid, to | from <= mid <= to
      ensures found(from, to) == Joined(found(from, mid), found(mid, to))
    {
      FoundInTwoWindows(chain, id, from, mid, to);
    }
  }

  ghost predicate FindingEnds(found: Findings, from: nat, head: nat, range: nat) {
    range >= 1 || from >= head || found(from, from) != NothingFound
  }

  /** What the windows find one after the other: the first window that has anything decides. */
  ghost function ChunkedFinding(found: Findings, from: nat, head: nat, range: nat): Finding
    requires FindingEnds(found, from, head, range)
    decreases head - from
  {
    var to := ToBlock(from, head, range);
    if found(from, to) != NothingFound || to >= head then found(from, to) else ChunkedFinding(found, to, head, range)
  }

  ghost predicate Multiple(x: nat, range: nat)
    requires range >= 1
  {
    x == 0 || (x >= range && Multiple(x - range, range))
  }

  /** The ends of the windows before the last one. */
  ghost predicate WindowEnd(from: nat, head: nat, range: nat, b: nat) {
    if range == 0 then b == from else from < b < head && Multiple(b - from, range)
  }

  /** Up to the end of a window there is only a refund, and a spend follows. */
  ghost predicate RefundWins(found: Findings, from: nat, head: nat, range: nat) {
    found(from, head).SpendFound? && exists b: nat :: WindowEnd(from, head, range, b) && found(from, b).RefundFound?
  }

  lemma WindowEndInTheRest(from: nat, head: nat, range: nat, b: nat)
    requires range >= 1 && from + range <= b
    ensures WindowEnd(from + range, head, range, b) <==> b != from + range && WindowEnd(from, head, range, b)
  {
    assert Multiple(b - from, range) <==> Multiple(b - (from + range), range);
  }

  lemma WindowEndsAreNotEarlier(from: nat, head: nat, range: nat)
    ensures forall b: nat :: WindowEnd(from, head, range, b) ==> b >= from + range
  {}

  lemma RefundWinsInTheRest(found: Findings, from: nat, head: nat, range: nat)
    requires Joins(found) && range >= 1 && from + range < head && found(from, from + range) == NothingFound
    ensures RefundWins(found, from, head, range) <==> RefundWins(found, from + range, head, range)
    ensures found(from, head) == found(from + range, head)
  {
    var to := from + range;
    if RefundWins(found, from, head, range) {
      var b: nat :| WindowEnd(from, head, range, b) && found(from, b).RefundFound?;
      WindowEndsAreNotEarlier(from, head, range);
      WindowEndInTheRest(from, head, range, b);
      assert found(from, b) == Joined(found(from, to), found(to, b));
      assert WindowEnd(to, head, range, b);
    }
    if RefundWins(found, to, head, range) {
      var b: nat :| WindowEnd(to, head, range, b) && found(to, b).RefundFound?;
      WindowEndInTheRest(from, head, range, b);
      assert found(from, b) == Joined(found(from, to), found(to, b));
      assert WindowEnd(from, head, range, b);
    }
    assert found(from, head) == Joined(found(from, to), found(to, head));
  }

  lemma FirstWindowDecides(found: Findings, from: nat, head: nat, range: nat)
    requires Joins(found) && from + range < head && found(from, from + range) != NothingFound
    ensures found(from, from + range) == found(from, head) <==> !RefundWins(found, from, head, range)
    ensures RefundWins(found, from, head, range) ==> found(from, from + range).RefundFound?
  {
    var to := from + range;
    assert found(from, head) == Joined(found(from, to), found(to, head));
    assert WindowEnd(from, head, range, to) by {
      assert range >= 1 ==> Multiple(range, range);
    }
    if RefundWins(found, from, head, range) {
      var b: nat :| WindowEnd(from, head, range, b) && found(from, b).RefundFound?;
      WindowEndsAreNotEarlier(from, head, range);
      assert found(from, b) == Joined(found(from, to), found(to, b));
    }
  }

  /** The chunked search finds what one query over the whole range finds, exactly unless a refund wins:
      then it finds a refund although there is a spend. */
  lemma {:induction false} ChunkedFindingIsExactIff(found: Findings, from: nat, head: nat, range: nat)
    requires Joins(found) && FindingEnds(found, from, head, range)
    ensures ChunkedFinding(found, from, head, range) == found(from, head) <==> !RefundWins(found, from, head, range)
    ensures RefundWins(found, from, head, range) ==> ChunkedFinding(found, from, head, range).RefundFound?
    decreases head - from
  {
    var to := ToBlock(from, head, range);
    if to >= head {
      WindowEndsAreNotEarlier(from, head, range);
    } else if found(from, to) == NothingFound {
      RefundWinsInTheRest(found, from, head, range);
      ChunkedFindingIsExactIff(found, to, head, range);
    } else {
      FirstWindowDecides(found, from, head, range);
    }
  }

  ghost predicate RefundOvertakes(found: Findings, from: nat, head: nat, b: nat) {
    from < b < head && found(from, b).RefundFound? && found(from, head).SpendFound?
  }

  /** All ranges find the same, exactly if there is no block after the first up to which there is only a
      refund while a spend follows. */
  lemma RangeDoesNotMatterIff(found: Findings, from: nat, head: nat)
    requires Joins(found)
    ensures (forall range: nat :: range >= 1 ==> ChunkedFinding(found, from, head, range) == found(from, head)) <==>
            (forall b: nat :: !RefundOvertakes(found, from, head, b))
  {
    if b: nat :| RefundOvertakes(found, from, head, b) {
      RangeThatMatters(found, from, head, b);
    } else {
      forall range: nat | range >= 1 ensures ChunkedFinding(found, from, head, range) == found(from, head) {
        ChunkedFindingIsExactIff(found, from, head, range);
        if b: nat :| WindowEnd(from, head, range, b) && found(from, b).RefundFound? {
          assert !RefundOvertakes(found, from, head, b);
        }
      }
    }
  }

  lemma RangeThatMatters(found: Findings, from: nat, head: nat, b: nat)
    requires Joins(found) && RefundOvertakes(found, from, head, b)
    ensures ChunkedFinding(found, from, head, b - from) != found(from, head)
  {
    var range := b - from;
    assert Multiple(0, range) && Multiple(range, range);
    assert WindowEnd(from, head, range, b);
    ChunkedFindingIsExactIff(found, from, head, range);
  }

  // --- the search for a spend or a refund --------------------------------------------------------------

  datatype Answer = Spent(tx: TxHash) | Refunded(tx: TxHash) | NotFound | BrokenEvent | RpcError

  /** The requests to the node; each may fail. */
  datatype Query =
    | SentLogs(from: nat, to: nat)
    | SpentLogs(from: nat, to: nat)
    | RefundedLogs(from: nat, to: nat)
    | Transaction(hash: TxHash)

  type Outages = Query -> bool

  /** The answer to a finding: the transaction of the event has to exist. */
  function Conclude(chain: Chain, found: Finding): (a: Answer)
    ensures a == NotFound <==> found == NothingFound
    ensures a.Spent? ==> found.SpendFound?
    ensures a.Refunded? ==> found.RefundFound?
    ensures a != RpcError
  {
    if found == NothingFound then NotFound
    else if found.event.txHash.None? || !chain.hasTx(found.event.txHash.value) then BrokenEvent
    else if found.SpendFound? then Spent(found.event.txHash.value)
    else Refunded(found.event.txHash.value)
  }

  /** What the requests of one window answer: the second query is only made if the first finds nothing,
      and the transaction is only asked for if its hash is known. */
  function WindowAnswer(chain: Chain, outage: Outages, id: SwapId, from: nat, to: nat): (r: Answer)
    ensures r == RpcError || r == Conclude(chain, Found(chain, id, from, to))
    ensures r == RpcError ==> exists q :: outage(q)
  {
    if outage(SpentLogs(from, to)) then RpcError
    else
      var spend := FindIn(chain.spent, id, from, to);
      if spend.Some? then EventAnswer(chain, outage, SpendFound(spend.value))
      else if outage(RefundedLogs(from, to)) then RpcError
      else
        var refund := FindIn(chain.refunded, id, from, to);
        if refund.Some? then EventAnswer(chain, outage, RefundFound(refund.value)) else NotFound
  }

  function EventAnswer(chain: Chain, outage: Outages, found: Finding): (r: Answer)
    requires found != NothingFound
    ensures r == RpcError || r == Conclude(chain, found)
    ensures r == RpcError ==> exists q :: outage(q)
  {
    var hash := found.event.txHash;
    if hash.Some? && outage(Transaction(hash.value)) then RpcError else Conclude(chain, found)
  }

  /** What every window answers. */
  type Answers = (nat, nat) -> Answer

  function AnswersOf(chain: Chain, outage: Outages, id: SwapId): Answers {
    (from: nat, to: nat) => WindowAnswer(chain, outage, id, from, to)
  }

  /** When the loop ends. */
  ghost predicate SearchEnds(answers: Answers, from: nat, head: nat, range: nat) {
    range >= 1 || from >= head || answers(from, from) != NotFound
  }

  /** What the windows answer one after the other. */
  ghost function Chunked(answers: Answers, from: nat, head: nat, range: nat): Answer
    requires SearchEnds(answers, from, head, range)
    decreases head - from
  {
    var to := ToBlock(from, head, range);
    if answers(from, to) != NotFound || to >= head then answers(from, to) else Chunked(answers, to, head, range)
  }

  /** Unless a request fails, the answer is that to the finding of the windows. */
  lemma {:induction false} ChunkedAnswersTheFinding(chain: Chain, outage: Outages, id: SwapId,
                                                    from: nat, head: nat, range: nat)
    requires SearchEnds(AnswersOf(chain, outage, id), from, head, range)
    ensures var r := Chunked(AnswersOf(chain, outage, id), from, head, range);
            if r == RpcError then exists q :: outage(q)
            else && FindingEnds(FindingsOf(chain, id), from, head, range)
                 && r == Conclude(chain, ChunkedFinding(FindingsOf(chain, id), from, head, range))
    decreases head - from
  {
    var to := ToBlock(from, head, range);
    if WindowAnswer(chain, outage, id, from, to) == NotFound && to < head {
      ChunkedAnswersTheFinding(chain, outage, id, to, head, range);
    }
  }

  /** What the windows find is the first event of its kind in the whole range. */
  lemma {:induction false} ChunkedFindingIsFirst(chain: Chain, id: SwapId, from: nat, head: nat, range: nat)
    requires from <= head && FindingEnds(FindingsOf(chain, id), from, head, range)
    ensures var found := ChunkedFinding(FindingsOf(chain, id), from, head, range);
            match found
            case SpendFound(e) => FindIn(chain.spent, id, from, head) == Some(e)
            case RefundFound(e) => FindIn(chain.refunded, id, from, head) == Some(e)
            case NothingFound =>
              FindIn(chain.spent, id, from, head) == None && FindIn(chain.refunded, id, from, head) == None
    decreases head - from
  {
    var to := ToBlock(from, head, range);
    OverlappingWindows(chain.spent, id, from, to, head);
    OverlappingWindows(chain.refunded, id, from, to, head);
    if Found(chain, id, from, to) == NothingFound && to < head {
      ChunkedFindingIsFirst(chain, id, to, head, range);
    }
  }

  /** What an answer says about the blocks `from` to `to` of the chain. */
  ghost predicate IsOnChain(chain: Chain, id: SwapId, from: nat, to: nat, r: Answer) {
    match r
    case Spent(h) => IsFirst(chain.spent, id, from, to, Event(id, Some(h))) && chain.hasTx(h)
    case Refunded(h) => IsFirst(chain.refunded, id, from, to, Event(id, Some(h))) && chain.hasTx(h)
    case NotFound => !Occurs(chain.spent, id, from, to) && !Occurs(chain.refunded, id, from, to)
    case BrokenEvent =>
      exists e :: && (IsFirst(chain.spent, id, from, to, e) || IsFirst(chain.refunded, id, from, to, e))
                  && (e.txHash.None? || !chain.hasTx(e.txHash.value))
    case RpcError => true
  }

  lemma ConclusionIsOnChain(chain: Chain, id: SwapId, from: nat, head: nat, range: nat)
    requires from <= head && FindingEnds(FindingsOf(chain, id), from, head, range)
    ensures IsOnChain(chain, id, from, head,
                      Conclude(chain, ChunkedFinding(FindingsOf(chain, id), from, head, range)))
  {
    ChunkedFindingIsFirst(chain, id, from, head, range);
    FindInIff(chain.spent, id, from, head);
    FindInIff(chain.refunded, id, from, head);
    var found := ChunkedFinding(FindingsOf(chain, id), from, head, range);
    if found.SpendFound? {
      FirstIsUnique(chain.spent, id, from, head, found.event, found.event);
    } else if found.RefundFound? {
      FirstIsUnique(chain.refunded, id, from, head, found.event, found.event);
    }
  }

  /** The transaction of the first event cannot be fetched. */
  ghost predicate LookupFails(events: EventsByBlock, outage: Outages, id: SwapId, from: nat, to: nat) {
    exists h: TxHash :: IsFirst(events, id, from, to, Event(id, Some(h))) && outage(Transaction(h))
  }

  /** One of the requests that a window needs fails. Refunds are asked for only if there is no spend. */
  ghost predicate WindowFails(chain: Chain, outage: Outages, id: SwapId, from: nat, to: nat) {
    || outage(SpentLogs(from, to))
    || LookupFails(chain.spent, outage, id, from, to)
    || (!Occurs(chain.spent, id, from, to) &&
        (outage(RefundedLogs(from, to)) || LookupFails(chain.refunded, outage, id, from, to)))
  }

  lemma LookupFailsIff(events: EventsByBlock, outage: Outages, id: SwapId, from: nat, to: nat)
    ensures LookupFails(events, outage, id, from, to) <==>
            && FindIn(events, id, from, to).Some? && FindIn(events, id, from, to).value.txHash.Some?
            && outage(Transaction(FindIn(events, id, from, to).value.txHash.value))
    ensures FindIn(events, id, from, to).Some? <==> Occurs(events, id, from, to)
  {
    FindInIff(events, id, from, to);
    if FindIn(events, id, from, to).Some? {
      var e := FindIn(events, id, from, to).value;
      FirstIsUnique(events, id, from, to, e, e);
      if e.txHash.Some? && outage(Transaction(e.txHash.value)) {
        assert IsFirst(events, id, from, to, Event(id, Some(e.txHash.value)));
      }
    }
    if LookupFails(events, outage, id, from, to) {
      var h: TxHash :| IsFirst(events, id, from, to, Event(id, Some(h))) && outage(Transaction(h));
      assert FindIn(events, id, from, to) == Some(Event(id, Some(h)));
    }
  }

  /** A window ends with an error exactly if a request that it needs fails. */
  lemma WindowFailsIff(chain: Chain, outage: Outages, id: SwapId, from: nat, to: nat)
    ensures WindowAnswer(chain, outage, id, from, to) == RpcError <==> WindowFails(chain, outage, id, from, to)
  {
    LookupFailsIff(chain.spent, outage, id, from, to);
    LookupFailsIff(chain.refunded, outage, id, from, to);
  }

  /** A request of one of the windows fails. */
  ghost predicate AnyWindowFails(chain: Chain, outage: Outages, id: SwapId, asked: seq<(nat, nat)>) {
    exists i :: 0 <= i < |asked| && WindowFails(chain, outage, id, asked[i].0, asked[i].1)
  }

  lemma OneMoreWindow(chain: Chain, outage: Outages, id: SwapId, asked: seq<(nat, nat)>, from: nat, to: nat)
    ensures AnyWindowFails(chain, outage, id, asked + [(from, to)]) <==>
            AnyWindowFails(chain, outage, id, asked) || WindowAnswer(chain, outage, id, from, to) == RpcError
  {
    WindowFailsIff(chain, outage, id, from, to);
    var more := asked + [(from, to)];
    assert more[|asked|] == (from, to) && forall i :: 0 <= i < |asked| ==> more[i] == asked[i];
    if AnyWindowFails(chain, outage, id, asked) {
      var i :| 0 <= i < |asked| && WindowFails(chain, outage, id, asked[i].0, asked[i].1);
      assert WindowFails(chain, outage, id, more[i].0, more[i].1);
    }
  }

  const NO_OUTAGE: Outages := _ => false

  /** A refund in block 0 and a spend in block 2 are judged differently by ranges 1 and 2. */
  lemma RangeMattersIfSettledTwice() returns (chain: Chain)
    ensures Chunked(AnswersOf(chain, NO_OUTAGE, 7), 0, 2, 1) == Refunded(1)
    ensures Chunked(AnswersOf(chain, NO_OUTAGE, 7), 0, 2, 2) == Spent(2)
  {
    chain := Chain(_ => [], b => if b == 2 then [Event(7, Some(2))] else [],
                   b => if b == 0 then [Event(7, Some(1))] else [], _ => true);
    assert InBlocks(chain.spent, 0, 1) == [] by {
      assert InBlocks(chain.spent, 1, 1) == chain.spent(1) + InBlocks(chain.spent, 2, 1);
    }
    assert InBlocks(chain.spent, 0, 2) == [Event(7, Some(2))] by {
      assert InBlocks(chain.spent, 1, 2) == chain.spent(1) + InBlocks(chain.spent, 2, 2);
      assert InBlocks(chain.spent, 2, 2) == chain.spent(2) + InBlocks(chain.spent, 3, 2);
    }
    assert InBlocks(chain.refunded, 0, 1)[0] == Event(7, Some(1));
    assert Found(chain, 7, 0, 1) == RefundFound(Event(7, Some(1)));
    assert Found(chain, 7, 0, 2) == SpendFound(Event(7, Some(2)));
    ChunkedAnswersTheFinding(chain, NO_OUTAGE, 7, 0, 2, 1);
    ChunkedAnswersTheFinding(chain, NO_OUTAGE, 7, 0, 2, 2);
  }

  /** The contract settles a payment once: it is not both spent and refunded. */
  ghost predicate SettledOnce(chain: Chain, id: SwapId, from: nat, to: nat) {
    FindIn(chain.spent, id, from, to).None? || FindIn(chain.refunded, id, from, to).None?
  }

  /** For a contract that settles once no refund wins. */
  lemma SettledOnceIsEnough(chain: Chain, id: SwapId, from: nat, head: nat, range: nat)
    requires SettledOnce(chain, id, from, head)
    ensures !RefundWins(FindingsOf(chain, id), from, head, range)
  {
    if RefundWins(FindingsOf(chain, id), from, head, range) {
      var b: nat :| WindowEnd(from, head, range, b) && Found(chain, id, from, b).RefundFound?;
      if b <= head {
        OverlappingWindows(chain.refunded, id, from, b, head);
      }
    }
  }

  // --- whether the loop ends -----------------------------------------------------------------------------

  datatype Loop = At(fromBlock: nat) | Stopped(answer: Answer)

  ghost function Iterate(answers: Answers, head: nat, range: nat, loop: Loop): Loop {
    match loop
    case Stopped(_) => loop
    case At(from) =>
      var to := ToBlock(from, head, range);
      if answers(from, to) != NotFound || to >= head then Stopped(answers(from, to)) else At(to)
  }

  ghost function After(answers: Answers, head: nat, range: nat, loop: Loop, n: nat): Loop
    decreases n
  {
    if n == 0 then loop else After(answers, head, range, Iterate(answers, head, range, loop), n - 1)
  }

  /** The loop ends exactly if the range is at least one block, or there is only one window, or the first
      window already gives an answer; it then ends with the chunked answer. */
  lemma SearchEndsIff(answers: Answers, from: nat, head: nat, range: nat)
    ensures (exists n: nat :: After(answers, head, range, At(from), n).Stopped?) <==>
            SearchEnds(answers, from, head, range)
    ensures SearchEnds(answers, from, head, range) ==>
              exists n: nat :: After(answers, head, range, At(from), n) == Stopped(Chunked(answers, from, head, range))
  {
    if SearchEnds(answers, from, head, range) {
      var n := EndsAfter(answers, from, head, range);
    } else {
      forall n: nat ensures After(answers, head, range, At(from), n) == At(from) {
        StaysAt(answers, from, head, n);
      }
    }
  }

  const EMPTY_CHAIN := Chain(_ => [], _ => [], _ => [], _ => false)

  /** Without events a search from block 0 to block 1 in windows of range 0 stays at block 0 forever. */
  lemma ZeroRangeNeverEnds(n: nat)
    ensures After(AnswersOf(EMPTY_CHAIN, NO_OUTAGE, 7), 1, 0, At(0), n) == At(0)
  {
    assert InBlocks(EMPTY_CHAIN.spent, 0, 0) == [] && InBlocks(EMPTY_CHAIN.refunded, 0, 0) == [];
    assert WindowAnswer(EMPTY_CHAIN, NO_OUTAGE, 7, 0, 0) == NotFound;
    StaysAt(AnswersOf(EMPTY_CHAIN, NO_OUTAGE, 7), 0, 1, n);
  }

  lemma {:induction false} EndsAfter(answers: Answers, from: nat, head: nat, range: nat) returns (n: nat)
    requires SearchEnds(answers, from, head, range)
    ensures After(answers, head, range, At(from), n) == Stopped(Chunked(answers, from, head, range))
    decreases head - from
  {
    var to := ToBlock(from, head, range);
    var next := Iterate(answers, head, range, At(from));
    if next.Stopped? {
      n := 1;
      assert After(answers, head, range, next, 0) == next;
    } else {
      n := EndsAfter(answers, to, head, range);
      n := n + 1;
    }
  }

  lemma {:induction false} StaysAt(answers: Answers, from: nat, head: nat, n: nat)
    requires !SearchEnds(answers, from, head, 0)
    ensures After(answers, head, 0, At(from), n) == At(from)
  {
    if n > 0 {
      StaysAt(answers, from, head, n - 1);
    }
  }

  // --- the search as it is run ------------------------------------------------------------------------------

  function LastBlock(head: nat, searchFromBlock: nat): nat {
    if head < searchFromBlock then searchFromBlock else head
  }

  /** `search_for_swap_tx_spend`, called so that its loop ends. */
  method SearchForSwapTxSpend(chain: Chain, outage: Outages, id: SwapId, head: Option<nat>,
                              searchFromBlock: nat, range: nat)
      returns (r: Answer, ghost asked: seq<(nat, nat)>)
    requires head.Some? ==>
               SearchEnds(AnswersOf(chain, outage, id), searchFromBlock, LastBlock(head.value, searchFromBlock), range)
    ensures head.None? ==> r == RpcError
    ensures head.Some? ==> IsOnChain(chain, id, searchFromBlock, LastBlock(head.value, searchFromBlock), r)
    ensures head.Some? ==> Searched(chain, outage, id, searchFromBlock, LastBlock(head.value, searchFromBlock),
                                    range, r, asked)
  {
    if head.None? {
      return RpcError, [];
    }
    var currentBlock := head.value;
    if currentBlock < searchFromBlock {
      currentBlock := searchFromBlock;
    }
    r, asked := SearchWindows(chain, outage, id, searchFromBlock, currentBlock, range);
  }

  /** What a search from `from` to `head` that answers `r` after asking for the windows `asked` promises:
      an error exactly if a request of these windows failed; otherwise what it answers is on the chain, and is
      the answer of one query over the whole range, exactly unless a refund wins, when it is no spend although
      there is one; nothing is found only after all windows were asked for. */
  ghost predicate Searched(chain: Chain, outage: Outages, id: SwapId, from: nat, head: nat, range: nat,
                           r: Answer, asked: seq<(nat, nat)>)
    requires from <= head
  {
    && (r == RpcError <==> AnyWindowFails(chain, outage, id, asked))
    && IsOnChain(chain, id, from, head, r)
    && (r.Refunded? && !RefundWins(FindingsOf(chain, id), from, head, range) ==> !Occurs(chain.spent, id, from, head))
    && (r != RpcError && !RefundWins(FindingsOf(chain, id), from, head, range) ==>
          r == Conclude(chain, Found(chain, id, from, head)))
    && (r != RpcError && RefundWins(FindingsOf(chain, id), from, head, range) ==>
          (r.Refunded? || r.BrokenEvent?) && Found(chain, id, from, head).SpendFound?)
    && (range >= 1 ==> asked <= Windows(from, head, range))
    && (range >= 1 && r == NotFound ==> asked == Windows(from, head, range))
  }

  method SearchWindows(chain: Chain, outage: Outages, id: SwapId, searchFromBlock: nat, currentBlock: nat, range: nat)
      returns (r: Answer, ghost asked: seq<(nat, nat)>)
    requires searchFromBlock <= currentBlock
    requires SearchEnds(AnswersOf(chain, outage, id), searchFromBlock, currentBlock, range)
    ensures r == Chunked(AnswersOf(chain, outage, id), searchFromBlock, currentBlock, range)
    ensures Searched(chain, outage, id, searchFromBlock, currentBlock, range, r, asked)
  {
    ghost var answers := AnswersOf(chain, outage, id);
    var fromBlock := searchFromBlock;
    asked := [];
    while true
      invariant searchFromBlock <= fromBlock <= currentBlock
      invariant SearchEnds(answers, fromBlock, currentBlock, range)
      invariant Chunked(answers, fromBlock, currentBlock, range)
             == Chunked(answers, searchFromBlock, currentBlock, range)
      invariant range >= 1 ==>
                  asked + Windows(fromBlock, currentBlock, range) == Windows(searchFromBlock, currentBlock, range)
      invariant !AnyWindowFails(chain, outage, id, asked)
      decreases currentBlock - fromBlock
    {
      var toBlock := ToBlock(fromBlock, currentBlock, range);
      if range >= 1 {
        FirstWindow(fromBlock, currentBlock, range, asked, Windows(searchFromBlock, currentBlock, range));
      }
      OneMoreWindow(chain, outage, id, asked, fromBlock, toBlock);
      asked := asked + [(fromBlock, toBlock)];
      var answer := WindowAnswer(chain, outage, id, fromBlock, toBlock);
      if answer != NotFound || toBlock >= currentBlock {
        ChunkedIsSearched(chain, outage, id, searchFromBlock, currentBlock, range, asked);
        return answer, asked;
      }
      fromBlock := toBlock;
    }
  }

  lemma ChunkedIsSearched(chain: Chain, outage: Outages, id: SwapId, from: nat, head: nat, range: nat,
                          asked: seq<(nat, nat)>)
    requires from <= head && SearchEnds(AnswersOf(chain, outage, id), from, head, range)
    requires range >= 1 ==> asked <= Windows(from, head, range)
    requires range >= 1 && Chunked(AnswersOf(chain, outage, id), from, head, range) == NotFound ==>
               asked == Windows(from, head, range)
    requires Chunked(AnswersOf(chain, outage, id), from, head, range) == RpcError <==>
             AnyWindowFails(chain, outage, id, asked)
    ensures Searched(chain, outage, id, from, head, range,
                     Chunked(AnswersOf(chain, outage, id), from, head, range), asked)
  {
    ChunkedAnswersTheFinding(chain, outage, id, from, head, range);
    if FindingEnds(FindingsOf(chain, id), from, head, range) {
      FindingsJoin(chain, id);
      ChunkedFindingIsExactIff(FindingsOf(chain, id), from, head, range);
      ConclusionIsOnChain(chain, id, from, head, range);
      FindInIff(chain.spent, id, from, head);
    }
  }

  lemma FirstWindow(from: nat, head: nat, range: nat, asked: seq<(nat, nat)>, all: seq<(nat, nat)>)
    requires range >= 1 && from <= head && asked + Windows(from, head, range) == all
    ensures var to := ToBlock(from, head, range);
            && asked + [(from, to)] <= all
            && (to >= head ==> asked + [(from, to)] == all)
            && (to < head ==> (asked + [(from, to)]) + Windows(to, head, range) == all)
  {}

  // --- the search for a sent payment ---------------------------------------------------------------------

  datatype SentAnswer = SentBy(tx: TxHash) | NotSent | NoTransactionHash | NodeError

  const UNINITIALIZED: nat := 0

  function ResolveSent(chain: Chain, found: Option<Event>): SentAnswer {
    match found
    case None => NotSent
    case Some(event) =>
      if event.txHash.None? then NoTransactionHash
      else if chain.hasTx(event.txHash.value) then SentBy(event.txHash.value) else NotSent
  }

  ghost predicate SentSearchEnds(chain: Chain, outage: Outages, id: SwapId, from: nat, head: nat, range: nat) {
    range >= 1 || from >= head || outage(SentLogs(from, from)) || FindIn(chain.sent, id, from, from).Some?
  }

  ghost predicate SentWindowFails(chain: Chain, outage: Outages, id: SwapId, from: nat, to: nat) {
    outage(SentLogs(from, to)) || LookupFails(chain.sent, outage, id, from, to)
  }

  /** What an answer says about the blocks `from` to `to` of the chain. */
  ghost predicate IsSentOnChain(chain: Chain, id: SwapId, from: nat, to: nat, r: SentAnswer) {
    match r
    case SentBy(h) => IsFirst(chain.sent, id, from, to, Event(id, Some(h))) && chain.hasTx(h)
    case NotSent =>
      || !Occurs(chain.sent, id, from, to)
      || exists h :: IsFirst(chain.sent, id, from, to, Event(id, Some(h))) && !chain.hasTx(h)
    case NoTransactionHash => IsFirst(chain.sent, id, from, to, Event(id, None))
    case NodeError => true
  }

  lemma ResolvedIsOnChain(chain: Chain, id: SwapId, from: nat, to: nat)
    ensures IsSentOnChain(chain, id, from, to, ResolveSent(chain, FindIn(chain.sent, id, from, to)))
  {
    FindInIff(chain.sent, id, from, to);
    var found := FindIn(chain.sent, id, from, to);
    if found.Some? {
      var e := found.value;
      FirstIsUnique(chain.sent, id, from, to, e, e);
      assert e == Event(id, e.txHash) && IsFirst(chain.sent, id, from, to, Event(id, e.txHash));
    }
  }

  ghost predicate AnySentWindowFails(chain: Chain, outage: Outages, id: SwapId, asked: seq<(nat, nat)>) {
    exists i :: 0 <= i < |asked| && SentWindowFails(chain, outage, id, asked[i].0, asked[i].1)
  }

  lemma OneMoreSentWindow(chain: Chain, outage: Outages, id: SwapId, asked: seq<(nat, nat)>, from: nat, to: nat)
    ensures var found := FindIn(chain.sent, id, from, to);
            AnySentWindowFails(chain, outage, id, asked + [(from, to)]) <==>
            || AnySentWindowFails(chain, outage, id, asked) || outage(SentLogs(from, to))
            || (found.Some? && found.value.txHash.Some? && outage(Transaction(found.value.txHash.value)))
  {
    LookupFailsIff(chain.sent, outage, id, from, to);
    var more := asked + [(from, to)];
    assert more[|asked|] == (from, to) && forall i :: 0 <= i < |asked| ==> more[i] == asked[i];
    if AnySentWindowFails(chain, outage, id, asked) {
      var i :| 0 <= i < |asked| && SentWindowFails(chain, outage, id, asked[i].0, asked[i].1);
      assert SentWindowFails(chain, outage, id, more[i].0, more[i].1);
    }
  }

  /** What the search for a sent payment promises: an error exactly if a request of the windows it asked for
      failed, otherwise what is on the chain; and nothing is found only after all windows were asked for. */
  ghost predicate SearchedSent(chain: Chain, outage: Outages, id: SwapId, from: nat, head: nat, range: nat,
                               r: SentAnswer, asked: seq<(nat, nat)>)
    requires from <= head
  {
    && (r == NodeError <==> AnySentWindowFails(chain, outage, id, asked))
    && IsSentOnChain(chain, id, from, head, r)
    && (r != NodeError ==> r == ResolveSent(chain, FindIn(chain.sent, id, from, head)))
    && (range >= 1 ==> asked <= Windows(from, head, range))
    && (range >= 1 && r != NodeError && !Occurs(chain.sent, id, from, head) ==> asked == Windows(from, head, range))
  }

  /** `check_if_my_payment_sent`, called so that its loop ends: unless a request fails the answer is that
      of one query over the whole range. */
  method CheckIfMyPaymentSent(chain: Chain, outage: Outages, id: SwapId, status: Option<nat>, head: Option<nat>,
                              searchFromBlock: nat, range: nat)
      returns (r: SentAnswer, ghost asked: seq<(nat, nat)>)
    requires status.Some? && status.value != UNINITIALIZED && head.Some? ==>
               SentSearchEnds(chain, outage, id, searchFromBlock, LastBlock(head.value, searchFromBlock), range)
    ensures status.None? || (status.value != 0 && head.None?) ==> r == NodeError
    ensures status == Some(0) ==> r == NotSent
    ensures status.Some? && status.value != 0 && head.Some? ==>
              IsSentOnChain(chain, id, searchFromBlock, LastBlock(head.value, searchFromBlock), r)
    ensures status.Some? && status.value != 0 && head.Some? ==>
              SearchedSent(chain, outage, id, searchFromBlock, LastBlock(head.value, searchFromBlock), range, r, asked)
  {
    if status.None? {
      return NodeError, [];
    }
    if status.value == UNINITIALIZED {
      return NotSent, [];
    }
    if head.None? {
      return NodeError, [];
    }
    var currentBlock := head.value;
    if currentBlock < searchFromBlock {
      currentBlock := searchFromBlock;
    }
    r, asked := SearchSentWindows(chain, outage, id, searchFromBlock, currentBlock, range);
  }

  method SearchSentWindows(chain: Chain, outage: Outages, id: SwapId, searchFromBlock: nat, currentBlock: nat,
                           range: nat) returns (r: SentAnswer, ghost asked: seq<(nat, nat)>)
    requires searchFromBlock <= currentBlock
    requires SentSearchEnds(chain, outage, id, searchFromBlock, currentBlock, range)
    ensures IsSentOnChain(chain, id, searchFromBlock, currentBlock, r)
    ensures SearchedSent(chain, outage, id, searchFromBlock, currentBlock, range, r, asked)
  {
    var fromBlock := searchFromBlock;
    asked := [];
    while true
      invariant searchFromBlock <= fromBlock <= currentBlock
      invariant SentSearchEnds(chain, outage, id, fromBlock, currentBlock, range)
      invariant FindIn(chain.sent, id, searchFromBlock, currentBlock) == FindIn(chain.sent, id, fromBlock, currentBlock)
      invariant range >= 1 ==>
                  asked + Windows(fromBlock, currentBlock, range) == Windows(searchFromBlock, currentBlock, range)
      invariant !AnySentWindowFails(chain, outage, id, asked)
      decreases currentBlock - fromBlock
    {
      var toBlock := ToBlock(fromBlock, currentBlock, range);
      if range >= 1 {
        FirstWindow(fromBlock, currentBlock, range, asked, Windows(searchFromBlock, currentBlock, range));
      }
      OverlappingWindows(chain.sent, id, fromBlock, toBlock, currentBlock);
      OneMoreSentWindow(chain, outage, id, asked, fromBlock, toBlock);
      asked := asked + [(fromBlock, toBlock)];
      if outage(SentLogs(fromBlock, toBlock)) {
        return NodeError, asked;
      }
      var found := FindIn(chain.sent, id, fromBlock, toBlock);
      if found.Some? {
        if found.value.txHash.Some? && outage(Transaction(found.value.txHash.value)) {
          return NodeError, asked;
        }
        IsSearchedSent(chain, outage, id, searchFromBlock, currentBlock, range, asked);
        return ResolveSent(chain, found), asked;
      }
      if toBlock >= currentBlock {
        IsSearchedSent(chain, outage, id, searchFromBlock, currentBlock, range, asked);
        return NotSent, asked;
      }
      fromBlock := toBlock;
    }
  }

  lemma IsSearchedSent(chain: Chain, outage: Outages, id: SwapId, from: nat, head: nat, range: nat,
                       asked: seq<(nat, nat)>)
    requires from <= head && !AnySentWindowFails(chain, outage, id, asked)
    requires range >= 1 ==> asked <= Windows(from, head, range)
    requires range >= 1 && FindIn(chain.sent, id, from, head).None? ==> asked == Windows(from, head, range)
    ensures SearchedSent(chain, outage, id, from, head, range,
                         ResolveSent(chain, FindIn(chain.sent, id, from, head)), asked)
  {
    ResolvedIsOnChain(chain, id, from, head);
    FindInIff(chain.sent, id, from, head);
  }
}
