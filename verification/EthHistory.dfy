/**
 The loop that downloads the ETH history of an address. Two persisted cursors mark the blocks
 that have been fetched: going back from `earliestBlock`, and forward from `latestBlock`. Every
 request may fail, and the program may be restarted between any two iterations.
 */
module EthHistory {
  import opened Wrappers
  import opened Blocks

  type InternalId = nat

  datatype Trace = Trace(blockNumber: nat, content: nat, isCall: bool)

  /** The traces of a block in which the address is the sender, or the receiver. */
  type TracesByBlock = nat -> seq<Trace>

  datatype SavedTraces = SavedTraces(traces: seq<Trace>, earliestBlock: nat, latestBlock: nat)

  /** The answers of one iteration: the head, whether each trace query succeeds, in which order the
      traces are processed, for which of them the details can be fetched, in which order the history file
      is written, and after how many additions it can no longer be written. */
  datatype Replies = Replies(
    currentBlock: Option<nat>,
    fromBefore: bool, toBefore: bool,
    fromAfter: bool, toAfter: bool,
    inOrder: seq<Trace> -> seq<Trace>,
    hasDetails: Trace -> bool,
    fileOrder: seq<InternalId> -> seq<InternalId>,
    savesBeforeFailure: nat)

  /** Both orders only rearrange. */
  ghost predicate Rearranges<T(!new)>(order: seq<T> -> seq<T>) {
    forall s :: multiset(order(s)) == multiset(s)
  }

  ghost predicate AllAnswered(r: Replies) {
    r.currentBlock.Some? && r.fromBefore && r.toBefore && r.fromAfter && r.toAfter
  }

  const DELTA: nat := 1000

  ghost predicate Distinct(ids: seq<InternalId>) { forall id :: multiset(ids)[id] <= 1 }

  /** Every saved id stays saved; the file may be rearranged. */
  ghost predicate Kept(before: seq<InternalId>, after: seq<InternalId>) {
    forall id :: id in before ==> id in after
  }

  /** The cursor goes down in steps of `DELTA + 1` blocks from the head at which the download began. */
  ghost predicate OnTheWay(firstHead: nat, earliest: nat) {
    firstHead > 0 && (earliest > 0 ==> earliest % (DELTA + 1) == firstHead % (DELTA + 1))
  }

  /** The first block fetched: the one after the cursor; once the cursor is at 0, block 0, unless the steps
      from the first head end exactly at 0. */
  ghost function FirstFetched(firstHead: nat, earliest: nat): nat {
    if earliest == 0 && firstHead % (DELTA + 1) != 0 then 0 else earliest + 1
  }

  /** Where the window before the cursor starts, and where the cursor is after it. */
  function WindowStart(earliest: nat): nat { if earliest >= DELTA then earliest - DELTA else 0 }

  function NextEarliest(earliest: nat): nat {
    if WindowStart(earliest) > 0 then WindowStart(earliest) - 1 else 0
  }

  /** A window leaves the cursor where the first block fetched can be told from it. */
  lemma StepDown(firstHead: nat, earliest: nat)
    requires OnTheWay(firstHead, earliest) && earliest > 0
    ensures OnTheWay(firstHead, NextEarliest(earliest))
    ensures FirstFetched(firstHead, NextEarliest(earliest)) == WindowStart(earliest)
  {}

  /** Everything saved is exactly the traces of the blocks `lo` to `latestBlock`, in each of the two
      directions once. */
  ghost predicate Consistent(sender: TracesByBlock, receiver: TracesByBlock, s: SavedTraces, lo: nat) {
    && lo <= s.latestBlock + 1
    && multiset(s.traces) == multiset(InBlocks(sender, lo, s.latestBlock))
                             + multiset(InBlocks(receiver, lo, s.latestBlock))
  }

  /** A finished download has the traces of all blocks exactly if the first head was no multiple of 1001, or
      the address has no traces in block 0. */
  lemma FinishedDownloadIsCompleteIff(sender: TracesByBlock, receiver: TracesByBlock, s: SavedTraces, firstHead: nat)
    requires Consistent(sender, receiver, s, FirstFetched(firstHead, s.earliestBlock)) && s.earliestBlock == 0
    ensures Consistent(sender, receiver, s, 0) <==>
            firstHead % (DELTA + 1) != 0 || (sender(0) == [] && receiver(0) == [])
  {
    if firstHead % (DELTA + 1) == 0 {
      var a, b := InBlocks(sender, 1, s.latestBlock), InBlocks(receiver, 1, s.latestBlock);
      assert InBlocks(sender, 0, s.latestBlock) == sender(0) + a;
      assert InBlocks(receiver, 0, s.latestBlock) == receiver(0) + b;
      assert |multiset(s.traces)| == |a| + |b|;
      assert |multiset(sender(0) + a) + multiset(receiver(0) + b)| == |sender(0)| + |a| + |receiver(0)| + |b|;
      if sender(0) == [] && receiver(0) == [] {
        assert sender(0) + a == a && receiver(0) + b == b;
      }
    }
  }

  /** Adding the same window to both directions. */
  lemma MergedWindow(all: seq<Trace>, a: seq<Trace>, b: seq<Trace>, newA: seq<Trace>, newB: seq<Trace>,
                     allA: seq<Trace>, allB: seq<Trace>)
    requires multiset(all) == multiset(a) + multiset(b)
    requires (allA == a + newA && allB == b + newB) || (allA == newA + a && allB == newB + b)
    ensures multiset(all + newA + newB) == multiset(allA) + multiset(allB)
  {}

  /** The window from `before` to the cursor, put in front of what is saved. */
  lemma PrependWindow(sender: TracesByBlock, receiver: TracesByBlock, s: SavedTraces, lo: nat, before: nat)
    requires Consistent(sender, receiver, s, lo) && lo == s.earliestBlock + 1 && before <= s.earliestBlock
    ensures var traces := s.traces + InBlocks(sender, before, s.earliestBlock)
                          + InBlocks(receiver, before, s.earliestBlock);
            multiset(traces) == multiset(InBlocks(sender, before, s.latestBlock))
                              + multiset(InBlocks(receiver, before, s.latestBlock))
  {
    SplitBlocks(sender, before, s.earliestBlock, s.latestBlock);
    SplitBlocks(receiver, before, s.earliestBlock, s.latestBlock);
    MergedWindow(s.traces, InBlocks(sender, lo, s.latestBlock), InBlocks(receiver, lo, s.latestBlock),
                 InBlocks(sender, before, s.earliestBlock), InBlocks(receiver, before, s.earliestBlock),
                 InBlocks(sender, before, s.latestBlock), InBlocks(receiver, before, s.latestBlock));
  }

  lemma AppendWindow(sender: TracesByBlock, receiver: TracesByBlock, s: SavedTraces, lo: nat, current: nat)
    requires Consistent(sender, receiver, s, lo) && current > s.latestBlock
    ensures var traces := s.traces + InBlocks(sender, s.latestBlock + 1, current)
                          + InBlocks(receiver, s.latestBlock + 1, current);
            multiset(traces) == multiset(InBlocks(sender, lo, current)) + multiset(InBlocks(receiver, lo, current))
  {
    SplitBlocks(sender, lo, s.latestBlock, current);
    SplitBlocks(receiver, lo, s.latestBlock, current);
    MergedWindow(s.traces, InBlocks(sender, lo, s.latestBlock), InBlocks(receiver, lo, s.latestBlock),
                 InBlocks(sender, s.latestBlock + 1, current), InBlocks(receiver, s.latestBlock + 1, current),
                 InBlocks(sender, lo, current), InBlocks(receiver, lo, current));
  }

  lemma SameElements<T>(a: seq<T>, b: seq<T>)
    requires multiset(a) == multiset(b)
    ensures forall t :: t in a ==> t in b
  {
    forall t | t in a ensures t in b {
      assert t in multiset(b);
    }
  }

  class HistorySync {
    const sender: TracesByBlock
    const receiver: TracesByBlock
    const idOf: Trace -> InternalId
    /** The two files. */
    var saved: Option<SavedTraces>
    var history: seq<InternalId>
    /** The head at which the download began. */
    ghost var firstHead: nat

    constructor (sender: TracesByBlock, receiver: TracesByBlock, idOf: Trace -> InternalId)
      ensures Valid() && saved == None && history == []
      ensures this.sender == sender && this.receiver == receiver && this.idOf == idOf
    {
      this.sender, this.receiver, this.idOf := sender, receiver, idOf;
      saved, history, firstHead := None, [], 0;
    }

    ghost predicate Valid()
      reads this
    {
      && (saved.Some? ==>
            && OnTheWay(firstHead, saved.value.earliestBlock)
            && Consistent(sender, receiver, saved.value, FirstFetched(firstHead, saved.value.earliestBlock)))
      && Distinct(history)
    }

    /** One iteration of the loop. `false` means the loop ends because a file cannot be written. */
    method Iterate(replies: Replies) returns (goesOn: bool)
      requires Valid()
      requires Rearranges(replies.inOrder) && Rearranges(replies.fileOrder)
      modifies this
      ensures Valid() && Kept(old(history), history)
      ensures old(saved).Some? ==> saved.Some? && Advanced(old(saved).value, saved.value)
      ensures old(saved).Some? ==> firstHead == old(firstHead)
      ensures old(saved).None? && saved.Some? ==> Some(firstHead) == replies.currentBlock
      ensures replies.currentBlock.None? ==> goesOn && saved == old(saved) && history == old(history)
      ensures forall id :: id in history && id !in old(history) ==>
                saved.Some? && IsAddable(saved.value.traces, replies.hasDetails, id)
      ensures replies.currentBlock.Some? && replies.fromBefore && replies.toBefore ==>
                && (old(saved).Some? && old(saved).value.earliestBlock > 0 ==>
                      saved.value.earliestBlock < old(saved).value.earliestBlock)
                && (old(saved).None? && replies.currentBlock.value > 0 ==> saved.Some?)
      ensures goesOn && saved.Some? && AllAnswered(replies) ==>
                && saved.value.latestBlock >= replies.currentBlock.value
                && forall t :: t in saved.value.traces && t.isCall && replies.hasDetails(t) ==> idOf(t) in history
    {
      if replies.currentBlock == None {
        return true;
      }
      var currentBlock := replies.currentBlock.value;
      var ok := FetchBefore(currentBlock, replies.fromBefore, replies.toBefore);
      if !ok {
        return true;
      }
      ok := FetchAfter(currentBlock, replies.fromAfter, replies.toAfter);
      if !ok {
        return true;
      }
      var traces := if saved.Some? then saved.value.traces else [];
      goesOn := AddToHistory(replies.inOrder(traces), replies.hasDetails, replies.fileOrder,
                             replies.savesBeforeFailure);
      SameElements(traces, replies.inOrder(traces));
      SameElements(replies.inOrder(traces), traces);
    }

    /** The cursors only move outwards. */
    static ghost predicate Advanced(s: SavedTraces, t: SavedTraces) {
      t.earliestBlock <= s.earliestBlock && s.latestBlock <= t.latestBlock
    }

    /** The window before the earliest block; it is saved only if both queries succeed. */
    method FetchBefore(currentBlock: nat, fromOk: bool, toOk: bool) returns (ok: bool)
      requires Valid()
      modifies this
      ensures Valid() && history == old(history)
      ensures old(saved).Some? ==> saved.Some? && Advanced(old(saved).value, saved.value)
      ensures firstHead == if old(saved).None? && saved.Some? then currentBlock else old(firstHead)
      ensures !ok ==> saved == old(saved)
      ensures fromOk && toOk ==> ok
      ensures ok ==>
                var s := if old(saved).Some? then old(saved).value else SavedTraces([], currentBlock, currentBlock);
                if s.earliestBlock == 0 then saved == old(saved)
                else && saved.Some? && saved.value.latestBlock == s.latestBlock
                     && saved.value.earliestBlock == if s.earliestBlock > DELTA then s.earliestBlock - DELTA - 1 else 0
    {
      var s := if saved.Some? then saved.value else SavedTraces([], currentBlock, currentBlock);
      if s.earliestBlock == 0 {
        return true;
      }
      var beforeEarliest := WindowStart(s.earliestBlock);
      if !fromOk || !toOk {
        return false;
      }
      if saved.None? {
        firstHead := currentBlock;
      }
      StepDown(firstHead, s.earliestBlock);
      PrependWindow(sender, receiver, s, s.earliestBlock + 1, beforeEarliest);
      saved := Some(SavedTraces(
        s.traces + InBlocks(sender, beforeEarliest, s.earliestBlock)
        + InBlocks(receiver, beforeEarliest, s.earliestBlock),
        NextEarliest(s.earliestBlock),
        s.latestBlock));
      return true;
    }

    /** The window after the latest block, up to the head. */
    method FetchAfter(currentBlock: nat, fromOk: bool, toOk: bool) returns (ok: bool)
      requires Valid() && (saved.None? ==> currentBlock == 0)
      modifies this
      ensures Valid() && history == old(history) && firstHead == old(firstHead)
      ensures old(saved).Some? == saved.Some?
      ensures saved.Some? ==> saved.value.earliestBlock == old(saved).value.earliestBlock
      ensures fromOk && toOk ==> ok
      ensures saved.Some? ==>
                saved.value.latestBlock == if ok && currentBlock > old(saved).value.latestBlock
                                           then currentBlock else old(saved).value.latestBlock
    {
      if saved.None? || currentBlock <= saved.value.latestBlock {
        return true;
      }
      if !fromOk || !toOk {
        return false;
      }
      var s := saved.value;
      AppendWindow(sender, receiver, s, FirstFetched(firstHead, s.earliestBlock), currentBlock);
      saved := Some(s.(
        traces := s.traces + InBlocks(sender, s.latestBlock + 1, currentBlock)
                  + InBlocks(receiver, s.latestBlock + 1, currentBlock),
        latestBlock := currentBlock));
      return true;
    }

    /** The id of a call whose details can be fetched. */
    ghost predicate IsAddable(traces: seq<Trace>, hasDetails: Trace -> bool, id: InternalId) {
      exists t :: t in traces && t.isCall && hasDetails(t) && idOf(t) == id
    }

    /** Adds what is new, one trace at a time, and writes the file after each. It stops early exactly if
        something is left that can no longer be written. */
    method AddToHistory(traces: seq<Trace>, hasDetails: Trace -> bool,
                        fileOrder: seq<InternalId> -> seq<InternalId>, savesBeforeFailure: nat) returns (goesOn: bool)
      requires Valid() && Rearranges(fileOrder)
      modifies this`history
      ensures Valid() && Kept(old(history), history)
      ensures forall id :: id in history && id !in old(history) ==> IsAddable(traces, hasDetails, id)
      ensures goesOn <==> forall t :: t in traces && t.isCall && hasDetails(t) ==> idOf(t) in history
      ensures |history| - |old(history)| <= savesBeforeFailure
      ensures !goesOn ==> |history| - |old(history)| == savesBeforeFailure
    {
      var existing := history;
      var saves := 0;
      for i := 0 to |traces|
        invariant multiset(existing) == multiset(history) && (forall id :: id in existing <==> id in history)
        invariant Kept(old(history), history) && Distinct(history)
        invariant |history| == |existing| == |old(history)| + saves && saves <= savesBeforeFailure
        invariant forall id :: id in history && id !in old(history) ==> IsAddable(traces, hasDetails, id)
        invariant forall j :: 0 <= j < i && traces[j].isCall && hasDetails(traces[j]) ==> idOf(traces[j]) in history
      {
        var trace := traces[i];
        var internalId := idOf(trace);
        if internalId in existing || !trace.isCall || !hasDetails(trace) {
          continue;
        }
        existing := existing + [internalId];
        assert trace in traces;
        if saves == savesBeforeFailure {
          return false;
        }
        saves := saves + 1;
        history := fileOrder(existing);
        assert |history| == |multiset(history)| == |multiset(existing)| == |existing|;
        SameElements(existing, history);
        SameElements(history, existing);
      }
      goesOn := true;
    }

    /** Any number of iterations, with arbitrary failures and restarts in between: the cursors stay
        consistent and the saved ids stay distinct. */
    method ProcessEthHistory(iterations: seq<Replies>)
      requires Valid()
      requires forall k :: 0 <= k < |iterations| ==>
                 Rearranges(iterations[k].inOrder) && Rearranges(iterations[k].fileOrder)
      modifies this
      ensures Valid() && Kept(old(history), history)
      ensures old(saved).Some? ==> saved.Some? && Advanced(old(saved).value, saved.value) && firstHead == old(firstHead)
    {
      for k := 0 to |iterations|
        invariant Valid() && Kept(old(history), history)
        invariant old(saved).Some? ==>
                    saved.Some? && Advanced(old(saved).value, saved.value) && firstHead == old(firstHead)
      {
        var goesOn := Iterate(iterations[k]);
        if !goesOn {
          break;
        }
      }
    }
  }

  /** A download that begins at block 1001 is finished after one window, and has missed block 0. */
  method BeginAtBlock1001(head: nat, sender: TracesByBlock, receiver: TracesByBlock, idOf: Trace -> InternalId)
      returns (sync: HistorySync)
    requires head == 1001 && sender(0) != []
    ensures sync.saved.Some? && sync.saved.value.earliestBlock == 0 && sync.saved.value.latestBlock == head
    ensures sync.sender == sender && sync.receiver == receiver
    ensures !Consistent(sender, receiver, sync.saved.value, 0)
  {
    sync := new HistorySync(sender, receiver, idOf);
    var ok := sync.FetchBefore(head, true, true);
    FinishedDownloadIsCompleteIff(sender, receiver, sync.saved.value, sync.firstHead);
  }
}
