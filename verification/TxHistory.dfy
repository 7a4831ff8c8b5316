/**
 The order of the saved transaction history, and its pages.
 */
module TxHistory {
  import opened Wrappers

  datatype Ordering = Less | Equal | Greater

  /** A byte string. */
  type Id = seq<nat>

  datatype TxDetails = TxDetails(blockHeight: nat, internalId: Id, details: nat)

  // --- the order ------------------------------------------------------------------------------------

  /** Lexicographic comparison of byte strings. */
  function CompareIds(a: Id, b: Id): Ordering {
    if a == [] then if b == [] then Equal else Less
    else if b == [] then Greater
    else if a[0] < b[0] then Less
    else if a[0] > b[0] then Greater
    else CompareIds(a[1..], b[1..])
  }

  function CompareHeights(a: nat, b: nat): Ordering {
    if a < b then Less else if a == b then Equal else Greater
  }

  function CompareTransactions(a: TxDetails, b: TxDetails): Ordering {
    if a.blockHeight == b.blockHeight then CompareIds(a.internalId, b.internalId)
    else if a.blockHeight == 0 then Less
    else if b.blockHeight == 0 then Greater
    else CompareHeights(b.blockHeight, a.blockHeight)
  }

  /** Unconfirmed first, then the highest block first, then by id. */
  ghost predicate Before(a: TxDetails, b: TxDetails) {
    || (a.blockHeight == 0 && b.blockHeight != 0)
    || (a.blockHeight != 0 && b.blockHeight != 0 && a.blockHeight > b.blockHeight)
    || (a.blockHeight == b.blockHeight && IdBefore(a.internalId, b.internalId))
  }

  /** `a` is a proper prefix of `b`, or smaller at the first byte in which they differ. */
  ghost predicate IdBefore(a: Id, b: Id) {
    a < b || exists k :: 0 <= k < |a| && k < |b| && a[..k] == b[..k] && a[k] < b[k]
  }

  lemma {:induction false} CompareIdsIsTheByteOrder(a: Id, b: Id)
    ensures CompareIds(a, b) == Less <==> IdBefore(a, b)
    ensures CompareIds(a, b) == Equal <==> a == b
    ensures CompareIds(a, b) == Greater <==> IdBefore(b, a)
    decreases |a|
  {
    if a != [] && b != [] {
      CompareIdsIsTheByteOrder(a[1..], b[1..]);
      if a[0] == b[0] {
        assert a == [a[0]] + a[1..] && b == [b[0]] + b[1..];
        SameFirstByte(a, b);
        SameFirstByte(b, a);
      } else {
        assert a[..0] == b[..0];
        assert forall k :: 0 < k < |a| && k < |b| ==> a[..k][0] != b[..k][0];
      }
    }
  }

  lemma SameFirstByte(a: Id, b: Id)
    requires a != [] && b != [] && a[0] == b[0]
    ensures IdBefore(a, b) <==> IdBefore(a[1..], b[1..])
  {
    if IdBefore(a, b) && !(a < b) {
      var k :| 0 <= k < |a| && k < |b| && a[..k] == b[..k] && a[k] < b[k];
      assert a[1..][..k - 1] == a[..k][1..] && b[1..][..k - 1] == b[..k][1..];
      assert a[1..][k - 1] < b[1..][k - 1];
    }
    if IdBefore(a[1..], b[1..]) && !(a[1..] < b[1..]) {
      var k :| 0 <= k < |a[1..]| && k < |b[1..]| && a[1..][..k] == b[1..][..k] && a[1..][k] < b[1..][k];
      assert a[..k + 1] == [a[0]] + a[1..][..k] && b[..k + 1] == [b[0]] + b[1..][..k];
      assert a[k + 1] < b[k + 1];
    }
  }

  /** The comparison is exactly that order. */
  lemma CompareTransactionsIsTheOrder(a: TxDetails, b: TxDetails)
    ensures CompareTransactions(a, b) == Less <==> Before(a, b)
    ensures CompareTransactions(a, b) == Greater <==> Before(b, a)
    ensures CompareTransactions(a, b) == Equal <==> a.blockHeight == b.blockHeight && a.internalId == b.internalId
  {
    CompareIdsIsTheByteOrder(a.internalId, b.internalId);
  }

  ghost predicate Leq(a: TxDetails, b: TxDetails) { CompareTransactions(a, b) != Greater }

  lemma {:induction false} IdsAreTransitive(a: Id, b: Id, c: Id)
    requires CompareIds(a, b) != Greater && CompareIds(b, c) != Greater
    ensures CompareIds(a, c) != Greater
    decreases |a|
  {
    if a != [] && b != [] && c != [] && a[0] == b[0] == c[0] {
      IdsAreTransitive(a[1..], b[1..], c[1..]);
    }
  }

  /** Total, antisymmetric on height and id, and transitive. */
  lemma CompareTransactionsIsATotalOrder(a: TxDetails, b: TxDetails, c: TxDetails)
    ensures Leq(a, b) || Leq(b, a)
    ensures Leq(a, b) && Leq(b, a) <==> a.blockHeight == b.blockHeight && a.internalId == b.internalId
    ensures Leq(a, b) && Leq(b, c) ==> Leq(a, c)
  {
    CompareTransactionsIsTheOrder(a, b);
    CompareTransactionsIsTheOrder(b, a);
    CompareIdsIsTheByteOrder(a.internalId, b.internalId);
    if Leq(a, b) && Leq(b, c) && a.blockHeight == b.blockHeight == c.blockHeight {
      IdsAreTransitive(a.internalId, b.internalId, c.internalId);
    }
  }

  // --- the saved sequence -----------------------------------------------------------------------------

  ghost predicate Sorted(s: seq<TxDetails>) {
    forall i, j :: 0 <= i < j < |s| ==> Leq(s[i], s[j])
  }

  /** Entries that share height and id are the same entry. */
  ghost predicate TiesAreIdentical(s: seq<TxDetails>) {
    forall i, j :: 0 <= i < j < |s| && CompareTransactions(s[i], s[j]) == Equal ==> s[i] == s[j]
  }

  lemma TailOf(s: seq<TxDetails>)
    requires s != []
    ensures multiset(s[1..]) == multiset(s) - multiset{s[0]}
  {
    assert s == [s[0]] + s[1..];
  }

  lemma FirstOfSorted(s: seq<TxDetails>, tx: TxDetails)
    requires Sorted(s) && tx in multiset(s)
    ensures Leq(s[0], tx)
  {
    var i :| 0 <= i < |s| && s[i] == tx;
    CompareTransactionsIsATotalOrder(s[0], tx, tx);
  }

  lemma SortedFormsStartAlike(s: seq<TxDetails>, t: seq<TxDetails>)
    requires Sorted(s) && Sorted(t) && multiset(s) == multiset(t) && TiesAreIdentical(s) && s != [] && t != []
    ensures s[0] == t[0]
  {
    assert s[0] in multiset(t) && t[0] in multiset(s);
    FirstOfSorted(s, t[0]);
    FirstOfSorted(t, s[0]);
    CompareTransactionsIsATotalOrder(s[0], t[0], t[0]);
    CompareTransactionsIsTheOrder(s[0], t[0]);
    var i :| 0 <= i < |s| && s[i] == t[0];
  }

  /** However it is sorted, a history in which ties are identical has one sorted form. */
  lemma {:induction false} SortedFormIsUnique(s: seq<TxDetails>, t: seq<TxDetails>)
    requires Sorted(s) && Sorted(t) && multiset(s) == multiset(t) && TiesAreIdentical(s)
    ensures s == t
    decreases |s|
  {
    assert |s| == |multiset(s)| == |multiset(t)| == |t|;
    if s != [] {
      SortedFormsStartAlike(s, t);
      TailOf(s);
      TailOf(t);
      SortedFormIsUnique(s[1..], t[1..]);
      assert s == [s[0]] + s[1..] && t == [t[0]] + t[1..];
    }
  }

  /** Different entries that tie can be swapped. */
  lemma TiesCanBeSwapped(s: seq<TxDetails>, i: nat, j: nat) returns (t: seq<TxDetails>)
    requires Sorted(s) && i < j < |s| && CompareTransactions(s[i], s[j]) == Equal && s[i] != s[j]
    ensures Sorted(t) && multiset(t) == multiset(s) && t != s
  {
    t := s[i := s[j]][j := s[i]];
    CompareTransactionsIsTheOrder(s[i], s[j]);
    forall k | 0 <= k < |s| ensures t[k].blockHeight == s[k].blockHeight && t[k].internalId == s[k].internalId {}
    forall a, b | 0 <= a < b < |t| ensures Leq(t[a], t[b]) {
      assert Leq(s[a], s[b]);
    }
    assert t[i] != s[i];
  }

  /** The saved file is the same for every order in which the entries were found, exactly if
      entries that share height and id are identical. */
  lemma SavedHistoryIsOrderIndependentIff(s: seq<TxDetails>)
    requires Sorted(s)
    ensures TiesAreIdentical(s) <==> forall t :: Sorted(t) && multiset(t) == multiset(s) ==> t == s
  {
    if TiesAreIdentical(s) {
      forall t | Sorted(t) && multiset(t) == multiset(s) ensures t == s { SortedFormIsUnique(s, t); }
    } else {
      var i, j :| 0 <= i < j < |s| && CompareTransactions(s[i], s[j]) == Equal && s[i] != s[j];
      var t := TiesCanBeSwapped(s, i, j);
    }
  }

  // --- pages ------------------------------------------------------------------------------------------

  function CalcTotalPages(entriesLen: nat, limit: nat): nat {
    if limit == 0 then 0
    else if entriesLen % limit == 0 then entriesLen / limit else entriesLen / limit + 1
  }

  function SkipTake<T>(s: seq<T>, skip: nat, limit: nat): seq<T> {
    if skip >= |s| then [] else if skip + limit >= |s| then s[skip..] else s[skip..skip + limit]
  }

  function Position(history: seq<TxDetails>, id: Id): (r: Option<nat>)
    ensures r.Some? ==> r.value < |history| && history[r.value].internalId == id
    ensures r.Some? ==> forall i :: 0 <= i < r.value ==> history[i].internalId != id
    ensures r.None? ==> forall i :: 0 <= i < |history| ==> history[i].internalId != id
  {
    if history == [] then None
    else if history[0].internalId == id then Some(0)
    else
      match Position(history[1..], id)
      case Some(i) =>
        assert forall j :: 0 < j < |history| ==> history[j] == history[1..][j - 1];
        Some(i + 1)
      case None =>
        assert forall i :: 0 < i < |history| ==> history[i] == history[1..][i - 1];
        None
  }

  /** Page numbers start at 1. */
  function MyTxHistory(history: seq<TxDetails>, fromId: Option<Id>, max: bool, limit: nat, pageNumber: Option<nat>)
    : Option<seq<TxDetails>>
    requires pageNumber.Some? ==> pageNumber.value >= 1
  {
    var actualLimit := if max then |history| else limit;
    match fromId
    case Some(id) =>
      (match Position(history, id)
       case Some(i) => Some(SkipTake(history, i + 1, actualLimit))
       case None => None)
    case None =>
      var skip := if pageNumber.Some? then (pageNumber.value - 1) * limit else 0;
      Some(SkipTake(history, skip, actualLimit))
  }

  /** A request fails exactly if it starts from an id that is not in the history; without a start and
      with the maximum asked for it returns everything. */
  lemma RequestsWithoutPages(history: seq<TxDetails>, fromId: Option<Id>, max: bool, limit: nat, page: Option<nat>)
    requires page.Some? ==> page.value >= 1
    ensures MyTxHistory(history, fromId, max, limit, page).None? <==>
            fromId.Some? && forall i :: 0 <= i < |history| ==> history[i].internalId != fromId.value
    ensures max && fromId.None? && page.None? ==> MyTxHistory(history, fromId, max, limit, page) == Some(history)
  {
    if fromId.Some? && Position(history, fromId.value).Some? {
      assert history[Position(history, fromId.value).value].internalId == fromId.value;
    }
  }

  /** A request from an id returns what follows its first entry, up to the limit if one is given. */
  lemma RequestsReturnWhatFollows(history: seq<TxDetails>, i: nat, max: bool, limit: nat, page: Option<nat>)
    requires page.Some? ==> page.value >= 1
    requires i < |history| && forall j :: 0 <= j < i ==> history[j].internalId != history[i].internalId
    ensures var r := MyTxHistory(history, Some(history[i].internalId), max, limit, page);
            && r.Some? && r.value <= history[i + 1..]
            && |r.value| == if max || i + 1 + limit > |history| then |history| - i - 1 else limit
  {
    assert Position(history, history[i].internalId) == Some(i);
    Skipped(history, i + 1, if max then |history| else limit);
  }

  lemma Skipped<T>(s: seq<T>, skip: nat, limit: nat)
    requires skip <= |s|
    ensures SkipTake(s, skip, limit) <= s[skip..]
    ensures |SkipTake(s, skip, limit)| == if skip + limit > |s| then |s| - skip else limit
  {
    assert skip + limit < |s| ==> s[skip..skip + limit] == s[skip..][..limit];
  }

  /** A page number together with the maximum returns everything from that page on. */
  lemma MaximumFromAPage(history: seq<TxDetails>, limit: nat, page: nat, skip: nat)
    requires page >= 1 && skip == (page - 1) * limit
    ensures MyTxHistory(history, None, true, limit, Some(page)) ==
            Some(if skip <= |history| then history[skip..] else [])
  {
    assert MyTxHistory(history, None, true, limit, Some(page)) == Some(SkipTake(history, skip, |history|));
    if skip <= |history| {
      Skipped(history, skip, |history|);
    }
  }

  function Page(history: seq<TxDetails>, limit: nat, page: nat): seq<TxDetails>
    requires page >= 1
  {
    MyTxHistory(history, None, false, limit, Some(page)).value
  }

  function FirstPages(history: seq<TxDetails>, limit: nat, n: nat): seq<TxDetails> {
    if n == 0 then [] else FirstPages(history, limit, n - 1) + Page(history, limit, n)
  }

  lemma {:induction false} FirstPagesAreAPrefix(history: seq<TxDetails>, limit: nat, n: nat, k: nat)
    requires limit > 0 && k == n * limit
    ensures FirstPages(history, limit, n) == SkipTake(history, 0, k)
    decreases n
  {
    if n > 0 {
      OneMore(n - 1, limit);
      FirstPagesAreAPrefix(history, limit, n - 1, k - limit);
      PageAt(history, limit, n, k - limit);
      NextChunk(history, k - limit, limit);
    }
  }

  lemma PageAt(history: seq<TxDetails>, limit: nat, page: nat, skip: nat)
    requires page >= 1 && skip == (page - 1) * limit
    ensures Page(history, limit, page) == SkipTake(history, skip, limit)
  {}

  lemma OneMore(n: nat, limit: nat)
    ensures (n + 1) * limit == n * limit + limit
  {}

  lemma NextChunk<T>(s: seq<T>, k: nat, limit: nat)
    ensures SkipTake(s, 0, k) + SkipTake(s, k, limit) == SkipTake(s, 0, k + limit)
  {}

  lemma TotalPagesSuffice(len: nat, limit: nat)
    requires limit > 0
    ensures var n := CalcTotalPages(len, limit);
            n * limit >= len && (n > 0 ==> (n - 1) * limit < len)
  {
    var q := len / limit;
    assert len == q * limit + len % limit;
    assert (q + 1) * limit == q * limit + limit;
    assert q > 0 ==> (q - 1) * limit == q * limit - limit;
  }

  /** A page has entries exactly if it is one of the total number of pages. */
  lemma PageHasEntriesIff(history: seq<TxDetails>, limit: nat, page: nat)
    requires page >= 1
    ensures |Page(history, limit, page)| <= limit
    ensures Page(history, limit, page) != [] <==> page <= CalcTotalPages(|history|, limit)
  {
    if limit > 0 {
      var n := CalcTotalPages(|history|, limit);
      TotalPagesSuffice(|history|, limit);
      if page <= n {
        Scale(page - 1, n - 1, limit);
      } else {
        Scale(n, page - 1, limit);
      }
    }
  }

  lemma Scale(a: nat, b: nat, k: nat)
    requires a <= b
    ensures a * k <= b * k
  {
    assert b * k == a * k + (b - a) * k;
  }

  /** The pages 1 to the total number of pages are the whole history, in order, each entry once. */
  lemma PagesPartitionTheHistory(history: seq<TxDetails>, limit: nat)
    requires limit > 0
    ensures FirstPages(history, limit, CalcTotalPages(|history|, limit)) == history
  {
    var n := CalcTotalPages(|history|, limit);
    TotalPagesSuffice(|history|, limit);
    FirstPagesAreAPrefix(history, limit, n, n * limit);
  }

  ghost predicate DistinctIds(history: seq<TxDetails>) {
    forall i, j :: 0 <= i < j < |history| ==> history[i].internalId != history[j].internalId
  }

  /** Asking from the last id of a page gives the next page. */
  lemma FromLastIdIsTheNextPage(history: seq<TxDetails>, limit: nat, page: nat)
    requires DistinctIds(history) && page >= 1 && Page(history, limit, page) != []
    ensures var p := Page(history, limit, page);
            MyTxHistory(history, Some(p[|p| - 1].internalId), false, limit, None)
            == Some(Page(history, limit, page + 1))
  {
    var p, skip := Page(history, limit, page), (page - 1) * limit;
    var last := skip + |p| - 1;
    assert p[|p| - 1] == history[last];
    PositionIsUnique(history, last);
    OneMore(page - 1, limit);
    AfterTheChunk(history, skip, limit);
  }

  lemma PositionIsUnique(history: seq<TxDetails>, k: nat)
    requires DistinctIds(history) && k < |history|
    ensures Position(history, history[k].internalId) == Some(k)
  {
    assert Position(history, history[k].internalId).Some?;
  }

  /** After the last entry of a chunk comes the next chunk. */
  lemma AfterTheChunk<T>(s: seq<T>, skip: nat, limit: nat)
    requires SkipTake(s, skip, limit) != []
    ensures SkipTake(s, skip + |SkipTake(s, skip, limit)|, limit) == SkipTake(s, skip + limit, limit)
  {}
}
