/** The search through a whole chain that asks the index page by page. */
module InMemory {
  import opened Wrappers
  import opened ConfirmedTx
  import opened Filters
  import opened RangeUtils
  import opened NaiveScan
  import opened RoaringIndex

  /** The page with number k of a list, as the index gives it; page 0 is page 1. */
  function PageOf(all: seq<nat>, size: nat, k: nat): seq<nat> {
    PageWithRepeat(all, Pagination(size, k).EntriesBefore(), size)
  }

  /** The pages from number k on, up to the first empty one. */
  ghost function PagesFrom(all: seq<nat>, size: nat, k: nat): seq<nat>
    requires size > 0
    decreases if k == 0 then 1 else 0, |all| - Pagination(size, k).EntriesBefore()
  {
    if |all| <= Pagination(size, k).EntriesBefore() then [] else PageOf(all, size, k) + PagesFrom(all, size, k + 1)
  }

  /** All numbers the search visits if it does not end early. */
  ghost function Visited(all: seq<nat>, p: Pagination): seq<nat> {
    if p.size == 0 then all else PagesFrom(all, p.size, p.page)
  }

  /** Pages of two end with a repeated number when the list has an odd length. */
  ghost predicate RepeatsAtEnd(all: seq<nat>, p: Pagination) {
    p.size == 2 && |all| % 2 == 1 && |all| > 1 && p.EntriesBefore() < |all|
  }

  lemma {:induction false} PagesAreRest(all: seq<nat>, size: nat, k: nat)
    requires size > 0 && k > 0
    ensures var before := Pagination(size, k).EntriesBefore();
      PagesFrom(all, size, k) ==
      (if before < |all| then all[before..] else []) + Repeat(all, Pagination(size, k))
    decreases |all| - Pagination(size, k).EntriesBefore()
  {
    var before := Pagination(size, k).EntriesBefore();
    NextPage(size, k);
    if before < |all| {
      var page, next, repeat := PageOf(all, size, k), Pagination(size, k + 1), Repeat(all, Pagination(size, k));
      OnePage(all, size, k);
      PagesAreRest(all, size, k + 1);
      hide Pagination.EntriesBefore, PageOf, Repeat;
      if before + size < |all| {
        assert all[before..] == page + all[before + size..];
        Associative(page, all[before + size..], repeat);
      } else {
        assert PagesFrom(all, size, k + 1) == [];
        assert page + [] == page;
      }
    }
  }

  ghost function Repeat(all: seq<nat>, p: Pagination): seq<nat> {
    if RepeatsAtEnd(all, p) then [all[|all|-1]] else []
  }

  lemma OnePage(all: seq<nat>, size: nat, k: nat)
    requires size > 0 && k > 0 && Pagination(size, k).EntriesBefore() < |all|
    ensures var before, repeat := Pagination(size, k).EntriesBefore(), Repeat(all, Pagination(size, k));
      if before + size < |all| then
        PageOf(all, size, k) == all[before..before + size] && Repeat(all, Pagination(size, k + 1)) == repeat
      else PageOf(all, size, k) == all[before..] + repeat
  {
    NextPage(size, k);
    var before := Pagination(size, k).EntriesBefore();
    if before == 1 { assert size >= 2 ==> (k - 1) * size != 1; }
  }

  lemma NextPage(size: nat, k: nat)
    requires k > 0
    ensures Pagination(size, k + 1).EntriesBefore() == Pagination(size, k).EntriesBefore() + size
    ensures size == 2 ==> Pagination(size, k).EntriesBefore() % 2 == 0
  {
    assert k * size == (k - 1) * size + size;
  }

  /** The search visits what lies behind the skipped entries, unless it starts at page 0 or repeats the last entry. */
  lemma VisitedIsRest(all: seq<nat>, p: Pagination)
    ensures var before := p.EntriesBefore();
      Visited(all, p) == (if before < |all| then all[before..] else []) <==>
      (p.page > 0 || p.size == 0 || all == []) && !RepeatsAtEnd(all, p)
  {
    if p.size > 0 {
      PagesAreRest(all, p.size, if p.page == 0 then 1 else p.page);
    }
  }

  // ---------- the element filter ----------

  ghost predicate Stops(numbers: seq<nat>, filter: FilterFunction<nat, nat>) {
    exists i :: 0 <= i < |numbers| && filter(numbers[i]).0.stop
  }

  lemma {:induction false} UsedUntilStopConcat(a: seq<nat>, b: seq<nat>, filter: FilterFunction<nat, nat>)
    ensures UsedUntilStop(a + b, filter) ==
      UsedUntilStop(a, filter) + if Stops(a, filter) then [] else UsedUntilStop(b, filter)
  {
    if a == [] {
      assert a + b == b;
    } else {
      var rest := a[1..];
      assert (a + b)[1..] == rest + b;
      UsedUntilStopConcat(rest, b, filter);
      assert Stops(rest, filter) ==> Stops(a, filter) by {
        if i :| 0 <= i < |rest| && filter(rest[i]).0.stop { assert filter(a[i+1]).0.stop; }
      }
      assert Stops(a, filter) && !filter(a[0]).0.stop ==> Stops(rest, filter) by {
        if i :| 0 <= i < |a| && filter(a[i]).0.stop { assert i > 0 ==> rest[i-1] == a[i]; }
      }
      hide UsedUntilStop;
      UnfoldUsed(a, filter);
      UnfoldUsed(a + b, filter);
      Associative(UsedOne(a[0], filter), UsedUntilStop(rest, filter), if Stops(rest, filter) then [] else UsedUntilStop(b, filter));
    }
  }

  lemma UnfoldUsed(a: seq<nat>, filter: FilterFunction<nat, nat>)
    requires a != []
    ensures UsedUntilStop(a, filter) == UsedOne(a[0], filter) + if filter(a[0]).0.stop then [] else UsedUntilStop(a[1..], filter)
  {
  }

  lemma {:induction false} UsedAreFew(a: seq<nat>, filter: FilterFunction<nat, nat>)
    ensures |UsedUntilStop(a, filter)| <= |a|
  {
    if a != [] { UsedAreFew(a[1..], filter); }
  }

  /** Up to the first STOP there is a transaction behind every number. */
  ghost predicate AllConfirmed(numbers: seq<nat>, confirmed: map<nat, Tx>, filter: FilterFunction<nat, nat>) {
    forall i :: 0 <= i < |numbers| ==> numbers[i] in confirmed || Stops(numbers[..i], filter)
  }

  /** The first number without a transaction, reached before any STOP. */
  ghost predicate IsMissing(numbers: seq<nat>, confirmed: map<nat, Tx>, filter: FilterFunction<nat, nat>, i: nat) {
    i < |numbers| && numbers[i] !in confirmed && AllConfirmed(numbers[..i], confirmed, filter) && !Stops(numbers[..i], filter)
  }

  /** A stretch without STOP is confirmed, and the next number is confirmed, missing or the last one needed. */
  lemma ConfirmedUpTo(numbers: seq<nat>, confirmed: map<nat, Tx>, filter: FilterFunction<nat, nat>, i: nat)
    requires i <= |numbers| && forall j :: 0 <= j < i ==> !filter(numbers[j]).0.stop && numbers[j] in confirmed
    ensures i < |numbers| && numbers[i] !in confirmed ==> IsMissing(numbers, confirmed, filter, i)
    ensures i == |numbers| ==> AllConfirmed(numbers, confirmed, filter) && !Stops(numbers, filter)
    ensures i < |numbers| && numbers[i] in confirmed && filter(numbers[i]).0.stop ==>
      AllConfirmed(numbers, confirmed, filter) && Stops(numbers, filter)
  {
    var front := numbers[..i];
    assert forall j :: 0 <= j < i ==> front[j] == numbers[j];
    if i < |numbers| && filter(numbers[i]).0.stop {
      forall j | i < j < |numbers| ensures Stops(numbers[..j], filter) {
        assert numbers[..j][i] == numbers[i];
      }
    }
  }

  lemma NoneIsMissing(numbers: seq<nat>, confirmed: map<nat, Tx>, filter: FilterFunction<nat, nat>)
    requires AllConfirmed(numbers, confirmed, filter)
    ensures forall i :: !IsMissing(numbers, confirmed, filter, i)
  {
  }

  /** What holds of the numbers before a page, and of the page, holds of them together. */
  lemma ConfirmedConcat(a: seq<nat>, b: seq<nat>, confirmed: map<nat, Tx>, filter: FilterFunction<nat, nat>)
    requires AllConfirmed(a, confirmed, filter) && !Stops(a, filter)
    ensures AllConfirmed(b, confirmed, filter) ==> AllConfirmed(a + b, confirmed, filter)
  {
    var ab := a + b;
    forall i | 0 <= i < |ab| && AllConfirmed(b, confirmed, filter) ensures ab[i] in confirmed || Stops(ab[..i], filter) {
      if i < |a| {
        assert ab[..i] == a[..i];
      } else {
        assert ab[..i] == a + b[..i - |a|];
        StopsConcat(a, b[..i - |a|], filter);
      }
    }
  }

  /** A missing number of a page is missing from all that is visited. */
  lemma MissingConcat(a: seq<nat>, b: seq<nat>, rest: seq<nat>, confirmed: map<nat, Tx>, filter: FilterFunction<nat, nat>, i: nat)
    requires AllConfirmed(a, confirmed, filter) && !Stops(a, filter) && IsMissing(b, confirmed, filter, i)
    ensures IsMissing(a + (b + rest), confirmed, filter, |a| + i)
  {
    var all := a + (b + rest);
    assert all[..|a| + i] == a + b[..i] && all[|a| + i] == b[i];
    ConfirmedConcat(a, b[..i], confirmed, filter);
    StopsConcat(a, b[..i], filter);
  }

  /** The inner loop: one page, up to the first STOP. */
  method FilterPage(txs: seq<nat>, confirmed: map<nat, Tx>, elementFilter: Tx -> FilterResult, found: seq<nat>)
    returns (r: Result<(seq<nat>, FilterResult), TxError>)
    ensures r.Failure? <==> exists i :: IsMissing(txs, confirmed, Judged(confirmed, elementFilter), i)
    ensures r.Success? ==> AllConfirmed(txs, confirmed, Judged(confirmed, elementFilter))
    ensures r.Success? ==>
      && r.value.0 == found + UsedUntilStop(txs, Judged(confirmed, elementFilter))
      && (txs != [] ==> (r.value.1.stop <==> Stops(txs, Judged(confirmed, elementFilter))))
  {
    hide AllConfirmed, IsMissing, Stops, UsedUntilStop;
    var resultTxs, result, judge := found, DISMISS, Judged(confirmed, elementFilter);
    assert txs[0..] == txs;
    for i := 0 to |txs|
      invariant found + UsedUntilStop(txs, judge) == resultTxs + Rest(txs, judge, i)
      invariant forall j :: 0 <= j < i ==> !judge(txs[j]).0.stop && txs[j] in confirmed
      invariant !result.stop
    {
      if txs[i] !in confirmed {
        ConfirmedUpTo(txs, confirmed, judge, i);
        return Failure(InvalidData);
      }
      OneElementFurther(txs, judge, i, resultTxs);
      result := elementFilter(confirmed[txs[i]]);
      if result.use {
        resultTxs := resultTxs + [txs[i]];
      } else {
        assert resultTxs + UsedOne(txs[i], judge) == resultTxs;
      }
      if result.stop {
        ConfirmedUpTo(txs, confirmed, judge, i);
        NoneIsMissing(txs, confirmed, judge);
        assert resultTxs + [] == resultTxs;
        return Success((resultTxs, result));
      }
    }
    ConfirmedUpTo(txs, confirmed, judge, |txs|);
    NoneIsMissing(txs, confirmed, judge);
    NothingIsLeft(txs, judge);
    assert resultTxs + [] == resultTxs;
    return Success((resultTxs, result));
  }

  lemma NothingIsLeft(txs: seq<nat>, filter: FilterFunction<nat, nat>)
    ensures Rest(txs, filter, |txs|) == []
  {
  }

  /** The element filter on the transactions behind the numbers. */
  function Judged(confirmed: map<nat, Tx>, elementFilter: Tx -> FilterResult): FilterFunction<nat, nat> {
    (nr: nat) => (if nr in confirmed then elementFilter(confirmed[nr]) else DISMISS, nr)
  }

  // ---------- the page loop ----------

  /** Changing the page does not change what is paged. */
  lemma {:induction false} ScanIgnoresPage(chain: seq<Tx>, f: CompactFilter, p: Pagination, own: nat, keys: seq<RawKey>)
    ensures Scan(chain, f.(pagination := p), own, keys) == Scan(chain, f, own, keys)
  {
    if chain != [] {
      ScanIgnoresPage(chain[..|chain|-1], f, p, own, keys);
    }
  }

  lemma AnswerIgnoresPage(index: TransactionsIndex, f: CompactFilter, p: Pagination)
    requires index.Valid()
    ensures index.Answer(f.(pagination := p)) == index.Answer(f)
  {
    hide Scan;
    ScanIgnoresPage(index.chain, f, p, index.communityIdIndex, index.keys);
  }

  /** How many of the visited numbers are on the first n pages. */
  ghost function PagesEnd(all: seq<nat>, p: Pagination, n: nat): nat {
    if n == 0 then 0
    else if p.size == 0 then |all|
    else PagesEnd(all, p, n - 1) + |PageOf(all, p.size, p.page + n - 1)|
  }

  /** Behind the first m numbers the search ends: nothing is left, the element filter stopped it, or the page is full. */
  ghost predicate HasReason(visited: seq<nat>, m: nat, size: nat, filter: FilterFunction<nat, nat>) {
    && m <= |visited|
    && (m == |visited| || Stops(visited[..m], filter) || (size > 0 && |UsedUntilStop(visited[..m], filter)| >= size))
  }

  ghost predicate ReasonAt(all: seq<nat>, p: Pagination, n: nat, filter: FilterFunction<nat, nat>) {
    HasReason(Visited(all, p), PagesEnd(all, p, n), p.size, filter)
  }

  /** The search ends behind the first pages that give it a reason to. */
  ghost predicate IsEnd(all: seq<nat>, p: Pagination, n: nat, filter: FilterFunction<nat, nat>) {
    ReasonAt(all, p, n, filter) && forall i :: 0 <= i < n ==> !ReasonAt(all, p, i, filter)
  }

  /** The result is what the element filter uses of the first m visited numbers, unless a transaction is missing there. */
  ghost predicate IsOutcome(r: Result<seq<nat>, TxError>, visited: seq<nat>, m: nat, size: nat, filter: FilterFunction<nat, nat>,
                            confirmed: map<nat, Tx>) {
    && m <= |visited| && (r.Success? <==> AllConfirmed(visited[..m], confirmed, filter))
    && (r.Success? ==> r.value == UsedUntilStop(visited[..m], filter) && (size > 0 ==> |r.value| < 2 * size))
  }

  ghost predicate Ended(r: Result<seq<nat>, TxError>, all: seq<nat>, p: Pagination, n: nat, filter: FilterFunction<nat, nat>,
                        confirmed: map<nat, Tx>) {
    IsEnd(all, p, n, filter) && IsOutcome(r, Visited(all, p), PagesEnd(all, p, n), p.size, filter, confirmed)
  }

  /** There is one end and one result. */
  lemma OutcomeIsUnique(r: Result<seq<nat>, TxError>, r': Result<seq<nat>, TxError>, all: seq<nat>, p: Pagination,
                        n: nat, n': nat, filter: FilterFunction<nat, nat>, confirmed: map<nat, Tx>)
    requires Ended(r, all, p, n, filter, confirmed) && Ended(r', all, p, n', filter, confirmed)
    ensures n == n' && (r.Success? <==> r'.Success?) && (r.Success? ==> r == r')
  {
    hide ReasonAt, AllConfirmed, PagesEnd, Visited, UsedUntilStop;
    assert n < n' ==> ReasonAt(all, p, n, filter);
    assert n' < n ==> ReasonAt(all, p, n', filter);
  }

  /** The first n pages and what is left behind them. */
  lemma {:induction false} PagesAreVisited(all: seq<nat>, p: Pagination, n: nat)
    requires p.size > 0
    ensures PagesEnd(all, p, n) + |PagesFrom(all, p.size, p.page + n)| == |Visited(all, p)|
  {
    hide PagesFrom, PageWithRepeat, Pagination.EntriesBefore;
    if n != 0 {
      PagesAreVisited(all, p, n - 1);
      TakeOnePage(all, p.size, p.page + n - 1);
      if PagesFrom(all, p.size, p.page + n - 1) == [] {
        NothingFollowsNothing(all, p.size, p.page + n - 1);
      }
    }
  }

  lemma NothingFollowsNothing(all: seq<nat>, size: nat, k: nat)
    requires size > 0 && PagesFrom(all, size, k) == []
    ensures PagesFrom(all, size, k + 1) == []
  {
    if k > 0 { NextPage(size, k); }
  }

  /** The pages come to an end. */
  lemma AllIsVisited(all: seq<nat>, p: Pagination) returns (n: nat)
    ensures PagesEnd(all, p, n) == |Visited(all, p)|
  {
    n := |all| + 1;
    if p.size > 0 {
      PagesAreVisited(all, p, n);
      AtLeast(p.page + n - 1, p.size);
    }
  }

  /** If the first k pages give no reason to end, some later ones do. */
  lemma {:induction false} EndIsReached(all: seq<nat>, p: Pagination, filter: FilterFunction<nat, nat>, k: nat, last: nat)
    returns (n: nat)
    requires ReasonAt(all, p, last, filter) && k <= last && forall i :: 0 <= i < k ==> !ReasonAt(all, p, i, filter)
    ensures k <= n && IsEnd(all, p, n, filter)
    decreases last - k
  {
    hide ReasonAt;
    if ReasonAt(all, p, k, filter) {
      n := k;
    } else {
      n := EndIsReached(all, p, filter, k + 1, last);
    }
  }

  lemma {:induction false} PagesEndGrows(all: seq<nat>, p: Pagination, k: nat, n: nat)
    requires k <= n
    ensures PagesEnd(all, p, k) <= PagesEnd(all, p, n)
  {
    if k < n { PagesEndGrows(all, p, k, n - 1); }
  }

  /** A transaction missing on page k is missing before the end. */
  lemma MissingIsFailure(all: seq<nat>, p: Pagination, filter: FilterFunction<nat, nat>, confirmed: map<nat, Tx>, k: nat, i: nat,
                         e: TxError)
    requires IsMissing(Visited(all, p), confirmed, filter, i) && i < PagesEnd(all, p, k)
    requires forall j :: 0 <= j < k ==> !ReasonAt(all, p, j, filter)
    ensures exists n :: Ended(Failure(e), all, p, n, filter, confirmed)
  {
    hide UsedUntilStop, PagesEnd, Visited;
    var visited := Visited(all, p);
    var last := AllIsVisited(all, p);
    assert ReasonAt(all, p, last, filter);
    var n := EndIsReached(all, p, filter, k, last);
    var m := PagesEnd(all, p, n);
    PagesEndGrows(all, p, k, n);
    assert visited[..m][i] == visited[i] && visited[..m][..i] == visited[..i];
    assert Ended(Failure(e), all, p, n, filter, confirmed);
  }

  /** Nothing stopped the search on the numbers visited so far, and the page is not full. */
  ghost predicate GoesOn(found: seq<nat>, before: seq<nat>, size: nat, filter: FilterFunction<nat, nat>,
                         confirmed: map<nat, Tx>) {
    && AllConfirmed(before, confirmed, filter) && found == UsedUntilStop(before, filter)
    && !Stops(before, filter) && (size > 0 ==> |found| < size)
  }

  /** One more page: either there is a reason to end, or the search goes on behind the page. */
  lemma PageDone(found: seq<nat>, before: seq<nat>, txs: seq<nat>, rest: seq<nat>, size: nat, filter: FilterFunction<nat, nat>,
                 confirmed: map<nat, Tx>)
    requires GoesOn(found, before, size, filter, confirmed) && AllConfirmed(txs, confirmed, filter)
    requires if size > 0 then |txs| <= size else rest == []
    ensures var now, visited := found + UsedUntilStop(txs, filter), before + (txs + rest);
      if size != 0 && |now| < size && !Stops(txs, filter)
      then GoesOn(now, before + txs, size, filter, confirmed) && visited == (before + txs) + rest
      else
        && HasReason(visited, |before + txs|, size, filter)
        && IsOutcome(Success(now), visited, |before + txs|, size, filter, confirmed)
  {
    hide UsedUntilStop, AllConfirmed, Stops;
    UsedUntilStopConcat(before, txs, filter);
    UsedAreFew(txs, filter);
    StopsConcat(before, txs, filter);
    ConfirmedConcat(before, txs, confirmed, filter);
    var visited := before + (txs + rest);
    assert visited == (before + txs) + rest && visited[..|before + txs|] == before + txs;
  }

  lemma MissingOnPage(found: seq<nat>, before: seq<nat>, txs: seq<nat>, rest: seq<nat>, size: nat,
                      filter: FilterFunction<nat, nat>, confirmed: map<nat, Tx>, i: nat)
    requires GoesOn(found, before, size, filter, confirmed) && IsMissing(txs, confirmed, filter, i)
    ensures i < |txs| && IsMissing(before + (txs + rest), confirmed, filter, |before| + i)
  {
    assert i < |txs|;
    MissingConcat(before, txs, rest, confirmed, filter, i);
  }

  lemma NoReasonBefore(found: seq<nat>, before: seq<nat>, txs: seq<nat>, rest: seq<nat>, size: nat,
                       filter: FilterFunction<nat, nat>, confirmed: map<nat, Tx>)
    requires GoesOn(found, before, size, filter, confirmed) && txs != []
    ensures !HasReason(before + (txs + rest), |before|, size, filter)
  {
    hide UsedUntilStop, AllConfirmed, Stops;
    assert (before + (txs + rest))[..|before|] == before;
  }

  lemma NothingLeftToVisit(found: seq<nat>, before: seq<nat>, size: nat, filter: FilterFunction<nat, nat>, confirmed: map<nat, Tx>)
    requires GoesOn(found, before, size, filter, confirmed)
    ensures HasReason(before, |before|, size, filter) && IsOutcome(Success(found), before, |before|, size, filter, confirmed)
  {
    hide UsedUntilStop, AllConfirmed, Stops;
    assert before[..|before|] == before;
  }

  lemma StopsConcat(a: seq<nat>, b: seq<nat>, filter: FilterFunction<nat, nat>)
    ensures Stops(a + b, filter) <==> Stops(a, filter) || Stops(b, filter)
  {
    var ab := a + b;
    assert forall i :: 0 <= i < |a| ==> ab[i] == a[i];
    assert forall i :: 0 <= i < |b| ==> ab[|a| + i] == b[i];
    if i :| 0 <= i < |ab| && filter(ab[i]).0.stop {
      assert if i < |a| then filter(a[i]).0.stop else filter(b[i - |a|]).0.stop;
    }
  }

  /** The numbers still to visit at a page number. */
  ghost function ToVisit(all: seq<nat>, size: nat, k: nat): seq<nat> {
    if size == 0 then all else PagesFrom(all, size, k)
  }

  lemma TakeOnePage(all: seq<nat>, size: nat, k: nat)
    ensures var page := PageWithRepeat(all, Pagination(size, k).EntriesBefore(), size);
      && (page == [] <==> ToVisit(all, size, k) == [])
      && (page != [] && size > 0 ==>
        && Pagination(size, k).EntriesBefore() < |all| && |page| <= size
        && ToVisit(all, size, k) == page + ToVisit(all, size, k + 1))
      && (size == 0 ==> page == ToVisit(all, size, k))
  {
    if size == 0 {
      assert Pagination(size, k).EntriesBefore() == 0;
    }
  }

  lemma {:induction false} ScanIsShort(chain: seq<Tx>, f: CompactFilter, own: nat, keys: seq<RawKey>)
    ensures |Scan(chain, f, own, keys)| <= |chain|
  {
    if chain != [] { ScanIsShort(chain[..|chain|-1], f, own, keys); }
  }

  /**
   All pages from the requested one on, until the page is filled by what the element filter uses,
   the element filter stops the search, or a page is empty. Page numbers and skip counts must fit
   into 32 bits.
   */
  method FindAll(index: TransactionsIndex, cache: QueryCache, confirmed: map<nat, Tx>, f: CompactFilter,
                 elementFilter: Tx -> FilterResult)
    returns (r: Result<seq<nat>, TxError>)
    requires index.Valid() && f.Ok() && cache.Valid()
    requires f.pagination.EntriesBefore() < UINT32_RANGE && |index.chain| + f.pagination.size < UINT32_RANGE
    modifies cache
    ensures cache.Valid()
    ensures exists n ::
      Ended(r, Directed(f.searchDirection, index.Answer(f)), f.pagination, n, Judged(confirmed, elementFilter), confirmed)
  {
    hide Scan, PagesFrom, UsedUntilStop, TransactionsIndex.Valid, QueryCache.Valid, TransactionsIndex.Answer, PageWithRepeat,
         Directed, Judged, Stops, AllConfirmed, IsMissing, GoesOn, IsOutcome, HasReason, Visited;
    ghost var all := Directed(f.searchDirection, index.Answer(f));
    ghost var visited, judge := Visited(all, f.pagination), Judged(confirmed, elementFilter);
    AllIsShort(index, f);
    var resultTxs, result, size := [], DISMISS, f.pagination.size;
    var page := f.pagination;
    ghost var before: seq<nat>, n := [], 0;
    var again := true;
    NothingVisited(size, judge, confirmed);
    FirstPage(all, f.pagination);
    while again
      invariant cache.Valid() && page.size == size && page.Ok() && page.EntriesBefore() < UINT32_RANGE
      invariant |before| == PagesEnd(all, f.pagination, n) && forall i :: 0 <= i < n ==> !ReasonAt(all, f.pagination, i, judge)
      invariant again ==> page.page == f.pagination.page + n && (size == 0 ==> n == 0)
      invariant again ==> GoesOn(resultTxs, before, size, judge, confirmed) && visited == before + ToVisit(all, size, page.page)
      invariant !again ==> Ended(Success(resultTxs), all, f.pagination, n, judge, confirmed)
      decreases again, if page.page == 0 then 1 else 0, |all| - page.EntriesBefore()
    {
      AnswerIgnoresPage(index, f, page);
      var txs := index.FindTransactions(f.(pagination := page), cache);
      TakeOnePage(all, size, page.page);
      SkipIsExact(page);
      assert txs == PageOf(all, size, page.page);
      if txs == [] {
        assert visited == before;
        NothingLeftToVisit(resultTxs, before, size, judge, confirmed);
        assert Ended(Success(resultTxs), all, f.pagination, n, judge, confirmed);
        break;
      }
      ghost var rest := if size == 0 then [] else ToVisit(all, size, page.page + 1);
      assert visited == before + (txs + rest);
      NoReasonBefore(resultTxs, before, txs, rest, size, judge, confirmed);
      assert !ReasonAt(all, f.pagination, n, judge);
      assert PagesEnd(all, f.pagination, n + 1) == |before + txs|;
      var filtered := FilterPage(txs, confirmed, elementFilter, resultTxs);
      if filtered.Failure? {
        ghost var i :| IsMissing(txs, confirmed, judge, i);
        MissingOnPage(resultTxs, before, txs, rest, size, judge, confirmed, i);
        MissingIsFailure(all, f.pagination, judge, confirmed, n + 1, |before| + i, filtered.error);
        assert index.Answer(f) == old(index.Answer(f));
        return Failure(filtered.error);
      }
      PageDone(resultTxs, before, txs, rest, size, judge, confirmed);
      resultTxs, result := filtered.value.0, filtered.value.1;
      before, n := before + txs, n + 1;
      NextPageFits(page);
      page := page.(page := (page.page + 1) % UINT32_RANGE);
      again := size != 0 && page.HasCapacityLeft(|resultTxs|) && !result.stop;
    }
    assert Ended(Success(resultTxs), all, f.pagination, n, judge, confirmed);
    assert index.Answer(f) == old(index.Answer(f));
    return Success(resultTxs);
  }

  lemma FirstPage(all: seq<nat>, p: Pagination)
    ensures Visited(all, p) == [] + ToVisit(all, p.size, p.page)
  {
  }

  lemma SkipIsExact(p: Pagination)
    requires p.EntriesBefore() < UINT32_RANGE
    ensures p.SkipEntriesCount() == p.EntriesBefore() == Pagination(p.size, p.page).EntriesBefore()
  {
    WrapShortens(p);
  }

  lemma NothingVisited(size: nat, filter: FilterFunction<nat, nat>, confirmed: map<nat, Tx>)
    ensures GoesOn([], [], size, filter, confirmed)
  {
  }

  lemma AllIsShort(index: TransactionsIndex, f: CompactFilter)
    ensures |Directed(f.searchDirection, index.Answer(f))| <= |index.chain|
  {
    hide Scan;
    ScanIsShort(index.chain, f, index.communityIdIndex, index.keys);
  }

  lemma NextPageFits(p: Pagination)
    ensures p.(page := p.page + 1).EntriesBefore() == p.EntriesBefore() + (if p.page == 0 then 0 else p.size)
    ensures p.EntriesBefore() + p.size + 1 < UINT32_RANGE && p.size > 0 ==> p.page + 1 < UINT32_RANGE
  {
    if p.page > 0 {
      NextPage(p.size, p.page);
      if p.size > 0 { AtLeast(p.page - 1, p.size); }
      assert p == Pagination(p.size, p.page) && p.(page := p.page + 1) == Pagination(p.size, p.page + 1);
      assert p.EntriesBefore() == (p.page - 1) * p.size;
      hide Pagination.EntriesBefore;
    }
  }

  lemma AtLeast(a: nat, b: nat)
    requires b > 0
    ensures a * b >= a
  {
  }
}
