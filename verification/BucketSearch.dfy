/** How the month buckets of an index follow its history, and the search through single buckets. */
module BucketSearch {
  import opened Filters
  import opened RangeUtils
  import opened MonthEntries
  import opened BalanceHistory

  /** The bucket at position i holds the entries of the i-th month since the oldest one. */
  ghost predicate BucketsHold(h: seq<Booking>, base: int, buckets: seq<seq<Entry>>) {
    forall i :: 0 <= i < |buckets| ==> buckets[i] == InMonths(h, base + i, base + i)
  }

  /** The bounds of the index are those of the history. */
  ghost predicate BoundsHold(h: seq<Booking>, minNr: nat, maxNr: nat, minYm: YearMonth, maxYm: YearMonth) {
    if h == [] then minNr == maxNr == 0 && minYm.IsUnset() && maxYm.IsUnset()
    else minNr == h[0].Nr() && maxNr == Last(h).Nr() && minYm == h[0].ym && maxYm == Last(h).ym
  }

  /** Bounds and buckets agree with the history. */
  ghost predicate Follows(h: seq<Booking>, minNr: nat, maxNr: nat, minYm: YearMonth, maxYm: YearMonth,
                          buckets: seq<seq<Entry>>)
  {
    && HistoryOrder(h) && BoundsHold(h, minNr, maxNr, minYm, maxYm)
    && maxYm.Number() - minYm.Number() < |buckets| && BucketsHold(h, minYm.Number(), buckets)
  }

  function EmptyBuckets(n: nat): (r: seq<seq<Entry>>)
    ensures |r| == n && forall i :: 0 <= i < n ==> r[i] == []
  {
    seq(n, _ => [])
  }

  lemma NothingFollows(h: seq<Booking>, unset: YearMonth, buckets: seq<seq<Entry>>)
    requires h == [] && unset.IsUnset() && buckets != [] && forall i :: 0 <= i < |buckets| ==> buckets[i] == []
    ensures Follows(h, 0, 0, unset, unset, buckets)
  {
  }

  lemma InMonthsNext(h: seq<Booking>, b: Booking, lo: int, hi: int)
    ensures InMonths(h + [b], lo, hi) == InMonths(h, lo, hi) + if lo <= b.Month() <= hi then [b.entry] else []
  {
    assert Init(h + [b]) == h && Last(h + [b]) == b;
  }

  /** Months behind the newest one have empty buckets. */
  lemma BucketsGrow(h: seq<Booking>, base: int, buckets: seq<seq<Entry>>, grown: nat)
    requires HistoryOrder(h) && BucketsHold(h, base, buckets)
    requires h != [] ==> Last(h).Month() - base < |buckets|
    ensures BucketsHold(h, base, buckets + EmptyBuckets(grown))
  {
    var t := buckets + EmptyBuckets(grown);
    forall i | 0 <= i < |t| ensures t[i] == InMonths(h, base + i, base + i) {
      if |buckets| <= i {
        forall j | 0 <= j < |h| ensures h[j].Month() < base + i {
          assert j < |h| - 1 ==> h[j].Month() <= h[|h|-1].Month();
        }
        NoMonths(h, base + i, base + i);
      }
    }
  }

  /** Appending the entry of the next booking to the bucket of its month. */
  lemma BucketsNext(h: seq<Booking>, b: Booking, base: int, buckets: seq<seq<Entry>>, m: nat, buckets': seq<seq<Entry>>)
    requires BucketsHold(h, base, buckets) && m == b.Month() - base < |buckets|
    requires |buckets'| == |buckets| && buckets'[m] == buckets[m] + [b.entry]
    requires forall i :: 0 <= i < |buckets| && i != m ==> buckets'[i] == buckets[i]
    ensures BucketsHold(h + [b], base, buckets')
  {
    forall i | 0 <= i < |buckets'| ensures buckets'[i] == InMonths(h + [b], base + i, base + i) {
      InMonthsNext(h, b, base + i, base + i);
    }
  }

  /** The buckets after an entry went to position m; before that the table may have grown. */
  ghost predicate BucketsAdded(buckets: seq<seq<Entry>>, m: nat, e: Entry, buckets': seq<seq<Entry>>) {
    exists grown: nat ::
      var t := buckets + EmptyBuckets(grown);
      m < |t| && buckets' == t[m := t[m] + [e]]
  }

  lemma FollowsNext(h: seq<Booking>, minNr: nat, maxNr: nat, minYm: YearMonth, maxYm: YearMonth, buckets: seq<seq<Entry>>,
                    b: Booking, m: nat, minYm': YearMonth, buckets': seq<seq<Entry>>)
    requires Follows(h, minNr, maxNr, minYm, maxYm, buckets) && HistoryOrder(h + [b])
    requires minYm' == if minYm.IsUnset() then b.ym else minYm
    requires m == b.Month() - minYm'.Number() && BucketsAdded(buckets, m, b.entry, buckets')
    ensures Follows(h + [b], if minNr == 0 then b.Nr() else minNr, if maxNr < b.Nr() then b.Nr() else maxNr,
                    minYm', if maxYm.Less(b.ym) then b.ym else maxYm, buckets')
    ensures buckets'[m] == InMonths(h, b.Month(), b.Month()) + [b.entry]
  {
    hide InMonths;
    var grown: nat :| var t := buckets + EmptyBuckets(grown); m < |t| && buckets' == t[m := t[m] + [b.entry]];
    var h', t := h + [b], buckets + EmptyBuckets(grown);
    assert h'[|h|] == b && forall i :: 0 <= i < |h| ==> h'[i] == h[i];
    if h == [] {
      forall i | 0 <= i < |t| ensures t[i] == InMonths(h, minYm'.Number() + i, minYm'.Number() + i) {
        if i < |buckets| { NoMonths(h, minYm.Number() + i, minYm.Number() + i); }
        NoMonths(h, minYm'.Number() + i, minYm'.Number() + i);
      }
    } else {
      assert h[|h|-1] == h'[|h|-1] && h'[|h|-1].Month() <= b.Month() && h'[|h|-1].Nr() + 1 == b.Nr();
      BucketsGrow(h, minYm.Number(), buckets, grown);
    }
    BucketsNext(h, b, minYm'.Number(), t, m, buckets');
  }

  lemma BalancesNext(h: seq<Booking>, b: Booking, k: nat)
    ensures BalanceList(h + [b], k) == BalanceList(h, k) + if b.entry.Changes(k) then [b.AsBalance()] else []
    ensures LastChange(h + [b], k) == if b.entry.Changes(k) then b.Nr() else LastChange(h, k)
  {
    assert Init(h + [b]) == h && Last(h + [b]) == b;
  }

  lemma NothingWanted(h: seq<Booking>, f: CompactFilter, lo: int, hi: int)
    requires forall i :: 0 <= i < |h| ==> !Wanted(h[i], f, lo, hi)
    ensures Scan(h, f, lo, hi) == []
  {
    var es := InMonths(h, lo, hi);
    forall e | e in es ensures !Judge(f)(e).0.use {
      InMonthsHolds(h, lo, hi, e);
    }
    NothingUsed(es, Judge(f));
  }

  /** What the months lo to hi hold for a query, cut at month m. */
  lemma ThreeParts(h: seq<Booking>, f: CompactFilter, lo: int, m: int, hi: int)
    requires HistoryOrder(h) && lo <= m <= hi
    ensures IsRun(InMonths(h, m, m))
    ensures Scan(h, f, lo, m) == Scan(h, f, lo, m - 1) + Scan(h, f, m, m)
    ensures Scan(h, f, lo, hi) == Scan(h, f, lo, m - 1) + Scan(h, f, m, m) + Scan(h, f, m + 1, hi)
    ensures Scan(h, f, m, hi) == Scan(h, f, m, m) + Scan(h, f, m + 1, hi)
    ensures Scan(h, f, lo, hi) == Scan(h, f, lo, m - 1) + Scan(h, f, m, hi)
  {
    MonthsHoldRun(h, m, m);
    SplitScan(h, f, lo, m, m);
    SplitScan(h, f, lo, m + 1, hi);
    SplitScan(h, f, m, m + 1, hi);
    SplitScan(h, f, lo, m, hi);
  }

  lemma NothingAbove(h: seq<Booking>, f: CompactFilter, m: int, hi: int)
    requires HistoryOrder(h)
    ensures EndsAbove(InMonths(h, m, m), f, Scan(h, f, m + 1, hi))
  {
    var bucket := InMonths(h, m, m);
    if e :| e in bucket && f.maxTransactionNr != 0 && f.maxTransactionNr < e.transactionNr {
      InMonthsHolds(h, m, m, e);
      var i :| 0 <= i < |h| && h[i].entry == e && m <= h[i].Month() <= m;
      forall j | 0 <= j < |h| ensures !Wanted(h[j], f, m + 1, hi) {
        assert h[j].Nr() == h[0].Nr() + j && h[i].Nr() == h[0].Nr() + i;
      }
      NothingWanted(h, f, m + 1, hi);
    }
  }

  lemma EmptyScan(h: seq<Booking>, f: CompactFilter, lo: int, hi: int)
    requires hi < lo
    ensures Scan(h, f, lo, hi) == []
  {
    NoMonths(h, lo, hi);
  }

  /** The lowest month a descending search from lo gets to see: a month with numbers below the minimum it never sees. */
  ghost function LowestSeen(h: seq<Booking>, f: CompactFilter, lo: int): int {
    if f.minTransactionNr != 0 && lo <= MonthBelow(h, f.minTransactionNr) then MonthBelow(h, f.minTransactionNr) + 1 else lo
  }

  /** All months from m up lie above the minimum of the filter, or the query wants nothing from lo to hi anyway. */
  ghost predicate IsAboveMinimum(h: seq<Booking>, f: CompactFilter, m: int, lo: int, hi: int) {
    f.minTransactionNr == 0 || MonthBelow(h, f.minTransactionNr) < m || Scan(h, f, lo, hi) == []
  }

  lemma NothingFarBelow(h: seq<Booking>, f: CompactFilter, lo: int, hi: int)
    requires HistoryOrder(h)
    ensures IsAboveMinimum(h, f, hi + 1, lo, hi)
  {
    if f.minTransactionNr != 0 && hi < MonthBelow(h, f.minTransactionNr) {
      MonthBelowExists(h, f.minTransactionNr);
      if i :| 0 <= i < |h| && h[i].Month() == MonthBelow(h, f.minTransactionNr) && h[i].Nr() < f.minTransactionNr {
        forall j | 0 <= j < |h| ensures !Wanted(h[j], f, lo, hi) {
          assert h[j].Nr() == h[0].Nr() + j && h[i].Nr() == h[0].Nr() + i;
        }
      }
      NothingWanted(h, f, lo, hi);
    }
  }

  /** Passing month m on the way down. */
  lemma MonthPassed(h: seq<Booking>, f: CompactFilter, m: int, lo: int, hi: int)
    requires HistoryOrder(h) && 0 < lo <= m <= hi && IsAboveMinimum(h, f, m + 1, lo, hi)
    ensures if BreaksDescending(InMonths(h, m, m), f) then MonthBelow(h, f.minTransactionNr) == m || Scan(h, f, lo, hi) == []
            else IsAboveMinimum(h, f, m, lo, hi)
  {
    hide InMonths, Used;
    var bucket, min := InMonths(h, m, m), f.minTransactionNr;
    MonthsHoldRun(h, m, m);
    if BreaksDescending(bucket, f) {
      InMonthsHolds(h, m, m, bucket[0]);
      assert bucket[0] in bucket;
      var i :| 0 <= i < |h| && h[i].entry == bucket[0] && m <= h[i].Month() <= m;
      assert h[i].ym.Ok();
      MonthBelowIsBound(h, min, m - 1);
    } else if min != 0 && MonthBelow(h, min) == m {
      MonthBelowExists(h, min);
      if i :| 0 <= i < |h| && h[i].Month() == m && h[i].Nr() < min {
        assert h[i].ym.Ok();
        InMonthsHolds(h, m, m, h[i].entry);
        var k :| 0 <= k < |bucket| && bucket[k] == h[i].entry;
        assert bucket[0].transactionNr < min && f.maxTransactionNr != 0 && f.maxTransactionNr < min;
        NothingWanted(h, f, lo, hi);
      }
    }
  }

  /** Where the search stops it has seen all it is going to see. */
  lemma DescendingEnds(h: seq<Booking>, f: CompactFilter, m: int, lo: int, hi: int)
    requires HistoryOrder(h) && lo <= m <= hi + 1
    ensures var low := LowestSeen(h, f, lo);
      && ((f.minTransactionNr != 0 && MonthBelow(h, f.minTransactionNr) == m <= hi) || Scan(h, f, lo, hi) == [] ==>
           Scan(h, f, low, hi) == Scan(h, f, m + 1, hi))
      && (IsAboveMinimum(h, f, m, lo, hi) ==> Scan(h, f, low, hi) == Scan(h, f, low, m - 1) + Scan(h, f, m, hi))
  {
    hide InMonths, Used, HistoryOrder;
    var low := LowestSeen(h, f, lo);
    if Scan(h, f, lo, hi) == [] {
      NothingInPart(h, f, lo, low, hi);
      NothingInPart(h, f, lo, m, hi);
      NothingInPart(h, f, lo, m + 1, hi);
      NothingInPart(h, f, lo, low, m - 1);
    } else if IsAboveMinimum(h, f, m, lo, hi) {
      SplitScan(h, f, low, m, hi);
    }
  }

  lemma NothingInPart(h: seq<Booking>, f: CompactFilter, lo: int, a: int, b: int)
    requires HistoryOrder(h)
    requires exists hi :: b <= hi && Scan(h, f, lo, hi) == [] && lo <= a
    ensures Scan(h, f, a, b) == []
  {
    var hi :| b <= hi && Scan(h, f, lo, hi) == [];
    if a <= b {
      SplitScan(h, f, lo, a, hi);
      SplitScan(h, f, a, b + 1, hi);
    } else {
      EmptyScan(h, f, a, b);
    }
  }

  /** A bucket whose highest number is below the minimum, or whose lowest is above the maximum, has nothing wanted. */
  lemma NothingPicked(es: seq<Entry>, f: CompactFilter)
    requires IsRun(es)
    requires es == [] || (f.minTransactionNr != 0 && Last(es).transactionNr < f.minTransactionNr)
                      || (f.maxTransactionNr != 0 && es[0].transactionNr > f.maxTransactionNr)
    ensures Picks(es, f) == []
  {
    NothingUsed(es, Judge(f));
  }

  /** Once an entry lies behind the bounds, so do all that follow. */
  ghost predicate StaysBehind(list: seq<Entry>, f: CompactFilter) {
    forall i, j :: 0 <= i < j < |list| && IsBehind(list[i].transactionNr, f) ==> IsBehind(list[j].transactionNr, f)
  }

  ghost predicate IsFull<T>(result: seq<T>, size: nat) { size > 0 && |result| == size }

  ghost predicate IsPageOf(result: seq<nat>, all: seq<nat>, p: Pagination) {
    result == Page(all, p.SkipEntriesCount(), p.size)
  }

  lemma FullPageStays(result: seq<nat>, all: seq<nat>, more: seq<nat>, p: Pagination)
    requires IsPageOf(result, all, p) && IsFull(result, p.size)
    ensures IsPageOf(result, all + more, p)
  {
    FullPage(all, more, p.SkipEntriesCount(), p.size);
  }

  /**
   The inner loop of findTransactions over one bucket, in search order. `before` is what earlier
   buckets have given; `done` means that the search ends here.
   */
  method SearchEntries(list: seq<Entry>, f: CompactFilter, found: seq<nat>, seen: nat, ghost before: seq<nat>)
    returns (result: seq<nat>, paginationCursor: nat, done: bool)
    requires IsPageOf(found, before, f.pagination) && seen == |before|
    requires StaysBehind(list, f)
    ensures IsPageOf(result, before + Used(list, Judge(f)), f.pagination)
    ensures !done ==> paginationCursor == |before + Used(list, Judge(f))|
    ensures done ==> IsFull(result, f.pagination.size) || exists e :: e in list && IsBehind(e.transactionNr, f)
  {
    result, paginationCursor := found, seen;
    var skip, size := f.pagination.SkipEntriesCount(), f.pagination.size;
    ghost var used, judge := before, Judge(f);
    assert list[0..] == list;
    for i := 0 to |list|
      invariant before + Used(list, judge) == used + Used(list[i..], judge)
      invariant result == Page(used, skip, size) && paginationCursor == |used|
    {
      ghost var rest := Used(list[i..], judge);
      if !f.pagination.HasCapacityLeft(|result|) {
        FullPage(used, rest, skip, size);
        return result, paginationCursor, true;
      }
      OneUsed(list, judge, i, used);
      var filterResult := list[i].IsMatchingFilter(f);
      if filterResult.use {
        PageGrows(used, list[i].transactionNr, skip, size);
        used := used + [list[i].transactionNr];
        if paginationCursor >= skip {
          result := result + [list[i].transactionNr];
        }
        paginationCursor := paginationCursor + 1;
      } else {
        assert used + UsedOne(list[i], judge) == used;
      }
      if filterResult.stop {
        NothingUsed(list[i+1..], judge);
        assert used + Used(list[i+1..], judge) == used;
        assert list[i] in list;
        return result, paginationCursor, true;
      }
    }
    assert used + Used(list[|list|..], judge) == used;
    done := false;
  }

  /** An entry above the maximum of the filter ends the list: nothing is picked after it. */
  ghost predicate EndsAbove(bucket: seq<Entry>, f: CompactFilter, after: seq<nat>) {
    forall e :: e in bucket && f.maxTransactionNr != 0 && f.maxTransactionNr < e.transactionNr ==> after == []
  }

  /** One bucket of the ascending search; `after` is what later buckets hold for the query. */
  method VisitAscending(bucket: seq<Entry>, f: CompactFilter, found: seq<nat>, seen: nat, ghost before: seq<nat>,
                        ghost after: seq<nat>)
    returns (result: seq<nat>, paginationCursor: nat, done: bool)
    requires f.searchDirection.ASC? && IsRun(bucket) && EndsAbove(bucket, f, after)
    requires IsPageOf(found, before, f.pagination) && seen == |before|
    ensures IsPageOf(result, before + Picks(bucket, f), f.pagination)
    ensures !done ==> paginationCursor == |before + Picks(bucket, f)|
    ensures done ==> IsPageOf(result, before + Picks(bucket, f) + after, f.pagination)
  {
    result, paginationCursor, done := found, seen, false;
    if bucket == [] || (f.minTransactionNr != 0 && bucket[|bucket|-1].transactionNr < f.minTransactionNr) {
      NothingPicked(bucket, f);
      assert before == before + [];
      return;
    }
    if f.maxTransactionNr != 0 && bucket[0].transactionNr > f.maxTransactionNr {
      NothingPicked(bucket, f);
      assert before == before + [] == before + [] + [];
      done := true;
      return;
    }
    result, paginationCursor, done := SearchEntries(bucket, f, found, seen, before);
    ghost var now := before + Picks(bucket, f);
    if done && IsFull(result, f.pagination.size) {
      FullPageStays(result, now, after, f.pagination);
    } else if done {
      var e :| e in bucket && IsBehind(e.transactionNr, f);
      assert now + [] == now;
    }
  }

  /** One bucket of the descending search; the search breaks off at a bucket that starts below the minimum. */
  method VisitDescending(bucket: seq<Entry>, f: CompactFilter, found: seq<nat>, seen: nat, ghost before: seq<nat>,
                         ghost after: seq<nat>)
    returns (result: seq<nat>, paginationCursor: nat, done: bool)
    requires f.searchDirection.DESC? && IsRun(bucket)
    requires IsPageOf(found, before, f.pagination) && seen == |before|
    ensures var breaks := BreaksDescending(bucket, f);
      && (breaks ==> done && result == found)
      && (!breaks ==> IsPageOf(result, before + Reverse(Picks(bucket, f)), f.pagination))
      && (!done ==> paginationCursor == |before + Reverse(Picks(bucket, f))|)
      && (done && !breaks ==> IsPageOf(result, before + Reverse(Picks(bucket, f)) + after, f.pagination))
  {
    result, paginationCursor, done := found, seen, false;
    if bucket == [] {
      assert before == before + Reverse(Picks(bucket, f));
      return;
    }
    if f.maxTransactionNr != 0 && bucket[0].transactionNr > f.maxTransactionNr {
      NothingPicked(bucket, f);
      assert before == before + Reverse(Picks(bucket, f));
      return;
    }
    if f.minTransactionNr != 0 && bucket[0].transactionNr < f.minTransactionNr {
      done := true;
      return;
    }
    UsedReverse(bucket, Judge(f));
    result, paginationCursor, done := SearchEntries(Reverse(bucket), f, found, seen, before);
    if done {
      forall e | e in Reverse(bucket) ensures !IsBehind(e.transactionNr, f) {
        var i :| 0 <= i < |bucket| && Reverse(bucket)[i] == e;
        assert e == bucket[|bucket| - 1 - i];
      }
      FullPageStays(result, before + Reverse(Picks(bucket, f)), after, f.pagination);
    }
  }

  ghost predicate BreaksDescending(bucket: seq<Entry>, f: CompactFilter) {
    && bucket != []
    && !(f.maxTransactionNr != 0 && bucket[0].transactionNr > f.maxTransactionNr)
    && f.minTransactionNr != 0 && bucket[0].transactionNr < f.minTransactionNr
  }

  lemma OneUsed<T, E>(list: seq<T>, filter: FilterFunction<T, E>, i: nat, used: seq<E>)
    requires i < |list|
    ensures used + Used(list[i..], filter) == (used + UsedOne(list[i], filter)) + Used(list[i+1..], filter)
  {
    assert list[i..][1..] == list[i+1..];
    Associative(used, UsedOne(list[i], filter), Used(list[i+1..], filter));
  }

  /** Without a filter beside the number bounds, the entries of a run are counted by subtraction. */
  lemma {:induction false} RunCount(es: seq<Entry>, f: CompactFilter)
    requires es != [] && IsRun(es)
    requires f.transactionType.NoType? && f.publicKeySearchType.AnyPublicKey? && f.coinCommunityIdIndex == 0
    ensures
      var first, last := es[0].transactionNr, Last(es).transactionNr;
      var lo := if f.minTransactionNr != 0 && f.minTransactionNr > first then f.minTransactionNr else first;
      var hi := if f.maxTransactionNr != 0 && f.maxTransactionNr < last then f.maxTransactionNr else last;
      |Picks(es, f)| == if hi >= lo then hi - lo + 1 else 0
  {
    assert es == Init(es) + [Last(es)];
    UsedConcat(Init(es), [Last(es)], Judge(f));
    UsedSingle(Last(es), Judge(f));
    if |es| > 1 {
      RunCount(Init(es), f);
    }
  }
}
