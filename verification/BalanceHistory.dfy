/** The balance changes of single keys within the history of an index. */
module BalanceHistory {
  import opened Filters
  import opened RangeUtils
  import opened MonthEntries

  /** The bookings that change the balance of key k, as the index lists them. */
  ghost function BalanceList(h: seq<Booking>, k: nat): seq<BalanceEntry> {
    if h == [] then []
    else BalanceList(Init(h), k) + if Last(h).entry.Changes(k) then [Last(h).AsBalance()] else []
  }

  /** The number of the last booking that changes the balance of key k, or 0. */
  ghost function LastChange(h: seq<Booking>, k: nat): nat {
    if h == [] then 0 else if Last(h).entry.Changes(k) then Last(h).Nr() else LastChange(Init(h), k)
  }

  lemma {:induction false} LastChangeIsLast(h: seq<Booking>, k: nat)
    requires HistoryOrder(h)
    ensures forall i :: 0 <= i < |h| && h[i].entry.Changes(k) ==> h[i].Nr() <= LastChange(h, k)
    ensures LastChange(h, k) != 0 ==> exists i :: 0 <= i < |h| && h[i].Nr() == LastChange(h, k) && h[i].entry.Changes(k)
  {
    if h != [] {
      InitIsOrdered(h);
      LastChangeIsLast(Init(h), k);
      if Last(h).entry.Changes(k) {
        assert h[|h|-1].Nr() == LastChange(h, k);
        assert forall i :: 0 <= i < |h| ==> h[i].Nr() == h[0].Nr() + i;
      } else {
        assert forall i :: 0 <= i < |h| - 1 ==> Init(h)[i] == h[i];
        if LastChange(h, k) != 0 {
          var i :| 0 <= i < |Init(h)| && Init(h)[i].Nr() == LastChange(h, k) && Init(h)[i].entry.Changes(k);
          assert h[i].Nr() == LastChange(h, k);
        }
      }
    }
  }

  ghost predicate Ascends(l: seq<BalanceEntry>) {
    && (forall i, j :: 0 <= i < j < |l| ==>
         l[i].transactionNr < l[j].transactionNr && l[i].confirmed.Number() <= l[j].confirmed.Number())
    && (forall i :: 0 <= i < |l| ==> l[i].confirmed.Ok())
  }

  /** Numbers and months ascend along a balance list. */
  lemma {:induction false} BalanceListAscends(h: seq<Booking>, k: nat)
    requires HistoryOrder(h)
    ensures Ascends(BalanceList(h, k))
    ensures h != [] ==> forall i :: 0 <= i < |BalanceList(h, k)| ==>
      && BalanceList(h, k)[i].transactionNr <= Last(h).Nr()
      && BalanceList(h, k)[i].confirmed.Number() <= Last(h).Month()
  {
    if h != [] {
      var rest := BalanceList(Init(h), k);
      InitIsOrdered(h);
      BalanceListAscends(Init(h), k);
      assert h[|h|-1] == Last(h);
      if |h| > 1 {
        assert Last(Init(h)) == h[|h|-2] && h[|h|-2].Nr() < h[|h|-1].Nr() && h[|h|-2].Month() <= h[|h|-1].Month();
      } else {
        assert rest == [];
      }
    }
  }

  ghost predicate SameMonths(h: seq<Booking>, startYM: YearMonth, endYM: YearMonth, lo: int, hi: int) {
    forall i :: 0 <= i < |h| ==> (h[i].AsBalance().InMonths(startYM, endYM) <==> lo <= h[i].Month() <= hi)
  }

  /** The balance list of a key answers a query for the balance changes of the key. */
  lemma {:induction false} BalanceListScan(h: seq<Booking>, f: CompactFilter, startYM: YearMonth, endYM: YearMonth, lo: int, hi: int)
    requires f.publicKeySearchType.BalanceChangingPublicKey? && SameMonths(h, startYM, endYM, lo, hi)
    ensures Used(BalanceList(h, f.publicKeyIndex.publicKeyIndex), JudgeBalance(f, startYM, endYM)) == Scan(h, f, lo, hi)
  {
    if h != [] {
      var judge, k, rest := JudgeBalance(f, startYM, endYM), f.publicKeyIndex.publicKeyIndex, Init(h);
      BalanceListScan(rest, f, startYM, endYM, lo, hi);
      ScanOfInit(h, f, lo, hi);
      assert h[|h|-1].AsBalance().InMonths(startYM, endYM) <==> lo <= Last(h).Month() <= hi;
      if Last(h).entry.Changes(k) {
        UsedConcat(BalanceList(rest, k), [Last(h).AsBalance()], judge);
        UsedSingle(Last(h).AsBalance(), judge);
      } else {
        assert BalanceList(h, k) == BalanceList(rest, k);
      }
    }
  }

  /** Stopping early in a balance list loses nothing, in either direction. */
  lemma BalanceStopIsSafe(h: seq<Booking>, k: nat, f: CompactFilter, startYM: YearMonth, endYM: YearMonth)
    requires HistoryOrder(h) && (startYM == NO_MONTH || startYM.Ok()) && (endYM == NO_MONTH || endYM.Ok())
    ensures var l, judge := Directed(f.searchDirection, BalanceList(h, k)), JudgeBalance(f, startYM, endYM);
      UsedUntilStop(l, judge) == Used(l, judge)
  {
    BalanceListAscends(h, k);
    var all, judge := BalanceList(h, k), JudgeBalance(f, startYM, endYM);
    var l := Directed(f.searchDirection, all);
    forall i, j | 0 <= i < j < |l| && judge(l[i]).0.stop ensures !judge(l[j]).0.use {
      var a, b := if f.searchDirection.ASC? then i else |l| - 1 - i, if f.searchDirection.ASC? then j else |l| - 1 - j;
      assert l[i] == all[a] && l[j] == all[b] && all[a].confirmed.Ok() && all[b].confirmed.Ok();
      assert all[a].IsMatchingFilter(f, startYM, endYM).stop;
    }
    StopIsSafe(l, judge);
  }

  /** The number of the last balance change can serve as an upper bound: it cuts nothing off. */
  lemma ClampIsHarmless(h: seq<Booking>, f: CompactFilter, f': CompactFilter, lo: int, hi: int)
    requires HistoryOrder(h) && f.publicKeySearchType.BalanceChangingPublicKey?
    requires LastChange(h, f.publicKeyIndex.publicKeyIndex) != 0
    requires f' == f.(maxTransactionNr := LastChange(h, f.publicKeyIndex.publicKeyIndex))
    requires f.maxTransactionNr == 0 || f.maxTransactionNr > f'.maxTransactionNr
    ensures Scan(h, f', lo, hi) == Scan(h, f, lo, hi)
  {
    LastChangeIsLast(h, f.publicKeyIndex.publicKeyIndex);
    SameScan(h, f, lo, hi, f', lo, hi);
  }

  /** The month of the last booking below a number, or 0. */
  ghost function MonthBelow(h: seq<Booking>, nr: nat): int {
    if h == [] then 0 else if Last(h).Nr() < nr then Last(h).Month() else MonthBelow(Init(h), nr)
  }

  lemma {:induction false} MonthBelowIsBound(h: seq<Booking>, nr: nat, m: nat)
    requires HistoryOrder(h)
    ensures MonthBelow(h, nr) <= m <==> forall i :: 0 <= i < |h| && m < h[i].Month() ==> nr <= h[i].Nr()
  {
    if h != [] {
      InitIsOrdered(h);
      MonthBelowIsBound(Init(h), nr, m);
      if forall i :: 0 <= i < |h| && m < h[i].Month() ==> nr <= h[i].Nr() {
        forall i | 0 <= i < |Init(h)| && m < Init(h)[i].Month() ensures nr <= Init(h)[i].Nr() {
          assert h[i] == Init(h)[i];
        }
      }
      if MonthBelow(h, nr) <= m {
        forall i | 0 <= i < |h| && m < h[i].Month() ensures nr <= h[i].Nr() {
          if i < |h| - 1 { assert Init(h)[i] == h[i]; }
        }
      }
    }
  }

  lemma {:induction false} MonthBelowExists(h: seq<Booking>, nr: nat)
    requires HistoryOrder(h)
    ensures MonthBelow(h, nr) == 0 || exists i :: 0 <= i < |h| && h[i].Month() == MonthBelow(h, nr) && h[i].Nr() < nr
  {
    if h != [] {
      InitIsOrdered(h);
      MonthBelowExists(Init(h), nr);
      if Last(h).Nr() >= nr && MonthBelow(h, nr) != 0 {
        var i :| 0 <= i < |Init(h)| && Init(h)[i].Month() == MonthBelow(h, nr) && Init(h)[i].Nr() < nr;
        assert h[i] == Init(h)[i];
      } else if Last(h).Nr() < nr {
        assert h[|h|-1].Month() == MonthBelow(h, nr);
      }
    }
  }

  // ---------- what the index takes a query to ask for ----------

  ghost function FirstMonth(h: seq<Booking>): int { if h == [] then 0 else h[0].Month() }

  ghost function LastMonth(h: seq<Booking>): int { if h == [] then 0 else Last(h).Month() }

  /**
   The numbers of the bookings a query concerns, ascending. Keys are known by their number alone and
   intervals count whole months; a key that is missing in the dictionary takes part in nothing.
   */
  ghost function ByNumber(h: seq<Booking>, f: CompactFilter): seq<nat> {
    if f.publicKeySearchType.MissingIndex? then []
    else if f.timepointInterval.IsEmpty() then Scan(h, f, FirstMonth(h), LastMonth(h))
    else Scan(h, f, MonthOf(f.timepointInterval.start).Number(), MonthOf(f.timepointInterval.end).Number())
  }

  /** The same without regard to the interval. */
  ghost function AllMonths(h: seq<Booking>, f: CompactFilter): seq<nat> {
    Scan(h, f, FirstMonth(h), LastMonth(h))
  }

  /** The query concerns the booking, as far as entries tell. */
  ghost predicate Concerns(b: Booking, f: CompactFilter) {
    && !f.publicKeySearchType.MissingIndex? && b.entry.Meets(f)
    && (f.timepointInterval.IsEmpty() ||
        MonthOf(f.timepointInterval.start).Number() <= b.Month() <= MonthOf(f.timepointInterval.end).Number())
  }

  lemma MonthsOfHistory(h: seq<Booking>)
    requires HistoryOrder(h)
    ensures forall i :: 0 <= i < |h| ==> FirstMonth(h) <= h[i].Month() <= LastMonth(h)
  {
    forall i | 0 <= i < |h| ensures FirstMonth(h) <= h[i].Month() <= LastMonth(h) {
      assert i > 0 ==> h[0].Month() <= h[i].Month();
      assert i < |h| - 1 ==> h[i].Month() <= h[|h|-1].Month();
    }
  }

  /** Exactly the numbers of the bookings concerned, in ascending order. */
  lemma ByNumberHolds(h: seq<Booking>, f: CompactFilter)
    requires HistoryOrder(h)
    ensures forall i, j :: 0 <= i < j < |ByNumber(h, f)| ==> ByNumber(h, f)[i] < ByNumber(h, f)[j]
    ensures forall nr :: nr in ByNumber(h, f) <==> exists i :: 0 <= i < |h| && h[i].Nr() == nr && Concerns(h[i], f)
  {
    hide InMonths, Used, Scan, HistoryOrder;
    MonthsOfHistory(h);
    ScanLists(h, f, FirstMonth(h), LastMonth(h));
    ScanLists(h, f, MonthOf(f.timepointInterval.start).Number(), MonthOf(f.timepointInterval.end).Number());
  }

  /** The balance list of a key answers a balance query, within the given months or without any. */
  lemma BalanceListAnswers(h: seq<Booking>, f: CompactFilter, f': CompactFilter, startYM: YearMonth, endYM: YearMonth)
    requires HistoryOrder(h) && f.publicKeySearchType.BalanceChangingPublicKey?
    requires f' == f.(searchDirection := f'.searchDirection, timepointInterval := f'.timepointInterval)
    requires (startYM == NO_MONTH || startYM.Ok()) && (endYM == NO_MONTH || endYM.Ok())
    ensures var l, judge := BalanceList(h, f.publicKeyIndex.publicKeyIndex), JudgeBalance(f', startYM, endYM);
      Used(l, judge) == if startYM == NO_MONTH || endYM == NO_MONTH then AllMonths(h, f)
                        else Scan(h, f, startYM.Number(), endYM.Number())
  {
    hide InMonths, Used, BalanceList, Scan;
    var free := startYM == NO_MONTH || endYM == NO_MONTH;
    var lo, hi := if free then FirstMonth(h) else startYM.Number(), if free then LastMonth(h) else endYM.Number();
    MonthsOfHistory(h);
    forall i | 0 <= i < |h| ensures h[i].AsBalance().InMonths(startYM, endYM) <==> lo <= h[i].Month() <= hi {
      assert h[i].ym.Ok();
    }
    BalanceListScan(h, f', startYM, endYM, lo, hi);
    SameScan(h, f', lo, hi, f, lo, hi);
  }
}
