/** What the month buckets and balance lists record about transactions, and how a filter judges it. */
module MonthEntries {
  import opened ConfirmedTx
  import opened Filters
  import opened RangeUtils
  import NaiveScan

  datatype YearMonth = YearMonth(year: int, month: nat) {
    predicate Ok() { 1 <= year && 1 <= month <= 12 }

    /** No month: the state before the first transaction, and the month of the epoch instant. */
    predicate IsUnset() { year == 0 && month == 0 }

    /** Months counted through the years, January first with 0; keeps the order. */
    function Number(): int { year * 12 + month - 1 }

    predicate Less(other: YearMonth) {
      year < other.year || (year == other.year && month < other.month)
    }

    function Next(): YearMonth {
      if month == 12 then YearMonth(year + 1, 1) else YearMonth(year, month + 1)
    }

    function Previous(): YearMonth
      requires month > 0
    {
      if month == 1 then YearMonth(year - 1, 12) else YearMonth(year, month - 1)
    }

    /** monthYearToTimepoint: the first instant of the month. */
    function Start(): Timepoint {
      if month != 0 && year != 0 then Timepoint(Date(year, month, 1), 0) else EPOCH
    }
  }

  const NO_MONTH := YearMonth(0, 0)

  function MonthOf(tp: Timepoint): YearMonth {
    YearMonth(tp.day.year, tp.day.month)
  }

  /** timepointAsYearMonth: the epoch instant has no month. */
  function AsYearMonth(tp: Timepoint): YearMonth {
    if tp == EPOCH then NO_MONTH else MonthOf(tp)
  }

  /** A confirmed transaction in a month bucket; the bit mask is the set of its bit positions. */
  datatype Entry = Entry(transactionType: TransactionType, coinCommunityIdIndex: nat, transactionNr: nat,
                         addressIndices: seq<nat>, isBalanceChanging: set<nat>)
  {
    predicate Involves(k: nat) { k in addressIndices }

    predicate Changes(k: nat) {
      exists i :: 0 <= i < |addressIndices| && i in isBalanceChanging && addressIndices[i] == k
    }

    /** Entries know keys by their number alone. */
    predicate MeetsKey(f: CompactFilter) {
      match f.publicKeySearchType
      case BalanceChangingPublicKey => Changes(f.publicKeyIndex.publicKeyIndex)
      case InvolvedPublicKey => Involves(f.publicKeyIndex.publicKeyIndex)
      case _ => true
    }

    predicate MeetsTypeAndCoin(f: CompactFilter) {
      && NaiveScan.MatchesType(transactionType, f)
      && (f.coinCommunityIdIndex == 0 || f.coinCommunityIdIndex == coinCommunityIdIndex)
    }

    predicate Meets(f: CompactFilter) {
      NaiveScan.MatchesNr(transactionNr, f) && MeetsTypeAndCoin(f) && MeetsKey(f)
    }

    function IsMatchingFilter(f: CompactFilter): (r: FilterResult)
      ensures r.use <==> Meets(f)
      ensures r.stop <==>
        MeetsTypeAndCoin(f) && IsBehind(transactionNr, f) && (f.searchDirection.ASC? ==> f.minTransactionNr <= transactionNr)
    {
      if f.transactionType != NoType && f.transactionType != transactionType then DISMISS
      else if f.coinCommunityIdIndex != 0 && coinCommunityIdIndex != f.coinCommunityIdIndex then DISMISS
      else if f.minTransactionNr != 0 && f.minTransactionNr > transactionNr then
        if f.searchDirection.DESC? then STOP else DISMISS
      else if f.maxTransactionNr != 0 && f.maxTransactionNr < transactionNr then
        if f.searchDirection.ASC? then STOP else DISMISS
      else if f.publicKeySearchType.BalanceChangingPublicKey? then
        if Changes(f.publicKeyIndex.publicKeyIndex) then USE else DISMISS
      else if f.publicKeySearchType.InvolvedPublicKey? then
        if Involves(f.publicKeyIndex.publicKeyIndex) then USE else DISMISS
      else USE
    }
  }

  /** The number lies outside the bounds of the filter on the side where the search is going. */
  predicate IsBehind(nr: nat, f: CompactFilter) {
    if f.searchDirection.ASC? then f.maxTransactionNr != 0 && f.maxTransactionNr < nr
    else f.minTransactionNr != 0 && nr < f.minTransactionNr
  }

  function Judge(f: CompactFilter): FilterFunction<Entry, nat> {
    (e: Entry) => (e.IsMatchingFilter(f), e.transactionNr)
  }

  /** The numbers of the entries a filter picks, in their order. */
  ghost function Picks(entries: seq<Entry>, f: CompactFilter): seq<nat> {
    Used(entries, Judge(f))
  }

  /** An entry in the list of balance changes of one key. */
  datatype BalanceEntry = BalanceEntry(transactionType: TransactionType, confirmed: YearMonth, coinCommunityIdIndex: nat,
                                       transactionNr: nat)
  {
    /** The months restrict nothing when one of them is missing. */
    predicate InMonths(startYM: YearMonth, endYM: YearMonth) {
      startYM.year == 0 || startYM.month == 0 || endYM.year == 0 || endYM.month == 0 ||
      (!confirmed.Less(startYM) && !endYM.Less(confirmed))
    }

    predicate Meets(f: CompactFilter, startYM: YearMonth, endYM: YearMonth) {
      && NaiveScan.MatchesNr(transactionNr, f) && NaiveScan.MatchesType(transactionType, f)
      && (f.coinCommunityIdIndex == 0 || f.coinCommunityIdIndex == coinCommunityIdIndex)
      && InMonths(startYM, endYM)
    }

    predicate IsBehindMonths(f: CompactFilter, startYM: YearMonth, endYM: YearMonth) {
      startYM.year != 0 && startYM.month != 0 && endYM.year != 0 && endYM.month != 0 &&
      if f.searchDirection.ASC? then endYM.Less(confirmed) else confirmed.Less(startYM)
    }

    function IsMatchingFilter(f: CompactFilter, startYM: YearMonth, endYM: YearMonth): (r: FilterResult)
      ensures r.use <==> Meets(f, startYM, endYM)
      ensures InMonths(startYM, endYM) ==>
        (r.stop <==>
         && NaiveScan.MatchesType(transactionType, f)
         && (f.coinCommunityIdIndex == 0 || f.coinCommunityIdIndex == coinCommunityIdIndex) && IsBehind(transactionNr, f)
         && (f.searchDirection.DESC? && f.maxTransactionNr != 0 ==> transactionNr <= f.maxTransactionNr))
      ensures !InMonths(startYM, endYM) ==>
        (r.stop <==>
         && NaiveScan.MatchesType(transactionType, f) && IsBehindMonths(f, startYM, endYM)
         && (f.searchDirection.ASC? ==> !confirmed.Less(startYM)))
    {
      var restricted := startYM.year != 0 && startYM.month != 0 && endYM.year != 0 && endYM.month != 0;
      if f.transactionType != NoType && f.transactionType != transactionType then DISMISS
      else if restricted && confirmed.Less(startYM) then if f.searchDirection.DESC? then STOP else DISMISS
      else if restricted && endYM.Less(confirmed) then if f.searchDirection.ASC? then STOP else DISMISS
      else if f.coinCommunityIdIndex != 0 && coinCommunityIdIndex != f.coinCommunityIdIndex then DISMISS
      else if f.maxTransactionNr != 0 && f.maxTransactionNr < transactionNr then
        if f.searchDirection.ASC? then STOP else DISMISS
      else if f.minTransactionNr != 0 && f.minTransactionNr > transactionNr then
        if f.searchDirection.DESC? then STOP else DISMISS
      else USE
    }
  }

  function JudgeBalance(f: CompactFilter, startYM: YearMonth, endYM: YearMonth): FilterFunction<BalanceEntry, nat> {
    (e: BalanceEntry) => (e.IsMatchingFilter(f, startYM, endYM), e.transactionNr)
  }

  // ---------- the history of an index ----------

  /** An entry with the month it was confirmed in. */
  datatype Booking = Booking(entry: Entry, ym: YearMonth) {
    function Nr(): nat { entry.transactionNr }
    function Month(): int { ym.Number() }
    function AsBalance(): BalanceEntry {
      BalanceEntry(entry.transactionType, ym, entry.coinCommunityIdIndex, entry.transactionNr)
    }
  }

  /** Numbers start at 1 or more and go up by one, months never go back. */
  ghost predicate HistoryOrder(h: seq<Booking>) {
    && (forall i :: 0 <= i < |h| ==> h[i].Nr() == h[0].Nr() + i && 1 <= h[i].Nr() && h[i].ym.Ok())
    && (forall i, j :: 0 <= i < j < |h| ==> h[i].Month() <= h[j].Month())
  }

  function Last<T>(s: seq<T>): T
    requires s != []
  {
    s[|s| - 1]
  }

  function Init<T>(s: seq<T>): seq<T>
    requires s != []
  {
    s[..|s| - 1]
  }

  lemma InitIsOrdered(h: seq<Booking>)
    requires HistoryOrder(h) && h != []
    ensures HistoryOrder(Init(h))
  {
  }

  /** The entries of the months lo to hi. */
  ghost function InMonths(h: seq<Booking>, lo: int, hi: int): seq<Entry> {
    if h == [] then []
    else InMonths(Init(h), lo, hi) + if lo <= Last(h).Month() <= hi then [Last(h).entry] else []
  }

  /** The answer to a query, unpaged and ascending, when it sees the months lo to hi. */
  ghost function Scan(h: seq<Booking>, f: CompactFilter, lo: int, hi: int): seq<nat> {
    Picks(InMonths(h, lo, hi), f)
  }

  lemma {:induction false} InMonthsHolds(h: seq<Booking>, lo: int, hi: int, e: Entry)
    ensures e in InMonths(h, lo, hi) <==> exists i :: 0 <= i < |h| && h[i].entry == e && lo <= h[i].Month() <= hi
  {
    if h != [] {
      InMonthsHolds(Init(h), lo, hi, e);
      if i :| 0 <= i < |h| && h[i].entry == e && lo <= h[i].Month() <= hi {
        assert i < |h| - 1 ==> Init(h)[i] == h[i];
      }
    }
  }

  /** Consecutive numbers. */
  ghost predicate IsRun(es: seq<Entry>) {
    forall i :: 0 <= i < |es| ==> es[i].transactionNr == es[0].transactionNr + i
  }

  /** Months next to each other hold consecutive numbers. */
  lemma {:induction false} MonthsHoldRun(h: seq<Booking>, lo: int, hi: int)
    requires HistoryOrder(h)
    ensures IsRun(InMonths(h, lo, hi))
    ensures InMonths(h, lo, hi) != [] ==> Last(InMonths(h, lo, hi)).transactionNr <= Last(h).Nr()
    ensures InMonths(h, lo, hi) != [] && Last(h).Month() <= hi ==> Last(InMonths(h, lo, hi)) == Last(h).entry
  {
    if h != [] {
      InitIsOrdered(h);
      MonthsHoldRun(Init(h), lo, hi);
      var rest := InMonths(Init(h), lo, hi);
      if rest != [] {
        var i := |h| - 2;
        assert Last(Init(h)) == h[i] && h[i].Nr() + 1 == Last(h).Nr() && h[i].Month() <= Last(h).Month();
        InMonthsHolds(Init(h), lo, hi, rest[0]);
        assert rest[0] in rest;
        var j :| 0 <= j < |Init(h)| && Init(h)[j].entry == rest[0] && lo <= Init(h)[j].Month() <= hi;
        assert Init(h)[j] == h[j] && h[j].Month() <= Last(h).Month();
      }
    }
  }

  lemma {:induction false} NoMonths(h: seq<Booking>, lo: int, hi: int)
    requires forall i :: 0 <= i < |h| ==> !(lo <= h[i].Month() <= hi)
    ensures InMonths(h, lo, hi) == []
  {
    if h != [] {
      NoMonths(Init(h), lo, hi);
    }
  }

  /** A stretch of months splits into two. */
  lemma {:induction false} SplitMonths(h: seq<Booking>, lo: int, mid: int, hi: int)
    requires HistoryOrder(h) && lo <= mid <= hi + 1
    ensures InMonths(h, lo, hi) == InMonths(h, lo, mid - 1) + InMonths(h, mid, hi)
  {
    if h != [] {
      InitIsOrdered(h);
      SplitMonths(Init(h), lo, mid, hi);
      if Last(h).Month() < mid {
        NoMonths(h, mid, hi);
      }
    }
  }

  lemma SplitScan(h: seq<Booking>, f: CompactFilter, lo: int, mid: int, hi: int)
    requires HistoryOrder(h) && lo <= mid <= hi + 1
    ensures Scan(h, f, lo, hi) == Scan(h, f, lo, mid - 1) + Scan(h, f, mid, hi)
  {
    SplitMonths(h, lo, mid, hi);
    UsedConcat(InMonths(h, lo, mid - 1), InMonths(h, mid, hi), Judge(f));
  }

  ghost predicate Wanted(b: Booking, f: CompactFilter, lo: int, hi: int) {
    b.entry.Meets(f) && lo <= b.Month() <= hi
  }

  lemma ScanOfInit(h: seq<Booking>, f: CompactFilter, lo: int, hi: int)
    requires h != []
    ensures Scan(h, f, lo, hi) == Scan(Init(h), f, lo, hi) + if Wanted(Last(h), f, lo, hi) then [Last(h).Nr()] else []
  {
    var rest, e := InMonths(Init(h), lo, hi), Last(h).entry;
    if lo <= Last(h).Month() <= hi {
      UsedConcat(rest, [e], Judge(f));
      UsedSingle(e, Judge(f));
    } else {
      assert InMonths(h, lo, hi) == rest;
    }
  }

  /** A scan lists exactly the numbers of the bookings the filter wants, in ascending order. */
  lemma {:induction false} ScanLists(h: seq<Booking>, f: CompactFilter, lo: int, hi: int)
    requires HistoryOrder(h)
    ensures forall i, j :: 0 <= i < j < |Scan(h, f, lo, hi)| ==> Scan(h, f, lo, hi)[i] < Scan(h, f, lo, hi)[j]
    ensures forall nr :: nr in Scan(h, f, lo, hi) <==> exists i :: 0 <= i < |h| && h[i].Nr() == nr && Wanted(h[i], f, lo, hi)
  {
    if h != [] {
      InitIsOrdered(h);
      ScanLists(Init(h), f, lo, hi);
      ScanOfInit(h, f, lo, hi);
      var rest, all := Scan(Init(h), f, lo, hi), Scan(h, f, lo, hi);
      forall i | 0 <= i < |rest| ensures rest[i] < Last(h).Nr() {
        assert rest[i] in rest;
        var k :| 0 <= k < |Init(h)| && Init(h)[k].Nr() == rest[i] && Wanted(Init(h)[k], f, lo, hi);
        assert h[k].Nr() == h[0].Nr() + k;
      }
      forall nr ensures nr in all <==> exists i :: 0 <= i < |h| && h[i].Nr() == nr && Wanted(h[i], f, lo, hi) {
        if i :| 0 <= i < |h| && h[i].Nr() == nr && Wanted(h[i], f, lo, hi) {
          assert i < |h| - 1 ==> Init(h)[i] == h[i];
        }
        if nr in rest {
          var k :| 0 <= k < |Init(h)| && Init(h)[k].Nr() == nr && Wanted(Init(h)[k], f, lo, hi);
          assert h[k] == Init(h)[k];
        }
      }
    }
  }

  /** Queries that want the same bookings have the same scan. */
  lemma {:induction false} SameScan(h: seq<Booking>, f: CompactFilter, lo: int, hi: int, f': CompactFilter, lo': int, hi': int)
    requires forall i :: 0 <= i < |h| ==> (Wanted(h[i], f, lo, hi) <==> Wanted(h[i], f', lo', hi'))
    ensures Scan(h, f, lo, hi) == Scan(h, f', lo', hi')
  {
    if h != [] {
      ScanOfInit(h, f, lo, hi);
      ScanOfInit(h, f', lo', hi');
      assert Wanted(h[|h|-1], f, lo, hi) <==> Wanted(h[|h|-1], f', lo', hi');
      SameScan(Init(h), f, lo, hi, f', lo', hi');
    }
  }
}
