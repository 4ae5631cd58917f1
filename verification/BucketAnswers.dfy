/** The answers of the bucket index against what is asked for. */
module BucketAnswers {
  import opened ConfirmedTx
  import opened Filters
  import opened Pages
  import opened Asked
  import opened RangeUtils
  import opened MonthEntries
  import opened BalanceHistory
  import opened BucketSearch
  import opened BucketIndex
  import opened BucketChain

  ghost function Asks(f: CompactFilter, keys: seq<RawKey>): Tx -> bool {
    (tx: Tx) => AsksFor(tx, f, keys)
  }

  ghost function Matching(f: CompactFilter, keys: seq<RawKey>): Tx -> bool {
    (tx: Tx) => MatchesTx(tx, f, keys)
  }

  /** The index has booked the chain, and what it is asked is in order. */
  ghost predicate Serves(index: TransactionsIndex, f: CompactFilter, chain: seq<Tx>, keys: seq<RawKey>)
    reads index, index.addressIndex
  {
    index.Valid() && f.Ok() && BooksAll(index.history, chain, keys)
  }

  /** The transaction is in a month the search does not see; below is the month of the last booking under the minimum. */
  ghost predicate IsHidden(tx: Tx, f: CompactFilter, misses: bool, below: int) {
    misses || (f.searchDirection.DESC? && f.minTransactionNr != 0 && ConfirmedMonth(tx).Number() <= below)
  }

  ghost function Gives(f: CompactFilter, keys: seq<RawKey>, misses: bool, below: int): Tx -> bool {
    (tx: Tx) => MatchesTx(tx, f, keys) && !IsHidden(tx, f, misses, below)
  }

  ghost function HasNumber(nr: nat): Tx -> bool { (tx: Tx) => tx.txNr == nr }

  /** What findTransactions gives, before paging. */
  ghost function Given(index: TransactionsIndex, f: CompactFilter, keys: seq<RawKey>): Tx -> bool
    reads index, index.addressIndex
  {
    if index.TakesShortcut(f) then HasNumber(index.LastChangeOfKey(f))
    else Gives(f, keys, index.MissesIndex(f), MonthBelow(index.history, f.minTransactionNr))
  }

  // ---------- the lists of the index as selections from the chain ----------

  /** The months of the filtered interval hold what a query concerns, unless the interval misses the index. */
  lemma ConcernedInIndex(index: TransactionsIndex, f: CompactFilter)
    requires index.BucketsInv() && f.Ok() && !index.MissesIndex(f) && !f.publicKeySearchType.MissingIndex?
    ensures var i := index.FilteredTimepointInterval(f);
      forall k :: 0 <= k < |index.history| ==>
        (Wanted(index.history[k], f, MonthOf(i.start).Number(), MonthOf(i.end).Number()) <==> Concerns(index.history[k], f))
  {
    hide InMonths, Used;
    index.FilteredIntervalFits(f);
    MonthsOfHistory(index.history);
  }

  lemma MatchesAreConcerned(index: TransactionsIndex, f: CompactFilter, chain: seq<Tx>, keys: seq<RawKey>)
    requires Serves(index, f, chain, keys)
    ensures HistoryOrder(index.history) && HaveDistinctNumbers(chain, TxNr) && |index.history| == |chain|
    ensures forall i :: 0 <= i < |chain| ==>
      && index.history[i].Nr() == chain[i].txNr && index.history[i].ym == ConfirmedMonth(chain[i])
      && (Concerns(index.history[i], f) <==> MatchesTx(chain[i], f, keys))
  {
    hide HistoryOrder, BucketsHold, BalancesHold, LastChangesHold, Concerns, MatchesTx, HaveDistinctNumbers;
    ChainHasNumbers(index.history, chain, keys);
    forall i | 0 <= i < |chain|
      ensures index.history[i].ym == ConfirmedMonth(chain[i])
      ensures Concerns(index.history[i], f) <==> MatchesTx(chain[i], f, keys)
    {
      BookedIsMatched(index.history[i], chain[i], f, keys);
    }
  }

  lemma NoNumbers(chain: seq<Tx>, p: Tx -> bool)
    requires forall tx :: tx in chain ==> !p(tx)
    ensures Numbers(chain, p) == []
  {
    Counted(chain, p);
    NumbersAreCounted(chain, TxNr, p);
  }

  lemma OneNumber(chain: seq<Tx>, i: nat)
    requires HaveDistinctNumbers(chain, TxNr) && i < |chain|
    ensures Numbers(chain, HasNumber(chain[i].txNr)) == [chain[i].txNr]
  {
    var p := HasNumber(chain[i].txNr);
    SplitAt(chain, TxNr, p, i);
    NoNumbers(chain[..i], p);
    NoNumbers(chain[i+1..], p);
  }

  /** The answer holds exactly the transactions given. */
  lemma AnswerIsGiven(index: TransactionsIndex, f: CompactFilter, chain: seq<Tx>, keys: seq<RawKey>)
    requires Serves(index, f, chain, keys)
    ensures index.Answer(f) == Numbers(chain, Given(index, f, keys))
  {
    hide InMonths, Used, MonthBelow, HistoryOrder, BalancesHold, LastChangesHold, BucketsHold, Scan, Numbers, MatchesTx, Concerns,
         BooksAll, HaveDistinctNumbers, LastChange;
    var h, given := index.history, Given(index, f, keys);
    MatchesAreConcerned(index, f, chain, keys);
    if f.publicKeySearchType.MissingIndex? {
      NothingMatches(f, keys);
      NoNumbers(chain, given);
    } else if index.TakesShortcut(f) {
      LastOfKey(index, f);
      LastChangeIsLast(h, f.publicKeyIndex.publicKeyIndex);
      var k :| 0 <= k < |h| && h[k].Nr() == index.LastChangeOfKey(f) && h[k].entry.Changes(f.publicKeyIndex.publicKeyIndex);
      OneNumber(chain, k);
    } else if index.MissesIndex(f) {
      NoNumbers(chain, given);
    } else {
      var i := index.FilteredTimepointInterval(f);
      var lo, hi := MonthOf(i.start).Number(), MonthOf(i.end).Number();
      ConcernedInIndex(index, f);
      ScanIsNumbers(h, chain, f, if f.searchDirection.DESC? then LowestSeen(h, f, lo) else lo, hi, given);
    }
  }

  lemma NothingMatches(f: CompactFilter, keys: seq<RawKey>)
    requires f.publicKeySearchType.MissingIndex?
    ensures forall tx :: !MatchesTx(tx, f, keys)
  {
  }

  lemma LastOfKey(index: TransactionsIndex, f: CompactFilter)
    requires index.Valid() && index.LastChangeOfKey(f) != 0
    ensures HistoryOrder(index.history)
    ensures index.LastChangeOfKey(f) == LastChange(index.history, f.publicKeyIndex.publicKeyIndex)
  {
    hide HistoryOrder, BalancesHold, BucketsHold, LastChange;
  }

  function WholeTime(f: CompactFilter): CompactFilter {
    f.(timepointInterval := TimepointInterval(EPOCH, EPOCH))
  }

  /** What a query concerns, with or without regard to its interval, are the transactions that match. */
  lemma ConcernedIsMatching(index: TransactionsIndex, f: CompactFilter, chain: seq<Tx>, keys: seq<RawKey>)
    requires Serves(index, f, chain, keys)
    ensures ByNumber(index.history, f) == Numbers(chain, Matching(f, keys))
    ensures !f.publicKeySearchType.MissingIndex? ==> AllMonths(index.history, f) == Numbers(chain, Matching(WholeTime(f), keys))
  {
    hide InMonths, Used, HistoryOrder, BalancesHold, LastChangesHold, BucketsHold, Scan, Numbers, MatchesTx, BooksAll,
         HaveDistinctNumbers;
    var h, w, p := index.history, f.timepointInterval, Matching(f, keys);
    MatchesAreConcerned(index, f, chain, keys);
    MatchesAreConcerned(index, WholeTime(f), chain, keys);
    MonthsOfHistory(h);
    if f.publicKeySearchType.MissingIndex? {
      NothingMatches(f, keys);
      NoNumbers(chain, p);
    } else {
      ScanIsNumbers(h, chain, f, FirstMonth(h), LastMonth(h), Matching(WholeTime(f), keys));
      if w.IsEmpty() {
        ScanIsNumbers(h, chain, f, FirstMonth(h), LastMonth(h), p);
      } else {
        ScanIsNumbers(h, chain, f, MonthOf(w.start).Number(), MonthOf(w.end).Number(), p);
      }
    }
  }

  // ---------- findTransactions ----------

  /** The page is the one asked for exactly under the condition of PageIsRight. */
  lemma FindTransactionsIsAsked(index: TransactionsIndex, f: CompactFilter, chain: seq<Tx>, keys: seq<RawKey>)
    requires Serves(index, f, chain, keys)
    ensures
      Page(Directed(f.searchDirection, index.Answer(f)), f.pagination.SkipEntriesCount(), f.pagination.size)
      == AskedPage(chain, Asks(f, keys), f)
      <==> PageIsRight(InOrder(chain, f), Given(index, f, keys), Asks(f, keys), f.pagination.SkipEntriesCount(),
                       f.pagination.EntriesBefore(), f.pagination.size)
  {
    hide PageIsRight, TransactionsIndex.Answer, Given, Page;
    AnswerIsGiven(index, f, chain, keys);
    MatchesAreConcerned(index, f, chain, keys);
    GivenIsAsked(chain, Given(index, f, keys), Asks(f, keys), f);
  }

  /**
   The departures: a transaction is extra if it is mistaken, and lost if it is asked for in a month the
   search does not see. The shortcut has its number alone.
   */
  lemma ExtraAndLost(index: TransactionsIndex, f: CompactFilter, keys: seq<RawKey>, tx: Tx)
    ensures var extra, lost := Extra(Given(index, f, keys), Asks(f, keys)), Lost(Given(index, f, keys), Asks(f, keys));
      var hidden := IsHidden(tx, f, index.MissesIndex(f), MonthBelow(index.history, f.minTransactionNr));
      if index.TakesShortcut(f) then
        && (extra(tx) <==> tx.txNr == index.LastChangeOfKey(f) && !AsksFor(tx, f, keys))
        && (lost(tx) <==> AsksFor(tx, f, keys) && tx.txNr != index.LastChangeOfKey(f))
      else
        && (extra(tx) <==> MatchesTx(tx, f, keys) && IsMistaken(tx, f, keys) && !hidden)
        && (lost(tx) <==> AsksFor(tx, f, keys) && hidden)
  {
    hide AsksFor, MatchesTx, IsMistaken, IsHidden, TransactionsIndex.TakesShortcut, TransactionsIndex.MissesIndex;
    AskedIsMatched(tx, f, keys);
  }

  /** Some transaction is asked for, but in a month the search does not see. */
  ghost predicate Overlooks(index: TransactionsIndex, f: CompactFilter, chain: seq<Tx>, keys: seq<RawKey>)
    reads index
  {
    exists tx :: tx in chain && AsksFor(tx, f, keys) &&
      IsHidden(tx, f, index.MissesIndex(f), MonthBelow(index.history, f.minTransactionNr))
  }

  /** If nothing is overlooked, the page is right exactly if no mistaken transaction comes up before its end. */
  lemma RightIfNothingOverlooked(index: TransactionsIndex, f: CompactFilter, chain: seq<Tx>, keys: seq<RawKey>)
    requires Serves(index, f, chain, keys) && !index.TakesShortcut(f) && !Overlooks(index, f, chain, keys)
    requires f.pagination.EntriesBefore() < UINT32_RANGE
    ensures
      Page(Directed(f.searchDirection, index.Answer(f)), f.pagination.SkipEntriesCount(), f.pagination.size)
      == AskedPage(chain, Asks(f, keys), f)
      <==>
      || |index.Answer(f)| <= f.pagination.EntriesBefore()
      || NoExtraBeforeEnd(InOrder(chain, f), Given(index, f, keys), Asks(f, keys), f.pagination.EntriesBefore(),
                          f.pagination.size)
  {
    hide TransactionsIndex.Answer, Page, NoExtraBeforeEnd, AsksFor, MatchesTx, Given, IsHidden, TransactionsIndex.TakesShortcut,
         TransactionsIndex.MissesIndex;
    AnswerIsGiven(index, f, chain, keys);
    MatchesAreConcerned(index, f, chain, keys);
    forall tx | tx in chain && Asks(f, keys)(tx) ensures Given(index, f, keys)(tx) {
      ExtraAndLost(index, f, keys, tx);
    }
    RightWithExtras(chain, Given(index, f, keys), Asks(f, keys), f);
  }

  // ---------- the shortcut ----------

  lemma LastOne(s: seq<nat>, last: nat)
    requires forall i, j :: 0 <= i < j < |s| ==> s[i] < s[j]
    requires forall x :: x in s ==> x <= last
    ensures Page(Reverse(s), 0, 1) == [last] <==> last in s
  {
    if s != [] {
      assert s[|s|-1] in s && Reverse(s)[0] == s[|s|-1];
      assert Page(Reverse(s), 0, 1) == [s[|s|-1]];
    }
  }

  lemma {:induction false} NumbersAscend(chain: seq<Tx>, p: Tx -> bool)
    requires forall i, j :: 0 <= i < j < |chain| ==> chain[i].txNr < chain[j].txNr
    ensures forall i, j :: 0 <= i < j < |Numbers(chain, p)| ==> Numbers(chain, p)[i] < Numbers(chain, p)[j]
  {
    if chain != [] {
      var init := chain[..|chain|-1];
      NumbersAscend(init, p);
      var rest := Numbers(init, p);
      forall i | 0 <= i < |rest| ensures rest[i] < chain[|chain|-1].txNr {
        NumbersHold(init, TxNr, p, rest[i]);
      }
    }
  }

  /** No transaction asked for lies above the last change of the key. */
  lemma LastIsHighest(index: TransactionsIndex, f: CompactFilter, chain: seq<Tx>, keys: seq<RawKey>)
    requires Serves(index, f, chain, keys) && index.TakesShortcut(f)
    ensures forall i :: 0 <= i < |chain| && AsksFor(chain[i], f, keys) ==> chain[i].txNr <= index.LastChangeOfKey(f)
    ensures forall i, j :: 0 <= i < j < |chain| ==> chain[i].txNr < chain[j].txNr
  {
    hide Books, BucketsHold, BalancesHold, LastChangesHold, LastChange, AsksFor, MatchesTx;
    var h := index.history;
    MatchesAreConcerned(index, f, chain, keys);
    LastOfKey(index, f);
    LastChangeIsLast(h, f.publicKeyIndex.publicKeyIndex);
    forall i | 0 <= i < |chain| && AsksFor(chain[i], f, keys) ensures chain[i].txNr <= index.LastChangeOfKey(f) {
      AskedIsMatched(chain[i], f, keys);
      assert h[i].entry.Changes(f.publicKeyIndex.publicKeyIndex);
    }
    forall i, j | 0 <= i < j < |chain| ensures chain[i].txNr < chain[j].txNr {
      assert h[i].Nr() == h[0].Nr() + i && h[j].Nr() == h[0].Nr() + j;
    }
  }

  /** The shortcut is right exactly if the last change is asked for: by its type, and for the key of its community. */
  lemma ShortcutIsAsked(index: TransactionsIndex, f: CompactFilter, chain: seq<Tx>, keys: seq<RawKey>)
    requires Serves(index, f, chain, keys) && index.TakesShortcut(f)
    ensures
      Page(Directed(f.searchDirection, index.Answer(f)), f.pagination.SkipEntriesCount(), f.pagination.size)
      == AskedPage(chain, Asks(f, keys), f)
      <==> exists i :: 0 <= i < |chain| && chain[i].txNr == index.LastChangeOfKey(f) && AsksFor(chain[i], f, keys)
  {
    var last, asked := index.LastChangeOfKey(f), Numbers(chain, Asks(f, keys));
    assert f.pagination.EntriesBefore() == f.pagination.SkipEntriesCount() == 0 && f.pagination.size == 1;
    assert index.Answer(f) == [last] && f.searchDirection.DESC?;
    hide TransactionsIndex.Answer, TransactionsIndex.LastChangeOfKey, TransactionsIndex.Valid, BooksAll, Page, AsksFor;
    LastIsHighest(index, f, chain, keys);
    NumbersAscend(chain, Asks(f, keys));
    forall x ensures x in asked <==> exists i :: 0 <= i < |chain| && chain[i].txNr == x && AsksFor(chain[i], f, keys) {
      NumbersHold(chain, TxNr, Asks(f, keys), x);
    }
    OnePage(last, f.pagination);
    LastOne(asked, last);
  }

  // ---------- counts and balance lists ----------

  ghost predicate InInterval(tx: Tx, f: CompactFilter) {
    f.timepointInterval.IsEmpty() || InWholeMonths(tx.confirmedAt, f.timepointInterval)
  }

  /** What is extra where the interval counts, or does not. */
  lemma ExtraInList(f: CompactFilter, searched: CompactFilter, keys: seq<RawKey>, tx: Tx)
    requires searched == f || searched == WholeTime(f)
    ensures AsksFor(tx, f, keys) ==> MatchesTx(tx, searched, keys)
    ensures MatchesTx(tx, searched, keys) ==>
      (!AsksFor(tx, f, keys) <==> IsMistaken(tx, f, keys) || (searched != f && !InInterval(tx, f)))
  {
    AskedIsMatched(tx, f, keys);
    hide AsksKey, TakesNumber, IsMistaken;
    assert MatchesTx(tx, WholeTime(f), keys) && InInterval(tx, f) <==> MatchesTx(tx, f, keys);
  }

  ghost function CountedAs(index: TransactionsIndex, f: CompactFilter): CompactFilter
    reads index
  {
    if index.CountsAll(f) && !f.publicKeySearchType.MissingIndex? then WholeTime(f) else f
  }

  /** The counts are right exactly if no counted transaction is mistaken or outside the interval. */
  lemma CountIsAsked(index: TransactionsIndex, f: CompactFilter, chain: seq<Tx>, keys: seq<RawKey>)
    requires Serves(index, f, chain, keys)
    ensures
      var h, counted := index.history, CountedAs(index, f);
      |if index.CountsAll(f) && !f.publicKeySearchType.MissingIndex? then AllMonths(h, f) else ByNumber(h, f)|
      == |Numbers(chain, Asks(f, keys))|
      <==> forall tx :: tx in chain && MatchesTx(tx, counted, keys) ==>
        !IsMistaken(tx, f, keys) && (counted == f || InInterval(tx, f))
  {
    hide AsksFor, MatchesTx, IsMistaken, InInterval, Numbers, TransactionsIndex.CountsAll, BooksAll, TransactionsIndex.Valid;
    var counted := CountedAs(index, f);
    var given, asked := Matching(counted, keys), Asks(f, keys);
    ConcernedIsMatching(index, f, chain, keys);
    MatchesAreConcerned(index, f, chain, keys);
    ListsAgree(chain, given, asked);
    forall tx: Tx {
      ExtraInList(f, counted, keys, tx);
    }
    Counted(chain, Extra(given, asked));
    Counted(chain, Lost(given, asked));
  }

  ghost function SearchedAs(index: TransactionsIndex, f: CompactFilter): CompactFilter
    reads index
  {
    if index.BalanceSeesAll(f) then WholeTime(f) else f
  }

  /**
   The page from a balance list is the one asked for exactly under the condition of PageIsRight; where the
   skip count does not wrap, exactly if no extra transaction comes up before its end. Extra are those that
   are mistaken or outside an interval that does not count.
   */
  lemma BalanceSearchIsAsked(index: TransactionsIndex, f: CompactFilter, chain: seq<Tx>, keys: seq<RawKey>)
    requires Serves(index, f, chain, keys) && f.publicKeySearchType.BalanceChangingPublicKey?
    ensures
      var h, p, order := index.history, f.pagination, InOrder(chain, f);
      var found := if index.BalanceSeesAll(f) then AllMonths(h, f) else ByNumber(h, f);
      var given, asked := Matching(SearchedAs(index, f), keys), Asks(f, keys);
      var right := Page(Directed(f.searchDirection, found), p.SkipEntriesCount(), p.size) == AskedPage(chain, asked, f);
      && (right <==> PageIsRight(order, given, asked, p.SkipEntriesCount(), p.EntriesBefore(), p.size))
      && (p.EntriesBefore() < UINT32_RANGE ==>
           (right <==> |found| <= p.EntriesBefore() || NoExtraBeforeEnd(order, given, asked, p.EntriesBefore(), p.size)))
  {
    hide AsksFor, MatchesTx, Numbers, TransactionsIndex.BalanceSeesAll, BooksAll, TransactionsIndex.Valid, PageIsRight,
         NoExtraBeforeEnd, Page, AllMonths, ByNumber;
    var given, asked := Matching(SearchedAs(index, f), keys), Asks(f, keys);
    ConcernedIsMatching(index, f, chain, keys);
    MatchesAreConcerned(index, f, chain, keys);
    GivenIsAsked(chain, given, asked, f);
    forall tx | tx in chain && asked(tx) ensures given(tx) {
      ExtraInList(f, SearchedAs(index, f), keys, tx);
    }
    if f.pagination.EntriesBefore() < UINT32_RANGE {
      RightWithExtras(chain, given, asked, f);
    }
  }
}
