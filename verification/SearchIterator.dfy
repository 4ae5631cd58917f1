/** The iterator for a search that the caller controls. */
module SearchIterator {
  import opened Wrappers
  import opened ConfirmedTx
  import opened Filters
  import opened RangeUtils
  import opened MonthEntries
  import opened BalanceHistory
  import opened BucketSearch
  import opened BucketIndex
  import opened BucketChain
  import opened BucketAnswers
  import opened Asked
  import opened Pages

  /** Month positions are 8 bits and entry positions 32 bits wide. */
  const MONTH_POSITIONS: nat := 0x100
  const NO_ENTRY: nat := 0xFFFF_FFFF

  /** What an ascending walk standing on an entry has still to visit, up to month max. */
  ghost function Above(h: seq<Booking>, f: CompactFilter, base: int, buckets: seq<seq<Entry>>, month: nat, entry: nat, max: nat): seq<nat>
    requires month < |buckets| && entry < |buckets[month]|
  {
    Picks(buckets[month][entry+1..], f) + Scan(h, f, base + month + 1, base + max)
  }

  /** What a descending walk has still to visit below position entry, down to month min; in ascending order. */
  ghost function Below(h: seq<Booking>, f: CompactFilter, base: int, buckets: seq<seq<Entry>>, month: nat, entry: nat, min: nat): seq<nat>
    requires month < |buckets| && entry <= |buckets[month]|
  {
    Scan(h, f, base + min, base + month - 1) + Picks(buckets[month][..entry], f)
  }

  /** One entry further up in the same bucket. */
  lemma AboveNextEntry(h: seq<Booking>, f: CompactFilter, base: int, buckets: seq<seq<Entry>>, month: nat, entry: nat, max: nat)
    requires month < |buckets| && entry + 1 < |buckets[month]|
    ensures Above(h, f, base, buckets, month, entry, max) ==
            UsedOne(buckets[month][entry+1], Judge(f)) + Above(h, f, base, buckets, month, entry + 1, max)
  {
    hide InMonths, Scan;
    var b := buckets[month];
    assert b[entry+1..][1..] == b[entry+2..];
    Associative(UsedOne(b[entry+1], Judge(f)), Picks(b[entry+2..], f), Scan(h, f, base + month + 1, base + max));
  }

  /** The first entry of a later month, with nothing in between. */
  lemma AboveNextMonth(h: seq<Booking>, f: CompactFilter, base: int, buckets: seq<seq<Entry>>, month: nat, next: nat, max: nat)
    requires HistoryOrder(h) && BucketsHold(h, base, buckets) && month < next <= max < |buckets|
    requires buckets[month] != [] && buckets[next] != [] && forall i :: month < i < next ==> buckets[i] == []
    ensures Above(h, f, base, buckets, month, |buckets[month]| - 1, max) ==
            UsedOne(buckets[next][0], Judge(f)) + Above(h, f, base, buckets, next, 0, max)
  {
    hide InMonths, HistoryOrder;
    var b := buckets[next];
    assert buckets[month][|buckets[month]|..] == [];
    SkipHoles(h, f, base, buckets, month + 1, next);
    SplitScan(h, f, base + month + 1, base + next, base + max);
    SplitScan(h, f, base + next, base + next + 1, base + max);
    assert Scan(h, f, base + next, base + next) == UsedOne(b[0], Judge(f)) + Picks(b[1..], f);
    Associative(UsedOne(b[0], Judge(f)), Picks(b[1..], f), Scan(h, f, base + next + 1, base + max));
  }

  /** Empty buckets hold nothing for any query. */
  lemma {:induction false} SkipHoles(h: seq<Booking>, f: CompactFilter, base: int, buckets: seq<seq<Entry>>, a: nat, b: nat)
    requires HistoryOrder(h) && BucketsHold(h, base, buckets) && a <= b <= |buckets|
    requires forall i :: a <= i < b ==> buckets[i] == []
    ensures Scan(h, f, base + a, base + b - 1) == []
    decreases b - a
  {
    hide InMonths, HistoryOrder;
    if a == b {
      EmptyScan(h, f, base + a, base + b - 1);
    } else {
      SkipHoles(h, f, base, buckets, a, b - 1);
      SplitScan(h, f, base + a, base + b - 1, base + b - 1);
      assert buckets[b-1] == InMonths(h, base + (b - 1), base + (b - 1));
    }
  }

  /** Behind an entry above the maximum of the filter there is nothing to visit. */
  lemma NothingAboveEntry(h: seq<Booking>, f: CompactFilter, base: int, buckets: seq<seq<Entry>>, month: nat, entry: nat, max: nat)
    requires HistoryOrder(h) && BucketsHold(h, base, buckets) && month < |buckets| && entry < |buckets[month]|
    requires f.maxTransactionNr != 0 && f.maxTransactionNr < buckets[month][entry].transactionNr
    ensures Above(h, f, base, buckets, month, entry, max) == []
  {
    hide InMonths, HistoryOrder, Scan, Used;
    var b := buckets[month];
    MonthsHoldRun(h, base + month, base + month);
    NothingAbove(h, f, base + month, base + max);
    assert b[entry] in b;
    var behind := b[entry+1..];
    forall i | 0 <= i < |behind| ensures !Judge(f)(behind[i]).0.use {
      assert behind[i] == b[entry + 1 + i];
    }
    NothingUsed(behind, Judge(f));
  }

  /** Below an entry under the minimum of the filter there is nothing to visit. */
  lemma NothingBelowEntry(h: seq<Booking>, f: CompactFilter, base: int, buckets: seq<seq<Entry>>, month: nat, entry: nat, min: nat)
    requires HistoryOrder(h) && BucketsHold(h, base, buckets) && month < |buckets| && entry < |buckets[month]|
    requires f.minTransactionNr != 0 && buckets[month][entry].transactionNr < f.minTransactionNr
    ensures Scan(h, f, base + min, base + month - 1) == [] && Picks(buckets[month][..entry+1], f) == []
  {
    hide InMonths, Scan, Used;
    var b, m := buckets[month], base + month;
    MonthsHoldRun(h, m, m);
    NothingUsed(b[..entry+1], Judge(f));
    assert b[entry] in b;
    InMonthsHolds(h, m, m, b[entry]);
    var i :| 0 <= i < |h| && h[i].entry == b[entry] && m <= h[i].Month() <= m;
    forall j | 0 <= j < |h| ensures !Wanted(h[j], f, base + min, m - 1) {
      assert h[j].Nr() == h[0].Nr() + j && h[i].Nr() == h[0].Nr() + i;
    }
    NothingWanted(h, f, base + min, m - 1);
  }

  /** The last entry of an earlier month, with nothing in between. */
  lemma BelowPreviousMonth(h: seq<Booking>, f: CompactFilter, base: int, buckets: seq<seq<Entry>>, month: nat, previous: nat, min: nat)
    requires HistoryOrder(h) && BucketsHold(h, base, buckets) && min <= previous < month < |buckets|
    requires forall i :: previous < i < month ==> buckets[i] == []
    ensures Below(h, f, base, buckets, month, 0, min) == Below(h, f, base, buckets, previous, |buckets[previous]|, min)
  {
    hide InMonths, HistoryOrder;
    var b := buckets[previous];
    assert b[..|b|] == b;
    SkipHoles(h, f, base, buckets, previous + 1, month);
    SplitScan(h, f, base + min, base + previous + 1, base + month - 1);
    SplitScan(h, f, base + min, base + previous, base + previous);
  }

  /** One entry further down in the same bucket. */
  lemma BelowNextEntry(h: seq<Booking>, f: CompactFilter, base: int, buckets: seq<seq<Entry>>, month: nat, entry: nat, min: nat)
    requires month < |buckets| && entry < |buckets[month]|
    ensures Below(h, f, base, buckets, month, entry + 1, min) ==
            Below(h, f, base, buckets, month, entry, min) + UsedOne(buckets[month][entry], Judge(f))
  {
    hide InMonths, Scan;
    var b := buckets[month];
    assert b[..entry+1] == b[..entry] + [b[entry]];
    UsedConcat(b[..entry], [b[entry]], Judge(f));
    UsedSingle(b[entry], Judge(f));
    Associative(Scan(h, f, base + min, base + month - 1), Picks(b[..entry], f), UsedOne(b[entry], Judge(f)));
  }

  /** The interval lies inside the index, the months have positions of eight bits, and neither end is the epoch instant. */
  ghost predicate FitsPositions(index: TransactionsIndex, interval: TimepointInterval)
    reads index
  {
    && index.InsideIndex(interval) && interval.start != EPOCH && interval.end != EPOCH
    && index.maxYearMonth.Number() - index.minYearMonth.Number() < MONTH_POSITIONS
  }

  lemma MonthsHavePositions(index: TransactionsIndex, interval: TimepointInterval)
    requires index.BucketsInv() && index.history != [] && FitsPositions(index, interval)
    ensures
      var lo, hi := index.YearMonthToIndex(AsYearMonth(interval.start)), index.YearMonthToIndex(AsYearMonth(interval.end));
      && lo == Success(MonthOf(interval.start).Number() - index.minYearMonth.Number())
      && hi == Success(MonthOf(interval.end).Number() - index.minYearMonth.Number())
      && lo.value <= hi.value < |index.yearMonthEntries|
  {
    hide InMonths;
    index.BucketOfMonth(AsYearMonth(interval.start));
    index.BucketOfMonth(AsYearMonth(interval.end));
    assert index.history[0].ym.Ok() && index.history[|index.history|-1].ym.Ok();
  }

  class SearchIterator {
    const parent: TransactionsIndex
    const filter: CompactFilter
    const minMonthYearIndex: nat
    const maxMonthYearIndex: nat
    var txNr: nat
    var entryIndex: nat
    var monthYearIndex: nat
    var stopped: bool

    /** An iterator that is stopped from the start. */
    constructor Stopped(parent: TransactionsIndex, filter: CompactFilter, txNr: nat)
      requires parent.BucketsInv()
      ensures Valid() && this.parent == parent && stopped
    {
      this.parent, this.filter, this.txNr := parent, filter, txNr;
      minMonthYearIndex, maxMonthYearIndex, entryIndex, monthYearIndex, stopped := 0, 0, 0, |parent.yearMonthEntries|, true;
    }

    constructor (parent: TransactionsIndex, filter: CompactFilter, entryIndex: nat, monthYearIndex: nat)
      requires parent.BucketsInv() && parent.history != [] && FitsPositions(parent, filter.timepointInterval)
      requires monthYearIndex < |parent.yearMonthEntries|
      ensures Valid() && this.parent == parent && this.filter == filter
      ensures minMonthYearIndex == MonthOf(filter.timepointInterval.start).Number() - parent.minYearMonth.Number()
      ensures maxMonthYearIndex == MonthOf(filter.timepointInterval.end).Number() - parent.minYearMonth.Number()
      ensures Walk() ==
        if !(minMonthYearIndex <= monthYearIndex <= maxMonthYearIndex) || entryIndex >= |parent.yearMonthEntries[monthYearIndex]|
        then [] else From(monthYearIndex, entryIndex)
    {
      hide Follows, Above, Below, Reverse, UsedOne, FitsPositions;
      MonthsHavePositions(parent, filter.timepointInterval);
      this.parent, this.filter, this.entryIndex, this.monthYearIndex := parent, filter, entryIndex, monthYearIndex;
      maxMonthYearIndex := parent.YearMonthToIndex(AsYearMonth(filter.timepointInterval.end)).value;
      minMonthYearIndex := parent.YearMonthToIndex(AsYearMonth(filter.timepointInterval.start)).value;
      txNr, stopped := 0, false;
      new;
      if monthYearIndex < minMonthYearIndex || monthYearIndex > maxMonthYearIndex {
        stopped := true;
      }
      txNr := GetCurrentOrNext();
    }

    ghost function Base(): int
      reads parent
    {
      parent.minYearMonth.Number()
    }

    ghost predicate Valid()
      reads this, parent
    {
      && parent.BucketsInv() && maxMonthYearIndex < |parent.yearMonthEntries|
      && (!stopped ==>
        && minMonthYearIndex <= monthYearIndex <= maxMonthYearIndex
        && entryIndex < |parent.yearMonthEntries[monthYearIndex]|)
    }

    /** What is still to come behind the current position, in the order of the walk. */
    ghost function Remaining(): seq<nat>
      requires Valid()
      reads this, parent
    {
      if stopped then []
      else if filter.searchDirection.ASC? then
        Above(parent.history, filter, Base(), parent.yearMonthEntries, monthYearIndex, entryIndex, maxMonthYearIndex)
      else
        Reverse(Below(parent.history, filter, Base(), parent.yearMonthEntries, monthYearIndex, entryIndex, minMonthYearIndex))
    }

    /** The number of the current entry if the filter uses it, else 0. */
    method FilterCurrentEntry() returns (nr: nat)
      requires Valid() && !stopped
      modifies `stopped
      ensures Valid()
      ensures var e := parent.yearMonthEntries[monthYearIndex][entryIndex];
        && UsedOne(e, Judge(filter)) == (if nr == 0 then [] else [nr])
        && (stopped ==> IsBehind(e.transactionNr, filter) && nr == 0)
    {
      var entry := parent.yearMonthEntries[monthYearIndex][entryIndex];
      EntriesHaveNumbers(parent, monthYearIndex, entryIndex);
      var filterResult := entry.IsMatchingFilter(filter);
      if filterResult.stop {
        stopped := true;
      }
      nr := if filterResult.use then entry.transactionNr else 0;
    }

    /** To the first entry of the next month that has one, if there is one up to the last month. */
    method NextMonth() returns (found: bool)
      requires Valid() && !stopped && filter.searchDirection.ASC?
      requires entryIndex + 1 == |parent.yearMonthEntries[monthYearIndex]|
      modifies `stopped, `monthYearIndex, `entryIndex
      ensures Valid() && stopped == !found
      ensures !found ==> old(Remaining()) == []
      ensures found ==>
        && monthYearIndex > old(monthYearIndex) && entryIndex == 0
        && old(Remaining()) == UsedOne(parent.yearMonthEntries[monthYearIndex][0], Judge(filter)) + Remaining()
    {
      hide InMonths, Scan, HistoryOrder;
      ghost var h, buckets, from := parent.history, parent.yearMonthEntries, monthYearIndex;
      assert buckets[from][entryIndex+1..] == [];
      if monthYearIndex == maxMonthYearIndex {
        EmptyScan(h, filter, Base() + from + 1, Base() + from);
        stopped := true;
        return false;
      }
      var next := monthYearIndex + 1;
      while parent.yearMonthEntries[next] == []
        invariant from < next <= maxMonthYearIndex && forall i :: from < i < next ==> buckets[i] == []
        decreases maxMonthYearIndex - next
      {
        if next == maxMonthYearIndex {
          SkipHoles(h, filter, Base(), buckets, from + 1, next + 1);
          monthYearIndex, stopped := next, true;
          return false;
        }
        next := next + 1;
      }
      AboveNextMonth(h, filter, Base(), buckets, from, next, maxMonthYearIndex);
      monthYearIndex, entryIndex := next, 0;
      return true;
    }

    /** The ascending branch of advance. */
    method AdvanceAscending() returns (nr: nat)
      requires Valid() && !stopped && filter.searchDirection.ASC?
      modifies `stopped, `monthYearIndex, `entryIndex
      ensures Valid()
      ensures nr == 0 ==> stopped && old(Remaining()) == []
      ensures nr != 0 ==> !stopped && old(Remaining()) == [nr] + Remaining()
    {
      hide InMonths, Scan, HistoryOrder, Above, BucketsHold, BoundsHold, Used, UsedOne;
      ghost var all := Remaining();
      nr := 0;
      while true
        invariant Valid() && !stopped && Remaining() == all
        decreases maxMonthYearIndex - monthYearIndex, |parent.yearMonthEntries[monthYearIndex]| - entryIndex
      {
        var bucketSize := |parent.yearMonthEntries[monthYearIndex]|;
        if bucketSize - 1 <= entryIndex {
          var found := NextMonth();
          if !found {
            return 0;
          }
        } else {
          AboveNextEntry(parent.history, filter, Base(), parent.yearMonthEntries, monthYearIndex, entryIndex, maxMonthYearIndex);
          entryIndex := entryIndex + 1;
        }
        ghost var rest := Remaining();
        nr := FilterCurrentEntry();
        if nr != 0 {
          return;
        }
        assert [] + rest == rest;
        if stopped {
          NothingAboveEntry(parent.history, filter, Base(), parent.yearMonthEntries, monthYearIndex, entryIndex, maxMonthYearIndex);
          return;
        }
      }
    }

    /** The entry at i is the first one below position count that the filter uses. */
    ghost predicate IsHit(b: seq<Entry>, count: nat, i: nat, nr: nat) {
      i < count <= |b| && b[i].transactionNr == nr && Picks(b[..count], filter) == Picks(b[..i], filter) + [nr]
    }

    /** From position `count` of the current bucket downwards to the first entry the filter uses. */
    method FindNextInRange(count: nat) returns (nr: nat)
      requires parent.BucketsInv() && maxMonthYearIndex < |parent.yearMonthEntries|
      requires minMonthYearIndex <= monthYearIndex <= maxMonthYearIndex
      requires !stopped && filter.searchDirection.DESC? && count <= |parent.yearMonthEntries[monthYearIndex]|
      modifies `stopped
      ensures var b := parent.yearMonthEntries[monthYearIndex];
        && (nr == 0 ==> Picks(b[..count], filter) == [])
        && (nr != 0 ==> !stopped && exists i :: IsHit(b, count, i, nr))
        && (stopped ==> Scan(parent.history, filter, Base() + minMonthYearIndex, Base() + monthYearIndex - 1) == [])
    {
      hide InMonths, Scan, Used, HistoryOrder, BoundsHold;
      ghost var h, buckets := parent.history, parent.yearMonthEntries;
      var bucket := parent.yearMonthEntries[monthYearIndex];
      nr := 0;
      var i := count;
      while i > 0
        invariant 0 <= i <= count && !stopped
        invariant Picks(bucket[..count], filter) == Picks(bucket[..i], filter)
      {
        i := i - 1;
        EntriesHaveNumbers(parent, monthYearIndex, i);
        PicksInit(bucket, i, filter);
        var filterResult := bucket[i].IsMatchingFilter(filter);
        if filterResult.stop {
          stopped := true;
        }
        if filterResult.use {
          assert IsHit(bucket, count, i, bucket[i].transactionNr);
          return bucket[i].transactionNr;
        }
        if stopped {
          NothingBelowEntry(h, filter, Base(), buckets, monthYearIndex, i, minMonthYearIndex);
          return 0;
        }
      }
      NothingUsed(bucket[..0], Judge(filter));
    }

    /** To the bucket before the current one that has entries, down to the first month. */
    method PreviousMonth() returns (found: bool)
      requires Valid() && !stopped && filter.searchDirection.DESC? && entryIndex == 0
      modifies `stopped, `monthYearIndex, `entryIndex
      ensures !found ==> stopped && Valid() && old(Remaining()) == []
      ensures found ==>
        && !stopped && minMonthYearIndex <= monthYearIndex < old(monthYearIndex)
        && entryIndex == |parent.yearMonthEntries[monthYearIndex]| > 0
        && old(Remaining()) == BelowCurrent()
    {
      hide InMonths, Scan, HistoryOrder;
      ghost var h, buckets, from := parent.history, parent.yearMonthEntries, monthYearIndex;
      assert buckets[from][..0] == [];
      if monthYearIndex == minMonthYearIndex {
        EmptyScan(h, filter, Base() + from, Base() + from - 1);
        stopped := true;
        return false;
      }
      var previous := monthYearIndex - 1;
      while parent.yearMonthEntries[previous] == []
        invariant minMonthYearIndex <= previous < from && forall i :: previous < i < from ==> buckets[i] == []
        decreases previous
      {
        if previous == minMonthYearIndex {
          SkipHoles(h, filter, Base(), buckets, previous, from);
          monthYearIndex, stopped := previous, true;
          return false;
        }
        previous := previous - 1;
      }
      BelowPreviousMonth(h, filter, Base(), buckets, from, previous, minMonthYearIndex);
      monthYearIndex, entryIndex := previous, |parent.yearMonthEntries[previous]|;
      return true;
    }

    ghost function BelowCurrent(): seq<nat>
      requires monthYearIndex < |parent.yearMonthEntries| && entryIndex <= |parent.yearMonthEntries[monthYearIndex]|
      reads this, parent
    {
      Reverse(Below(parent.history, filter, Base(), parent.yearMonthEntries, monthYearIndex, entryIndex, minMonthYearIndex))
    }

    /** The current bucket below the current position; the position of a hit follows from its number. */
    method SearchDownwards() returns (nr: nat)
      requires parent.BucketsInv() && maxMonthYearIndex < |parent.yearMonthEntries|
      requires minMonthYearIndex <= monthYearIndex <= maxMonthYearIndex
      requires !stopped && filter.searchDirection.DESC? && 0 < entryIndex <= |parent.yearMonthEntries[monthYearIndex]|
      modifies `stopped, `entryIndex
      ensures Valid() && (nr == 0 ==> entryIndex == 0)
      ensures nr != 0 ==> !stopped && old(BelowCurrent()) == [nr] + Remaining()
      ensures nr == 0 ==> old(BelowCurrent()) == Remaining()
    {
      hide InMonths, Scan, HistoryOrder, Below, BucketsHold, BoundsHold, Used, UsedOne;
      ghost var h, buckets := parent.history, parent.yearMonthEntries;
      var bucket := parent.yearMonthEntries[monthYearIndex];
      nr := FindNextInRange(entryIndex);
      if nr != 0 {
        ghost var i :| IsHit(bucket, entryIndex, i, nr);
        DescendingHit(h, filter, Base(), buckets, monthYearIndex, entryIndex, minMonthYearIndex, i, nr);
        entryIndex := nr - bucket[0].transactionNr;
      } else {
        DescendingMiss(h, filter, Base(), buckets, monthYearIndex, entryIndex, minMonthYearIndex);
        entryIndex := 0;
      }
    }

    /** The descending branch of advance. */
    method AdvanceDescending() returns (nr: nat)
      requires Valid() && !stopped && filter.searchDirection.DESC?
      modifies `stopped, `monthYearIndex, `entryIndex
      ensures Valid()
      ensures nr == 0 ==> stopped && old(Remaining()) == []
      ensures nr != 0 ==> !stopped && old(Remaining()) == [nr] + Remaining()
    {
      hide Follows, Below, Reverse;
      ghost var all := Remaining();
      nr := 0;
      while true
        invariant Valid() && !stopped && Remaining() == all
        decreases monthYearIndex, entryIndex
      {
        if entryIndex == 0 {
          var found := PreviousMonth();
          if !found {
            return 0;
          }
        }
        nr := SearchDownwards();
        if nr != 0 || stopped {
          return;
        }
      }
    }

    method Advance() returns (nr: nat)
      requires Valid()
      modifies `stopped, `monthYearIndex, `entryIndex
      ensures Valid()
      ensures nr == 0 ==> stopped && old(Remaining()) == []
      ensures nr != 0 ==> !stopped && old(Remaining()) == [nr] + Remaining()
      ensures old(stopped) ==> monthYearIndex == old(monthYearIndex) && entryIndex == old(entryIndex)
    {
      if stopped {
        return 0;
      }
      if filter.searchDirection.ASC? {
        nr := AdvanceAscending();
      } else {
        nr := AdvanceDescending();
      }
    }

    /** All numbers of the walk from here on, the current one included. */
    ghost function Walk(): seq<nat>
      requires Valid()
      reads this, parent
    {
      if stopped then [] else [txNr] + Remaining()
    }

    lemma NothingLeft()
      requires Valid() && stopped
      ensures Walk() == []
    {
    }

    /** ++: the current number is left behind. */
    method Increment()
      requires Valid() && !stopped
      modifies this
      ensures Valid() && old(Walk()) == [old(txNr)] + Walk()
    {
      var result := Advance();
      if result != 0 {
        txNr := result;
      }
    }

    /** After an entry with STOP there is nothing to come. */
    lemma NothingBehind()
      requires parent.BucketsInv() && maxMonthYearIndex < |parent.yearMonthEntries|
      requires minMonthYearIndex <= monthYearIndex <= maxMonthYearIndex && entryIndex < |parent.yearMonthEntries[monthYearIndex]|
      requires IsBehind(parent.yearMonthEntries[monthYearIndex][entryIndex].transactionNr, filter)
      ensures From(monthYearIndex, entryIndex) == UsedOne(parent.yearMonthEntries[monthYearIndex][entryIndex], Judge(filter))
    {
      hide InMonths, Scan, HistoryOrder, BucketsHold, BoundsHold, Used;
      ghost var h, buckets, m, e := parent.history, parent.yearMonthEntries, monthYearIndex, entryIndex;
      if filter.searchDirection.ASC? {
        NothingAboveEntry(h, filter, Base(), buckets, m, e, maxMonthYearIndex);
      } else {
        NothingBelowEntry(h, filter, Base(), buckets, m, e, minMonthYearIndex);
        BelowNextEntry(h, filter, Base(), buckets, m, e, minMonthYearIndex);
        assert Below(h, filter, Base(), buckets, m, e + 1, minMonthYearIndex) == [] + [];
        ReverseEmpty();
      }
    }

    method GetCurrentOrNext() returns (nr: nat)
      requires parent.BucketsInv() && maxMonthYearIndex < |parent.yearMonthEntries| && monthYearIndex < |parent.yearMonthEntries|
      requires !stopped ==> minMonthYearIndex <= monthYearIndex <= maxMonthYearIndex
      modifies `stopped, `monthYearIndex, `entryIndex
      ensures Valid() && (nr == 0 <==> stopped)
      ensures var bucket := parent.yearMonthEntries[old(monthYearIndex)];
        (if stopped then [] else [nr] + Remaining()) ==
        if old(stopped) || old(entryIndex) >= |bucket| then [] else From(old(monthYearIndex), old(entryIndex))
    {
      hide InMonths, Scan, Above, Below, HistoryOrder, BucketsHold, BoundsHold, Used;
      var bucketSize := |parent.yearMonthEntries[monthYearIndex]|;
      if monthYearIndex > maxMonthYearIndex || entryIndex >= bucketSize {
        stopped := true;
        return 0;
      }
      if stopped {
        nr := Advance();
        return;
      }
      ghost var rest := Remaining();
      nr := FilterCurrentEntry();
      assert [] + rest == rest;
      if stopped {
        NothingBehind();
      }
      if nr == 0 {
        nr := Advance();
      }
    }

    /** The walk that starts at an entry, the entry included. */
    ghost function From(month: nat, entry: nat): seq<nat>
      requires month < |parent.yearMonthEntries| && entry < |parent.yearMonthEntries[month]|
      reads this, parent
    {
      UsedOne(parent.yearMonthEntries[month][entry], Judge(filter)) +
      if filter.searchDirection.ASC? then
        Above(parent.history, filter, Base(), parent.yearMonthEntries, month, entry, maxMonthYearIndex)
      else
        Reverse(Below(parent.history, filter, Base(), parent.yearMonthEntries, month, entry, minMonthYearIndex))
    }
  }

  /** Entries of a bucket are found again by their number. */
  lemma DescendingHit(h: seq<Booking>, f: CompactFilter, base: int, buckets: seq<seq<Entry>>, month: nat, entry: nat, min: nat,
                      i: nat, nr: nat)
    requires HistoryOrder(h) && BucketsHold(h, base, buckets) && month < |buckets| && i < entry <= |buckets[month]|
    requires buckets[month][i].transactionNr == nr && Picks(buckets[month][..entry], f) == Picks(buckets[month][..i], f) + [nr]
    ensures nr - buckets[month][0].transactionNr == i
    ensures Reverse(Below(h, f, base, buckets, month, entry, min)) == [nr] + Reverse(Below(h, f, base, buckets, month, i, min))
  {
    hide InMonths, Scan, Used;
    MonthsHoldRun(h, base + month, base + month);
    var low := Scan(h, f, base + min, base + month - 1);
    Associative(low, Picks(buckets[month][..i], f), [nr]);
    ReverseConcat(low + Picks(buckets[month][..i], f), [nr]);
    assert Reverse([nr]) == [nr];
  }

  /** A bucket without a hit is left behind; after a stop nothing is left at all. */
  lemma DescendingMiss(h: seq<Booking>, f: CompactFilter, base: int, buckets: seq<seq<Entry>>, month: nat, entry: nat, min: nat)
    requires month < |buckets| && entry <= |buckets[month]| && Picks(buckets[month][..entry], f) == []
    ensures Below(h, f, base, buckets, month, entry, min) == Below(h, f, base, buckets, month, 0, min)
    ensures Scan(h, f, base + min, base + month - 1) == [] ==> Reverse(Below(h, f, base, buckets, month, entry, min)) == []
  {
    hide InMonths, Scan, Used;
    NothingUsed(buckets[month][..0], Judge(f));
  }

  lemma PicksInit(b: seq<Entry>, i: nat, f: CompactFilter)
    requires i < |b|
    ensures Picks(b[..i+1], f) == Picks(b[..i], f) + UsedOne(b[i], Judge(f))
    ensures UsedOne(b[i], Judge(f)) == [] ==> Picks(b[..i+1], f) == Picks(b[..i], f)
  {
    assert b[..i+1] == b[..i] + [b[i]];
    UsedConcat(b[..i], [b[i]], Judge(f));
    UsedSingle(b[i], Judge(f));
  }

  lemma EntriesHaveNumbers(index: TransactionsIndex, month: nat, entry: nat)
    requires index.BucketsInv() && month < |index.yearMonthEntries| && entry < |index.yearMonthEntries[month]|
    ensures index.yearMonthEntries[month][entry].transactionNr >= 1
  {
    hide InMonths;
    var b, m := index.yearMonthEntries[month], index.minYearMonth.Number() + month;
    assert b[entry] in b;
    InMonthsHolds(index.history, m, m, b[entry]);
  }

  // ---------- a walk from begin to end ----------

  /** From the first entry of the first month an ascending walk covers all months. */
  lemma WalkUpCoversMonths(h: seq<Booking>, f: CompactFilter, base: int, buckets: seq<seq<Entry>>, min: nat, max: nat)
    requires HistoryOrder(h) && BucketsHold(h, base, buckets) && min <= max < |buckets| && buckets[min] != []
    ensures UsedOne(buckets[min][0], Judge(f)) + Above(h, f, base, buckets, min, 0, max) == Scan(h, f, base + min, base + max)
  {
    hide InMonths, HistoryOrder;
    var b := buckets[min];
    SplitScan(h, f, base + min, base + min + 1, base + max);
    assert Scan(h, f, base + min, base + min) == UsedOne(b[0], Judge(f)) + Picks(b[1..], f);
    Associative(UsedOne(b[0], Judge(f)), Picks(b[1..], f), Scan(h, f, base + min + 1, base + max));
  }

  /** From the last entry of the last month a descending walk covers all months. */
  lemma WalkDownCoversMonths(h: seq<Booking>, f: CompactFilter, base: int, buckets: seq<seq<Entry>>, min: nat, max: nat)
    requires HistoryOrder(h) && BucketsHold(h, base, buckets) && min <= max < |buckets| && buckets[max] != []
    ensures var last := |buckets[max]| - 1;
      UsedOne(buckets[max][last], Judge(f)) + Reverse(Below(h, f, base, buckets, max, last, min))
      == Reverse(Scan(h, f, base + min, base + max))
  {
    hide InMonths, HistoryOrder, Used, UsedOne, Reverse;
    var b := buckets[max];
    var last := |b| - 1;
    assert b[..last+1] == b;
    SplitScan(h, f, base + min, base + max, base + max);
    BelowNextEntry(h, f, base, buckets, max, last, min);
    ReverseConcat(Below(h, f, base, buckets, max, last, min), UsedOne(b[last], Judge(f)));
    ReverseUsedOne(b[last], f);
  }

  lemma ReverseUsedOne(e: Entry, f: CompactFilter)
    ensures Reverse(UsedOne(e, Judge(f))) == UsedOne(e, Judge(f))
  {
  }

  /** The first month of the walk has no entries; the iterator is stopped at once. */
  ghost predicate StartsInHole(index: TransactionsIndex, f: CompactFilter)
    reads index
  {
    var i := index.FilteredTimepointInterval(f);
    var m := MonthOf(if f.searchDirection.ASC? then i.start else i.end).Number();
    forall k :: 0 <= k < |index.history| ==> index.history[k].Month() != m
  }

  /** The number bound from which the iterator starts, or 0. */
  ghost function Seed(index: TransactionsIndex, f: CompactFilter): nat
    reads index, index.addressIndex
  {
    if f.searchDirection.ASC? then f.minTransactionNr else index.Clamped(f).maxTransactionNr
  }

  /** Going up to the month of the seed, the iterator looks at the last entries of all months on the way. */
  ghost predicate LooksUp(buckets: seq<seq<Entry>>, seed: nat, first: nat, i: nat)
    requires i <= |buckets|
  {
    first <= i && forall k :: first <= k < i ==> buckets[k] != [] && Last(buckets[k]).transactionNr < seed
  }

  /** Going down to it, at the first ones. */
  ghost predicate LooksDown(buckets: seq<seq<Entry>>, seed: nat, last: nat, i: nat)
    requires last < |buckets|
  {
    i <= last && forall k :: i < k <= last ==> buckets[k] != [] && seed < buckets[k][0].transactionNr
  }

  /**
   What the source takes for granted where a seed decides: the months it looks at have entries, and going
   up the seed does not lie below the first month.
   */
  ghost predicate SeedIsDefined(buckets: seq<seq<Entry>>, d: SearchDirection, seed: nat, first: nat, last: nat)
    requires first < |buckets| && last < |buckets|
  {
    seed != 0 ==>
      if d.ASC? then
        && (forall i :: first <= i < |buckets| && LooksUp(buckets, seed, first, i) ==> buckets[i] != [])
        && buckets[first][0].transactionNr <= seed
      else forall i :: 0 <= i <= last && LooksDown(buckets, seed, last, i) ==> buckets[i] != []
  }

  /** The walk of the query is defined. */
  ghost predicate IsDefined(index: TransactionsIndex, f: CompactFilter)
    requires index.BucketsInv()
    reads index, index.addressIndex
  {
    CanIterate(index, f) && !NothingToIterate(index, f) ==>
      var i := index.FilteredTimepointInterval(f);
      var first, last := MonthOf(i.start).Number() - index.minYearMonth.Number(), MonthOf(i.end).Number() - index.minYearMonth.Number();
      && FitsPositions(index, i)
      && 0 <= first < |index.yearMonthEntries| && 0 <= last < |index.yearMonthEntries|
      && SeedIsDefined(index.yearMonthEntries, f.searchDirection, Seed(index, f), first, last)
  }

  /** Going down, the seed lies above all numbers of the last month: the iterator is stopped at once, too. */
  ghost predicate StartsAbove(index: TransactionsIndex, f: CompactFilter)
    reads index, index.addressIndex
  {
    var seed, m := Seed(index, f), MonthOf(index.FilteredTimepointInterval(f).end).Number();
    f.searchDirection.DESC? && seed != 0 &&
    forall k :: 0 <= k < |index.history| && index.history[k].Month() == m ==> index.history[k].Nr() < seed
  }

  /** The walk has no place to start from. */
  ghost predicate StartsNowhere(index: TransactionsIndex, f: CompactFilter)
    reads index, index.addressIndex
  {
    index.MissesIndex(f) || StartsInHole(index, f) || StartsAbove(index, f)
  }

  ghost predicate CanIterate(index: TransactionsIndex, f: CompactFilter) {
    !f.publicKeySearchType.MissingIndex? &&
    !(f.publicKeySearchType.BalanceChangingPublicKey? && f.publicKeyIndex.communityIdIndex != index.communityIdIndex)
  }

  /** A query that can want nothing is answered before its key is looked at. */
  ghost predicate NothingToIterate(index: TransactionsIndex, f: CompactFilter)
    reads index
  {
    || (index.minTransactionNr == 0 && index.maxTransactionNr == 0) || index.MissesIndex(f)
    || (f.minTransactionNr != 0 && f.minTransactionNr > index.maxTransactionNr)
    || (f.maxTransactionNr != 0 && f.maxTransactionNr < index.minTransactionNr)
  }

  /** What a walk has to cover when it starts at one end of the months first to last. */
  ghost function WholeWalk(index: TransactionsIndex, filter: CompactFilter, first: int, last: int): seq<nat>
    reads index
  {
    Directed(filter.searchDirection, Scan(index.history, filter, first, last))
  }

  /** The walk from one end of the months of the iterator covers them all. */
  lemma StartCoversMonths(it: SearchIterator)
    requires it.parent.BucketsInv() && it.minMonthYearIndex <= it.maxMonthYearIndex < |it.parent.yearMonthEntries|
    ensures
      var buckets, min, max := it.parent.yearMonthEntries, it.minMonthYearIndex, it.maxMonthYearIndex;
      var all := WholeWalk(it.parent, it.filter, it.Base() + min, it.Base() + max);
      && (it.filter.searchDirection.ASC? && buckets[min] != [] ==> it.From(min, 0) == all)
      && (it.filter.searchDirection.DESC? && buckets[max] != [] ==> it.From(max, |buckets[max]| - 1) == all)
  {
    hide InMonths, Used, HistoryOrder, Scan, Reverse, Above, Below, BoundsHold;
    var h, base, buckets := it.parent.history, it.Base(), it.parent.yearMonthEntries;
    if buckets[it.minMonthYearIndex] != [] {
      WalkUpCoversMonths(h, it.filter, base, buckets, it.minMonthYearIndex, it.maxMonthYearIndex);
    }
    if buckets[it.maxMonthYearIndex] != [] {
      WalkDownCoversMonths(h, it.filter, base, buckets, it.minMonthYearIndex, it.maxMonthYearIndex);
    }
  }

  /** Every entry of a month below the seed is below it, if its last one is; and the other way round. */
  lemma EntryOfBucket(h: seq<Booking>, base: int, buckets: seq<seq<Entry>>, i: nat, k: nat)
    requires HistoryOrder(h) && BucketsHold(h, base, buckets) && i < |h| && k < |buckets| && h[i].Month() == base + k
    ensures buckets[k] != [] && buckets[k][0].transactionNr <= h[i].Nr() <= Last(buckets[k]).transactionNr
  {
    hide InMonths;
    InMonthsHolds(h, base + k, base + k, h[i].entry);
    MonthsHoldRun(h, base + k, base + k);
    var e :| 0 <= e < |buckets[k]| && buckets[k][e] == h[i].entry;
    assert buckets[k][e].transactionNr == buckets[k][0].transactionNr + e;
  }

  /** Before the month of the seed there is nothing to visit. */
  lemma NothingBeforeSeed(h: seq<Booking>, f: CompactFilter, base: int, buckets: seq<seq<Entry>>, first: nat, m: nat, hi: int)
    requires HistoryOrder(h) && BucketsHold(h, base, buckets) && m <= |buckets| && hi < base + m
    requires f.minTransactionNr != 0 && LooksUp(buckets, f.minTransactionNr, first, m)
    ensures Scan(h, f, base + first, hi) == []
  {
    hide InMonths, Scan, HistoryOrder, BucketsHold;
    forall i | 0 <= i < |h| ensures !Wanted(h[i], f, base + first, hi) {
      if base + first <= h[i].Month() <= hi {
        EntryOfBucket(h, base, buckets, i, h[i].Month() - base);
      }
    }
    NothingWanted(h, f, base + first, hi);
  }

  /** Behind the month of the seed there is nothing to visit. */
  lemma NothingBehindSeed(h: seq<Booking>, f: CompactFilter, base: int, buckets: seq<seq<Entry>>, last: nat, m: nat, lo: int)
    requires HistoryOrder(h) && BucketsHold(h, base, buckets) && m <= last < |buckets| && base + m < lo
    requires f.maxTransactionNr != 0 && LooksDown(buckets, f.maxTransactionNr, last, m)
    ensures Scan(h, f, lo, base + last) == []
  {
    hide InMonths, Scan, HistoryOrder, BucketsHold;
    forall i | 0 <= i < |h| ensures !Wanted(h[i], f, lo, base + last) {
      if lo <= h[i].Month() <= base + last {
        EntryOfBucket(h, base, buckets, i, h[i].Month() - base);
      }
    }
    NothingWanted(h, f, lo, base + last);
  }

  /** The entry with the number of the seed cuts a bucket in two. */
  lemma CutAtSeed(b: seq<Entry>, f: CompactFilter, seed: nat)
    requires b != [] && IsRun(b) && b[0].transactionNr <= seed <= Last(b).transactionNr
    ensures var e := seed - b[0].transactionNr;
      && e < |b| && b[e].transactionNr == seed
      && Picks(b, f) == Picks(b[..e], f) + UsedOne(b[e], Judge(f)) + Picks(b[e+1..], f)
      && (f.minTransactionNr == seed != 0 ==> Picks(b[..e], f) == [])
      && (f.maxTransactionNr == seed != 0 ==> Picks(b[e+1..], f) == [])
  {
    var e := seed - b[0].transactionNr;
    hide Used, UsedOne;
    PicksCut(b, f, e);
    forall x | x in b[..e] ensures x.transactionNr < seed {
      var i :| 0 <= i < e && b[i] == x;
    }
    forall x | x in b[e+1..] ensures seed < x.transactionNr {
      var i :| e < i < |b| && b[i] == x;
    }
    if f.minTransactionNr == seed != 0 { NothingUsed(b[..e], Judge(f)); }
    if f.maxTransactionNr == seed != 0 { NothingUsed(b[e+1..], Judge(f)); }
  }

  lemma PicksCut(b: seq<Entry>, f: CompactFilter, e: nat)
    requires e < |b|
    ensures Picks(b, f) == Picks(b[..e], f) + UsedOne(b[e], Judge(f)) + Picks(b[e+1..], f)
  {
    hide Used, UsedOne;
    assert b == b[..e] + ([b[e]] + b[e+1..]);
    UsedConcat(b[..e], [b[e]] + b[e+1..], Judge(f));
    UsedConcat([b[e]], b[e+1..], Judge(f));
    UsedSingle(b[e], Judge(f));
    Associative(Picks(b[..e], f), UsedOne(b[e], Judge(f)), Picks(b[e+1..], f));
  }

  lemma ScanOfBucket(h: seq<Booking>, f: CompactFilter, base: int, buckets: seq<seq<Entry>>, m: nat)
    requires HistoryOrder(h) && BucketsHold(h, base, buckets) && m < |buckets|
    ensures Scan(h, f, base + m, base + m) == Picks(buckets[m], f) && IsRun(buckets[m])
  {
    MonthsHoldRun(h, base + m, base + m);
  }

  /** From its seed an ascending walk covers all months. */
  lemma UpFromSeed(h: seq<Booking>, f: CompactFilter, base: int, buckets: seq<seq<Entry>>, first: nat, last: nat, m: nat)
    requires HistoryOrder(h) && BucketsHold(h, base, buckets) && first <= last < |buckets| && m < |buckets| && buckets[m] != []
    requires f.minTransactionNr != 0 && first <= m && LooksUp(buckets, f.minTransactionNr, first, m)
    requires buckets[m][0].transactionNr <= f.minTransactionNr <= Last(buckets[m]).transactionNr
    ensures var e := f.minTransactionNr - buckets[m][0].transactionNr;
      && e < |buckets[m]|
      && (if m <= last then UsedOne(buckets[m][e], Judge(f)) + Above(h, f, base, buckets, m, e, last) else [])
         == Scan(h, f, base + first, base + last)
  {
    hide InMonths, Used, UsedOne, HistoryOrder, LooksUp, BucketsHold, Scan, Picks, IsRun;
    var b, e := buckets[m], f.minTransactionNr - buckets[m][0].transactionNr;
    ScanOfBucket(h, f, base, buckets, m);
    CutAtSeed(b, f, f.minTransactionNr);
    if m <= last {
      NothingBeforeSeed(h, f, base, buckets, first, m, base + m - 1);
      SplitScan(h, f, base + first, base + m, base + last);
      SplitScan(h, f, base + m, base + m + 1, base + last);
      Associative(UsedOne(b[e], Judge(f)), Picks(b[e+1..], f), Scan(h, f, base + m + 1, base + last));
    } else {
      NothingBeforeSeed(h, f, base, buckets, first, m, base + last);
    }
  }

  /** From its seed a descending walk covers all months, if the seed has an entry. */
  lemma DownFromSeed(h: seq<Booking>, f: CompactFilter, base: int, buckets: seq<seq<Entry>>, first: nat, last: nat, m: nat)
    requires HistoryOrder(h) && BucketsHold(h, base, buckets) && first <= last < |buckets| && m <= last && buckets[m] != []
    requires f.maxTransactionNr != 0 && LooksDown(buckets, f.maxTransactionNr, last, m)
    requires buckets[m][0].transactionNr <= f.maxTransactionNr <= Last(buckets[m]).transactionNr
    ensures var e := f.maxTransactionNr - buckets[m][0].transactionNr;
      && e < |buckets[m]|
      && (if first <= m then UsedOne(buckets[m][e], Judge(f)) + Reverse(Below(h, f, base, buckets, m, e, first)) else [])
         == Reverse(Scan(h, f, base + first, base + last))
  {
    hide InMonths, Used, UsedOne, HistoryOrder, LooksDown, Reverse, BucketsHold, Scan, Picks, IsRun;
    var b, e := buckets[m], f.maxTransactionNr - buckets[m][0].transactionNr;
    ScanOfBucket(h, f, base, buckets, m);
    CutAtSeed(b, f, f.maxTransactionNr);
    if first <= m {
      NothingBehindSeed(h, f, base, buckets, last, m, base + m + 1);
      SplitScan(h, f, base + first, base + m, base + last);
      SplitScan(h, f, base + m, base + m + 1, base + last);
      var below, one := Below(h, f, base, buckets, m, e, first), UsedOne(b[e], Judge(f));
      Associative(Scan(h, f, base + first, base + m - 1), Picks(b[..e], f), one);
      assert Scan(h, f, base + first, base + last) == below + one;
      ReverseConcat(below, one);
      ReverseUsedOne(b[e], f);
    } else {
      NothingBehindSeed(h, f, base, buckets, last, m, base + first);
      ReverseEmpty();
    }
  }

  /** The month before one that lies above the seed has the seed, if the seed is not below it. */
  lemma SeedHasEntry(h: seq<Booking>, base: int, buckets: seq<seq<Entry>>, seed: nat, last: nat, m: nat)
    requires HistoryOrder(h) && BucketsHold(h, base, buckets) && m < last < |buckets| && buckets[m] != []
    requires LooksDown(buckets, seed, last, m)
    ensures seed <= Last(buckets[m]).transactionNr
  {
    hide InMonths;
    var a, b := buckets[m], buckets[m+1];
    SplitMonths(h, base + m, base + m + 1, base + m + 1);
    MonthsHoldRun(h, base + m, base + m + 1);
    assert (a + b)[|a|] == b[0] && (a + b)[|a| - 1] == Last(a);
  }

  /** The oldest month begins with the lowest number, the newest one ends with the highest. */
  lemma EndsOfIndex(index: TransactionsIndex)
    requires index.BucketsInv() && index.history != []
    ensures var buckets, newest := index.yearMonthEntries, index.maxYearMonth.Number() - index.minYearMonth.Number();
      && 0 <= newest < |buckets| && buckets[0] != [] && buckets[newest] != []
      && buckets[0][0].transactionNr <= index.minTransactionNr
      && index.maxTransactionNr <= Last(buckets[newest]).transactionNr
  {
    hide InMonths;
    var h, base := index.history, index.minYearMonth.Number();
    EntryOfBucket(h, base, index.yearMonthEntries, 0, 0);
    EntryOfBucket(h, base, index.yearMonthEntries, |h| - 1, index.maxYearMonth.Number() - base);
  }

  method SeedUp(buckets: seq<seq<Entry>>, seed: nat, first: nat, ghost newest: nat) returns (m: nat)
    requires first <= newest < |buckets| && buckets[newest] != [] && seed <= Last(buckets[newest]).transactionNr
    requires forall i :: first <= i < |buckets| && LooksUp(buckets, seed, first, i) ==> buckets[i] != []
    ensures first <= m <= newest && LooksUp(buckets, seed, first, m) && buckets[m] != [] && seed <= Last(buckets[m]).transactionNr
  {
    m := first;
    assert LooksUp(buckets, seed, first, m);
    while Last(buckets[m]).transactionNr < seed && m < |buckets| - 1
      invariant first <= m <= newest && LooksUp(buckets, seed, first, m) && buckets[m] != []
      decreases newest - m
    {
      m := m + 1;
      assert LooksUp(buckets, seed, first, m);
    }
  }

  method SeedDown(buckets: seq<seq<Entry>>, seed: nat, last: nat) returns (m: nat)
    requires last < |buckets| && buckets[0] != [] && buckets[0][0].transactionNr <= seed
    requires forall i :: 0 <= i <= last && LooksDown(buckets, seed, last, i) ==> buckets[i] != []
    ensures m <= last && LooksDown(buckets, seed, last, m) && buckets[m] != [] && buckets[m][0].transactionNr <= seed
  {
    m := last;
    assert LooksDown(buckets, seed, last, m);
    while buckets[m][0].transactionNr > seed && m != 0
      invariant m <= last && LooksDown(buckets, seed, last, m) && buckets[m] != []
      decreases m
    {
      m := m - 1;
      assert LooksDown(buckets, seed, last, m);
    }
  }

  /** The buckets of the first and the last month, and which of them decides whether the walk starts in a hole. */
  lemma StartBuckets(index: TransactionsIndex, f: CompactFilter, interval: TimepointInterval)
    requires index.BucketsInv() && index.history != [] && FitsPositions(index, interval)
    requires interval == index.FilteredTimepointInterval(f)
    ensures
      var base := index.minYearMonth.Number();
      var lo, hi := index.YearMonthToIndex(AsYearMonth(interval.start)), index.YearMonthToIndex(AsYearMonth(interval.end));
      && lo.Success? && hi.Success? && lo.value <= hi.value < |index.yearMonthEntries|
      && base + lo.value == MonthOf(interval.start).Number() && base + hi.value == MonthOf(interval.end).Number()
      && (StartsInHole(index, f) <==> index.yearMonthEntries[if f.searchDirection.ASC? then lo.value else hi.value] == [])
  {
    hide InMonths, Used, HistoryOrder, Scan;
    MonthsHavePositions(index, interval);
    index.BucketOfMonth(AsYearMonth(interval.start));
    index.BucketOfMonth(AsYearMonth(interval.end));
    HoleIsEmpty(index.history, MonthOf(interval.start).Number());
    HoleIsEmpty(index.history, MonthOf(interval.end).Number());
  }

  /** Going up, the month of the seed does not lie above it. */
  lemma SeedIsReached(index: TransactionsIndex, seed: nat, first: nat, m: nat)
    requires index.BucketsInv() && m < |index.yearMonthEntries| && index.yearMonthEntries[m] != []
    requires LooksUp(index.yearMonthEntries, seed, first, m) && (m == first ==> index.yearMonthEntries[m][0].transactionNr <= seed)
    ensures index.yearMonthEntries[m][0].transactionNr <= seed
  {
    hide InMonths;
    var h, base, buckets := index.history, index.minYearMonth.Number(), index.yearMonthEntries;
    if first < m {
      var a, b := buckets[m-1], buckets[m];
      SplitMonths(h, base + m - 1, base + m, base + m);
      MonthsHoldRun(h, base + m - 1, base + m);
      assert (a + b)[|a|] == b[0] && (a + b)[|a| - 1] == Last(a);
    }
  }

  /** Going down, the seed has no entry exactly if it lies above all numbers of the last month. */
  lemma AboveLastMonth(index: TransactionsIndex, f: CompactFilter, last: nat, m: nat)
    requires index.BucketsInv() && f.searchDirection.DESC? && last < |index.yearMonthEntries|
    requires index.minYearMonth.Number() + last == MonthOf(index.FilteredTimepointInterval(f).end).Number()
    requires m <= last && index.yearMonthEntries[m] != [] && Seed(index, f) != 0
    requires LooksDown(index.yearMonthEntries, Seed(index, f), last, m)
    ensures StartsAbove(index, f) <==> Last(index.yearMonthEntries[m]).transactionNr < Seed(index, f)
  {
    hide InMonths, TransactionsIndex.Clamped, TransactionsIndex.FilteredTimepointInterval;
    var h, base, buckets, seed := index.history, index.minYearMonth.Number(), index.yearMonthEntries, Seed(index, f);
    InMonthsHolds(h, base + last, base + last, Last(buckets[last]));
    var k :| 0 <= k < |h| && h[k].entry == Last(buckets[last]) && h[k].Month() == base + last;
    if m < last {
      SeedHasEntry(h, base, buckets, seed, last, m);
      EntryOfBucket(h, base, buckets, k, last);
      assert seed < h[k].Nr();
    } else {
      forall i | 0 <= i < |h| && h[i].Month() == base + last ensures h[i].Nr() <= Last(buckets[last]).transactionNr {
        EntryOfBucket(h, base, buckets, i, last);
      }
    }
  }

  lemma SizeOfRun(b: seq<Entry>)
    requires b != [] && IsRun(b)
    ensures Last(b).transactionNr == b[0].transactionNr + |b| - 1
  {
  }

  /** The walk from the seed covers all months, if the seed has an entry. */
  lemma StartOfSeed(it: SearchIterator, m: nat, entry: nat)
    requires it.parent.BucketsInv() && it.minMonthYearIndex <= it.maxMonthYearIndex < |it.parent.yearMonthEntries|
    requires var f, buckets := it.filter, it.parent.yearMonthEntries;
      var seed := if f.searchDirection.ASC? then f.minTransactionNr else f.maxTransactionNr;
      && m < |buckets| && buckets[m] != [] && seed != 0 && entry == seed - buckets[m][0].transactionNr
      && if f.searchDirection.ASC?
         then it.minMonthYearIndex <= m && LooksUp(buckets, seed, it.minMonthYearIndex, m) && seed <= Last(buckets[m]).transactionNr
         else m <= it.maxMonthYearIndex && LooksDown(buckets, seed, it.maxMonthYearIndex, m)
    ensures var buckets, min, max := it.parent.yearMonthEntries, it.minMonthYearIndex, it.maxMonthYearIndex;
      var all := WholeWalk(it.parent, it.filter, it.Base() + min, it.Base() + max);
      && (entry < |buckets[m]| ==> all == if min <= m <= max then it.From(m, entry) else [])
      && (entry < |buckets[m]| <==> buckets[m][0].transactionNr + entry <= Last(buckets[m]).transactionNr)
  {
    hide InMonths, UsedOne, Scan, Reverse, Above, Below, BoundsHold, LooksUp, LooksDown, HistoryOrder, BucketsHold, IsRun;
    var h, base, buckets := it.parent.history, it.Base(), it.parent.yearMonthEntries;
    BucketIsRun(it.parent, m);
    SizeOfRun(buckets[m]);
    if entry < |buckets[m]| {
      if it.filter.searchDirection.ASC? {
        UpFromSeed(h, it.filter, base, buckets, it.minMonthYearIndex, it.maxMonthYearIndex, m);
      } else {
        DownFromSeed(h, it.filter, base, buckets, it.minMonthYearIndex, it.maxMonthYearIndex, m);
      }
    }
  }

  lemma BucketIsRun(index: TransactionsIndex, m: nat)
    requires index.BucketsInv() && m < |index.yearMonthEntries|
    ensures IsRun(index.yearMonthEntries[m])
  {
    var base := index.minYearMonth.Number();
    MonthsHoldRun(index.history, base + m, base + m);
  }

  lemma NoSeedAbove(index: TransactionsIndex, f: CompactFilter)
    requires f.searchDirection.ASC? || Seed(index, f) == 0
    ensures !StartsAbove(index, f)
  {
  }

  lemma SeedIsInside(index: TransactionsIndex, f: CompactFilter)
    requires index.BucketsInv() && index.history != [] && CanIterate(index, f) && !NothingToIterate(index, f) && IsDefined(index, f)
    ensures var i, buckets, seed := index.FilteredTimepointInterval(f), index.yearMonthEntries, Seed(index, f);
      var first, last := MonthOf(i.start).Number() - index.minYearMonth.Number(), MonthOf(i.end).Number() - index.minYearMonth.Number();
      && 0 <= first <= index.maxYearMonth.Number() - index.minYearMonth.Number() < |buckets| && 0 <= last < |buckets|
      && SeedIsDefined(buckets, f.searchDirection, seed, first, last)
      && (seed != 0 ==> buckets[if f.searchDirection.ASC? then first else last] != [])
  {
    hide InMonths, BucketsHold, HistoryOrder, TransactionsIndex.FilteredTimepointInterval;
    var i, buckets, seed := index.FilteredTimepointInterval(f), index.yearMonthEntries, Seed(index, f);
    var first, last := MonthOf(i.start).Number() - index.minYearMonth.Number(), MonthOf(i.end).Number() - index.minYearMonth.Number();
    assert LooksUp(buckets, seed, first, first) && LooksDown(buckets, seed, last, last);
  }

  /** What an iterator of a query that can want something starts with. */
  ghost predicate IsPrepared(index: TransactionsIndex, f: CompactFilter, filter: CompactFilter)
    reads index, index.addressIndex
  {
    && index.BucketsInv() && index.history != [] && CanIterate(index, f) && !NothingToIterate(index, f) && IsDefined(index, f)
    && filter == index.Clamped(f).(timepointInterval := index.FilteredTimepointInterval(f))
    && (filter.maxTransactionNr != 0 ==> index.minTransactionNr <= filter.maxTransactionNr)
  }

  /** The positions of the first and the last month, and what is known about seeds. */
  lemma StartPositions(index: TransactionsIndex, f: CompactFilter, filter: CompactFilter)
    requires IsPrepared(index, f, filter)
    ensures index.BucketsInv() && index.history != [] && FitsPositions(index, filter.timepointInterval)
    ensures filter.minTransactionNr != 0 ==> filter.minTransactionNr <= index.maxTransactionNr
    ensures filter.maxTransactionNr != 0 ==> index.minTransactionNr <= filter.maxTransactionNr
    ensures filter.searchDirection == f.searchDirection && filter.minTransactionNr == f.minTransactionNr
    ensures filter.timepointInterval == index.FilteredTimepointInterval(f)
    ensures Seed(index, f) == if f.searchDirection.ASC? then filter.minTransactionNr else filter.maxTransactionNr
    ensures
      var i, buckets, base := filter.timepointInterval, index.yearMonthEntries, index.minYearMonth.Number();
      var lo, hi := index.YearMonthToIndex(AsYearMonth(i.start)), index.YearMonthToIndex(AsYearMonth(i.end));
      && lo.Success? && hi.Success? && lo.value <= hi.value < |buckets|
      && base + lo.value == MonthOf(i.start).Number() && base + hi.value == MonthOf(i.end).Number()
      && lo.value <= index.maxYearMonth.Number() - base < |buckets|
      && (StartsInHole(index, f) <==> buckets[if f.searchDirection.ASC? then lo.value else hi.value] == [])
      && SeedIsDefined(buckets, f.searchDirection, Seed(index, f), lo.value, hi.value)
      && (Seed(index, f) != 0 ==> !StartsInHole(index, f))
  {
    hide InMonths, HistoryOrder, BucketsHold, BoundsHold, StartsInHole, SeedIsDefined;
    StartBuckets(index, f, filter.timepointInterval);
    SeedIsInside(index, f);
  }

  /** The whole walk of an iterator. */
  ghost function AllOf(index: TransactionsIndex, filter: CompactFilter): seq<nat>
    reads index
  {
    WholeWalk(index, filter, MonthOf(filter.timepointInterval.start).Number(), MonthOf(filter.timepointInterval.end).Number())
  }

  method BeginAtMaximum(index: TransactionsIndex, f: CompactFilter, filter: CompactFilter) returns (it: SearchIterator)
    requires IsPrepared(index, f, filter) && f.searchDirection.DESC? && filter.maxTransactionNr != 0
    ensures fresh(it) && it.Valid() && it.parent == index && !StartsInHole(index, f)
    ensures it.Walk() == if StartsAbove(index, f) then [] else AllOf(index, filter)
  {
    hide IsPrepared, InMonths, Used, Scan, Reverse, Above, Below, Follows, WholeWalk, StartsInHole, FitsPositions,
         SearchIterator.From, StartsAbove, LooksUp, LooksDown,
         TransactionsIndex.YearMonthToIndex, TransactionsIndex.FilteredTimepointInterval, TransactionsIndex.Clamped;
    StartPositions(index, f, filter);
    EndsOfIndex(index);
    var buckets := index.yearMonthEntries;
    var last := index.YearMonthToIndex(AsYearMonth(filter.timepointInterval.end)).value;
    var m := SeedDown(buckets, filter.maxTransactionNr, last);
    var entry := filter.maxTransactionNr - buckets[m][0].transactionNr;
    it := new SearchIterator(index, filter, entry, m);
    AboveLastMonth(index, f, last, m);
    StartOfSeed(it, m, entry);
  }

  method BeginAtMinimum(index: TransactionsIndex, f: CompactFilter, filter: CompactFilter) returns (it: SearchIterator)
    requires IsPrepared(index, f, filter) && f.searchDirection.ASC? && filter.minTransactionNr != 0
    ensures fresh(it) && it.Valid() && it.parent == index && !StartsInHole(index, f)
    ensures it.Walk() == AllOf(index, filter)
  {
    hide IsPrepared, InMonths, Used, Scan, Reverse, Above, Below, Follows, WholeWalk, StartsInHole, FitsPositions,
         SearchIterator.From, LooksUp, LooksDown,
         TransactionsIndex.YearMonthToIndex, TransactionsIndex.FilteredTimepointInterval, TransactionsIndex.Clamped;
    StartPositions(index, f, filter);
    EndsOfIndex(index);
    ghost var newest := index.maxYearMonth.Number() - index.minYearMonth.Number();
    var buckets := index.yearMonthEntries;
    var first := index.YearMonthToIndex(AsYearMonth(filter.timepointInterval.start)).value;
    var m := SeedUp(buckets, filter.minTransactionNr, first, newest);
    SeedIsReached(index, filter.minTransactionNr, first, m);
    var entry := filter.minTransactionNr - buckets[m][0].transactionNr;
    it := new SearchIterator(index, filter, entry, m);
    StartOfSeed(it, m, entry);
  }

  /** Without a seed the walk starts at the first entry of its first month. */
  method BeginAtMonth(index: TransactionsIndex, f: CompactFilter, filter: CompactFilter) returns (it: SearchIterator)
    requires IsPrepared(index, f, filter)
    ensures fresh(it) && it.Valid() && it.parent == index
    ensures it.Walk() == if StartsInHole(index, f) then [] else AllOf(index, filter)
  {
    hide IsPrepared, InMonths, Used, Scan, Reverse, Above, Below, Follows, WholeWalk, StartsInHole, FitsPositions,
         SearchIterator.From, SeedIsDefined,
         TransactionsIndex.YearMonthToIndex, TransactionsIndex.FilteredTimepointInterval, TransactionsIndex.Clamped;
    StartPositions(index, f, filter);
    if f.searchDirection.DESC? {
      var last := index.YearMonthToIndex(AsYearMonth(filter.timepointInterval.end)).value;
      var size := |index.yearMonthEntries[last]|;
      it := new SearchIterator(index, filter, if size == 0 then NO_ENTRY else size - 1, last);
    } else {
      it := new SearchIterator(index, filter, 0, index.YearMonthToIndex(AsYearMonth(filter.timepointInterval.start)).value);
    }
    StartCoversMonths(it);
  }

  /** The iterator that starts at its seed, or else at the first month of the walk. */
  method BeginInMonths(index: TransactionsIndex, f: CompactFilter, filter: CompactFilter) returns (it: SearchIterator)
    requires IsPrepared(index, f, filter)
    ensures fresh(it) && it.Valid() && it.parent == index
    ensures it.Walk() == if StartsInHole(index, f) || StartsAbove(index, f) then [] else AllOf(index, filter)
  {
    StartPositions(index, f, filter);
    hide IsPrepared, StartsInHole, AllOf, FitsPositions, SeedIsDefined, SearchIterator.Walk, SearchIterator.Valid,
         TransactionsIndex.YearMonthToIndex;
    if f.searchDirection.DESC? && filter.maxTransactionNr != 0 {
      it := BeginAtMaximum(index, f, filter);
    } else if f.searchDirection.ASC? && filter.minTransactionNr != 0 {
      it := BeginAtMinimum(index, f, filter);
      NoSeedAbove(index, f);
    } else {
      it := BeginAtMonth(index, f, filter);
      NoSeedAbove(index, f);
    }
  }

  /** All a query concerns, or nothing if the walk has no place to start from. */
  ghost function Expected(index: TransactionsIndex, f: CompactFilter): seq<nat>
    reads index, index.addressIndex
  {
    if StartsNowhere(index, f) then [] else Directed(f.searchDirection, ByNumber(index.history, f))
  }

  /** A last change of a key is a number of the index. */
  lemma ClampIsInIndex(index: TransactionsIndex, f: CompactFilter)
    requires index.Valid() && (f.maxTransactionNr == 0 || index.minTransactionNr <= f.maxTransactionNr)
    ensures index.Clamped(f).maxTransactionNr == 0 || index.minTransactionNr <= index.Clamped(f).maxTransactionNr
  {
    hide InMonths, BucketsHold, BalancesHold, LastChangesHold, LastChange;
    if index.Clamped(f) != f {
      LastOfKey(index, f);
      LastChangeIsLast(index.history, f.publicKeyIndex.publicKeyIndex);
      var k :| 0 <= k < |index.history| && index.history[k].Nr() == index.LastChangeOfKey(f);
      assert index.history[k].Nr() == index.history[0].Nr() + k;
    }
  }

  /** The iterator for a query; a query that can want nothing gets a stopped one. */
  method Begin(index: TransactionsIndex, f: CompactFilter) returns (r: Result<SearchIterator, TxError>)
    requires index.Valid() && f.Ok() && IsDefined(index, f)
    ensures r.Failure? <==> !CanIterate(index, f) && !NothingToIterate(index, f)
    ensures r.Success? ==> fresh(r.value) && r.value.Valid() && r.value.parent == index
    ensures r.Success? ==> r.value.Walk() == Expected(index, f)
  {
    hide InMonths, Used, HistoryOrder, Scan, Reverse, StartsInHole, BucketsHold, BalancesHold, LastChangesHold, StartsAbove,
         IsDefined;
    if index.minTransactionNr == 0 && index.maxTransactionNr == 0 {
      EmptyIndex(index, f);
      var it := new SearchIterator.Stopped(index, f, index.maxTransactionNr + 1);
      return Success(it);
    }
    index.MissingIsNoOverlap(f);
    if !f.timepointInterval.IsEmpty() && !f.timepointInterval.IsOverlap(index.Span()) {
      var it := new SearchIterator.Stopped(index, f, index.maxTransactionNr + 1);
      return Success(it);
    }
    var filter := f;
    if (filter.minTransactionNr != 0 && filter.minTransactionNr > index.maxTransactionNr) ||
       (filter.maxTransactionNr != 0 && filter.maxTransactionNr < index.minTransactionNr) {
      NothingInBounds(index, f);
      var it := new SearchIterator.Stopped(index, f, index.maxTransactionNr + 1);
      return Success(it);
    }
    if f.publicKeySearchType.MissingIndex? {
      return Failure(InvalidData);
    } else if f.publicKeySearchType.BalanceChangingPublicKey? {
      var last :- index.addressIndex.LastBalanceChanged(f.publicKeyIndex);
      if last != 0 && (filter.maxTransactionNr == 0 || filter.maxTransactionNr > last) {
        filter := filter.(maxTransactionNr := last);
      }
    }
    ClampIsInIndex(index, f);
    filter := filter.(timepointInterval := index.FilteredTimepointInterval(f));
    WholeWalkIsConcerned(index, f, filter);
    var it := BeginInMonths(index, f, filter);
    return Success(it);
  }

  lemma EmptyIndex(index: TransactionsIndex, f: CompactFilter)
    requires index.BucketsInv() && index.maxTransactionNr == 0
    ensures index.history == [] && ByNumber(index.history, f) == [] && Directed(f.searchDirection, ByNumber(index.history, f)) == []
  {
    hide InMonths, Used, Scan;
    var h := index.history;
    if h != [] {
      assert false;
    }
    NothingWanted(h, f, FirstMonth(h), LastMonth(h));
    NothingWanted(h, f, MonthOf(f.timepointInterval.start).Number(), MonthOf(f.timepointInterval.end).Number());
  }

  lemma NothingInBounds(index: TransactionsIndex, f: CompactFilter)
    requires index.BucketsInv()
    requires (f.minTransactionNr != 0 && f.minTransactionNr > index.maxTransactionNr) ||
             (f.maxTransactionNr != 0 && f.maxTransactionNr < index.minTransactionNr)
    ensures Directed(f.searchDirection, ByNumber(index.history, f)) == []
  {
    hide InMonths, Used, Scan, HistoryOrder, BucketsHold, BoundsHold;
    var h := index.history;
    index.OutOfBounds(f, FirstMonth(h), LastMonth(h));
    index.OutOfBounds(f, MonthOf(f.timepointInterval.start).Number(), MonthOf(f.timepointInterval.end).Number());
  }

  lemma WholeWalkIsConcerned(index: TransactionsIndex, f: CompactFilter, filter: CompactFilter)
    requires index.Valid() && f.Ok() && !index.MissesIndex(f) && !f.publicKeySearchType.MissingIndex?
    requires filter == index.Clamped(f).(timepointInterval := index.FilteredTimepointInterval(f))
    ensures WholeWalk(index, filter, MonthOf(filter.timepointInterval.start).Number(), MonthOf(filter.timepointInterval.end).Number())
      == Directed(f.searchDirection, ByNumber(index.history, f))
  {
    hide InMonths, Used, Scan, HistoryOrder, BucketsHold, BalancesHold, LastChangesHold, BoundsHold, Reverse;
    var lo, hi := MonthOf(filter.timepointInterval.start).Number(), MonthOf(filter.timepointInterval.end).Number();
    index.SeenInInterval(f);
    index.ClampingChangesNothing(f, lo, hi);
    SameScan(index.history, filter, lo, hi, index.Clamped(f), lo, hi);
  }

  method CollectFrom(it: SearchIterator) returns (collected: seq<nat>)
    requires it.Valid()
    modifies it
    ensures collected == old(it.Walk())
  {
    hide SearchIterator.Walk, SearchIterator.Valid;
    collected := [];
    ghost var walk := it.Walk();
    while !it.stopped
      invariant it.Valid() && walk == collected + it.Walk()
      decreases |it.Walk()|
    {
      var nr := it.txNr;
      it.Increment();
      Associative(collected, [nr], it.Walk());
      collected := collected + [nr];
    }
    it.NothingLeft();
  }

  /** The walk gives what is asked for: nothing if it cannot start, and otherwise no mistaken transaction. */
  ghost predicate WalkIsRight(index: TransactionsIndex, f: CompactFilter, chain: seq<Tx>, keys: seq<RawKey>)
    reads index, index.addressIndex
  {
    forall tx :: tx in chain ==>
      if StartsNowhere(index, f) then !AsksFor(tx, f, keys) else MatchesTx(tx, f, keys) ==> !IsMistaken(tx, f, keys)
  }

  lemma ExpectedIsAsked(index: TransactionsIndex, f: CompactFilter, chain: seq<Tx>, keys: seq<RawKey>)
    requires Serves(index, f, chain, keys)
    ensures Expected(index, f) == Directed(f.searchDirection, Numbers(chain, Asks(f, keys))) <==> WalkIsRight(index, f, chain, keys)
  {
    hide AsksFor, MatchesTx, IsMistaken, StartsNowhere, TransactionsIndex.Valid, BooksAll, ByNumber;
    var asked := Asks(f, keys);
    MatchesAreConcerned(index, f, chain, keys);
    forall tx: Tx {
      AskedIsMatched(tx, f, keys);
    }
    if StartsNowhere(index, f) {
      Counted(chain, asked);
      NumbersAreCounted(chain, TxNr, asked);
    } else {
      ConcernedIsMatching(index, f, chain, keys);
      ListsAgree(chain, Matching(f, keys), asked);
      DirectedIsInjective(f.searchDirection, Numbers(chain, Matching(f, keys)), Numbers(chain, asked));
    }
  }

  lemma DirectedIsInjective(d: SearchDirection, a: seq<nat>, b: seq<nat>)
    ensures Directed(d, a) == Directed(d, b) <==> a == b
  {
    if Reverse(a) == Reverse(b) {
      assert forall i :: 0 <= i < |a| ==> a[i] == Reverse(a)[|a| - 1 - i] && b[i] == Reverse(b)[|b| - 1 - i];
    }
  }

  /** A loop from begin to end visits each expected number once, in order; that is what is asked for exactly if the walk is right. */
  method Collect(index: TransactionsIndex, f: CompactFilter, ghost chain: seq<Tx>, ghost keys: seq<RawKey>)
    returns (r: Result<seq<nat>, TxError>)
    requires Serves(index, f, chain, keys) && IsDefined(index, f)
    ensures r.Failure? <==> !CanIterate(index, f) && !NothingToIterate(index, f)
    ensures r.Success? ==> r.value == Expected(index, f)
    ensures r.Success? ==>
      (r.value == Directed(f.searchDirection, Numbers(chain, Asks(f, keys))) <==> WalkIsRight(index, f, chain, keys))
  {
    hide Expected, NothingToIterate, CanIterate, Follows, BalancesHold, LastChangesHold, FitsPositions, IsDefined, WalkIsRight;
    ExpectedIsAsked(index, f, chain, keys);
    var it :- Begin(index, f);
    var collected := CollectFrom(it);
    return Success(collected);
  }

  // ---------- inputs on which the walk finds nothing ----------

  /** Transactions in January and March; from the 1st of February to the 1st of March the walk finds none of them. */
  lemma HoleExample(index: TransactionsIndex, chain: seq<Tx>, keys: seq<RawKey>)
    requires index.Valid() && BooksAll(index.history, chain, keys) && |chain| == 2
    requires ConfirmedMonth(chain[0]) == YearMonth(2025, 1) && ConfirmedMonth(chain[1]) == YearMonth(2025, 3)
    ensures var spring := TimepointInterval(Timepoint(Date(2025, 2, 1), 0), Timepoint(Date(2025, 3, 1), 0));
      var f := CompactFilter(ASC, NoType, AnyPublicKey, 0, 0, 0, EMPTY, Pagination(0, 0), spring);
      f.Ok() && IsDefined(index, f) && Expected(index, f) == [] && AsksFor(chain[1], f, keys)
  {
    hide InMonths, Used, Scan, ByNumber, BucketsHold, BalancesHold, LastChangesHold, HistoryOrder;
    var spring := TimepointInterval(Timepoint(Date(2025, 2, 1), 0), Timepoint(Date(2025, 3, 1), 0));
    var f := CompactFilter(ASC, NoType, AnyPublicKey, 0, 0, 0, EMPTY, Pagination(0, 0), spring);
    assert index.FilteredTimepointInterval(f) == spring;
    MonthsHavePositions(index, spring);
    assert StartsInHole(index, f);
  }

  /** One transaction with number 1; going down from number 2 the walk does not find it. */
  lemma AboveExample(index: TransactionsIndex, chain: seq<Tx>, keys: seq<RawKey>)
    requires index.Valid() && BooksAll(index.history, chain, keys) && |chain| == 1 && chain[0].txNr == 1
    requires ConfirmedMonth(chain[0]) == YearMonth(2025, 1)
    ensures var f := CompactFilter(DESC, NoType, AnyPublicKey, 0, 2, 0, EMPTY, Pagination(0, 0), TimepointInterval(EPOCH, EPOCH));
      f.Ok() && IsDefined(index, f) && Expected(index, f) == [] && AsksFor(chain[0], f, keys)
  {
    hide InMonths, Used, Scan, ByNumber, BalancesHold, LastChangesHold, HistoryOrder, BucketsHold;
    var f := CompactFilter(DESC, NoType, AnyPublicKey, 0, 2, 0, EMPTY, Pagination(0, 0), TimepointInterval(EPOCH, EPOCH));
    MonthsHavePositions(index, index.FilteredTimepointInterval(f));
    EndsOfIndex(index);
    assert StartsAbove(index, f);
  }

  lemma HoleIsEmpty(h: seq<Booking>, m: int)
    ensures InMonths(h, m, m) == [] <==> forall k :: 0 <= k < |h| ==> h[k].Month() != m
  {
    hide InMonths;
    if k :| 0 <= k < |h| && h[k].Month() == m {
      InMonthsHolds(h, m, m, h[k].entry);
    } else {
      NoMonths(h, m, m);
    }
  }
}
