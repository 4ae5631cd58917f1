/** Search filters, pagination and time intervals. */
module Filters {
  import opened ConfirmedTx
  import opened Sequences

  datatype SearchDirection = ASC | DESC

  datatype PublicKeySearchType =
    | AnyPublicKey | InvolvedPublicKey | BalanceChangingPublicKey | MissingCommunityId | MissingIndex

  /** A point in time: its calendar day and the position inside the day. */
  datatype Timepoint = Timepoint(day: Date, ofDay: nat) {
    predicate Less(other: Timepoint) {
      if day != other.day then day.Less(other.day) else ofDay < other.ofDay
    }

    /** timepointAsYearMonthDay: the epoch instant has no day. */
    function AsDay(): Date { if this == EPOCH then NO_DATE else day }

    predicate Ok() { day.Ok() }
  }

  /** Instants are ordered by their day, and within a day by their place in it. */
  lemma InstantsInOrder(a: Timepoint, b: Timepoint)
    requires a.Ok() && b.Ok()
    ensures a.Less(b) <==>
      || (a.day.year * 12 + a.day.month) * 31 + a.day.day < (b.day.year * 12 + b.day.month) * 31 + b.day.day
      || (a.day == b.day && a.ofDay < b.ofDay)
  {
    DaysInOrder(a.day, b.day);
  }

  const EPOCH := Timepoint(Date(1970, 1, 1), 0)

  datatype TimepointInterval = TimepointInterval(start: Timepoint, end: Timepoint) {
    predicate IsEmpty() { start == EPOCH && end == EPOCH }

    /** What the constructor enforces. */
    predicate Ordered() { start.Ok() && end.Ok() && !end.Less(start) }

    predicate IsOverlap(other: TimepointInterval) {
      if IsEmpty() || other.IsEmpty() then false
      else !(end.Less(other.start) || other.end.Less(start))
    }
  }

  /** The instant is one of the interval. */
  predicate Holds(i: TimepointInterval, t: Timepoint) {
    !t.Less(i.start) && !i.end.Less(t)
  }

  /** Intervals that are not empty overlap exactly if they have an instant in common. */
  lemma OverlapIsCommonInstant(a: TimepointInterval, b: TimepointInterval)
    requires a.Ordered() && b.Ordered() && !a.IsEmpty() && !b.IsEmpty()
    ensures a.IsOverlap(b) <==> exists t :: Holds(a, t) && Holds(b, t)
  {
    var later := if a.start.Less(b.start) then b.start else a.start;
    if a.IsOverlap(b) {
      assert Holds(a, later) && Holds(b, later);
    }
  }

  const UINT32_RANGE: nat := 0x1_0000_0000

  datatype Pagination = Pagination(size: nat, page: nat) {
    /** size and page are unsigned 32-bit values. */
    predicate Ok() { size < UINT32_RANGE && page < UINT32_RANGE }

    /** The product is computed on 32 bits, so it wraps. */
    function SkipEntriesCount(): nat {
      if page == 0 then 0 else ((page - 1) * size) % UINT32_RANGE
    }

    /** The number of entries before the page without any wrap-around. */
    function EntriesBefore(): nat {
      if page == 0 then 0 else (page - 1) * size
    }

    predicate HasCapacityLeft(count: nat) { size == 0 || count < size }
  }

  datatype CompactFilter = CompactFilter(
    searchDirection: SearchDirection, transactionType: TransactionType,
    publicKeySearchType: PublicKeySearchType, coinCommunityIdIndex: nat,
    maxTransactionNr: nat, minTransactionNr: nat, publicKeyIndex: PublicKeyIndex,
    pagination: Pagination, timepointInterval: TimepointInterval)
  {
    predicate Ok() { pagination.Ok() && timepointInterval.Ordered() }
  }

  // ---------- pages of a list ----------

  /** At most `size` elements after skipping `skip`; size 0 means no limit. */
  function Page<T>(all: seq<T>, skip: nat, size: nat): (page: seq<T>)
    ensures forall i :: 0 <= i < |page| ==> skip + i < |all| && page[i] == all[skip + i]
  {
    if |all| <= skip then []
    else if size == 0 || |all| <= skip + size then all[skip..]
    else all[skip..skip + size]
  }

  function Reverse<T>(s: seq<T>): (r: seq<T>)
    ensures |r| == |s| && forall i :: 0 <= i < |s| ==> r[i] == s[|s| - 1 - i]
  {
    seq(|s|, i requires 0 <= i < |s| => s[|s| - 1 - i])
  }

  function Directed<T>(direction: SearchDirection, s: seq<T>): seq<T> {
    if direction.ASC? then s else Reverse(s)
  }

  /**
   The one page the bitmap index gets wrong: a page of two, or any larger page of a two-element
   result, on which only the last element is left.
   */
  predicate RepeatsLast(n: nat, skip: nat, size: nat) {
    size >= 2 && n >= 2 && n == skip + 1 && (size == 2 || n == 2)
  }

  function PageWithRepeat<T>(all: seq<T>, skip: nat, size: nat): seq<T> {
    if RepeatsLast(|all|, skip, size) then [all[skip], all[skip]] else Page(all, skip, size)
  }

  /** The slice that holds the page of the list in the given direction. */
  ghost predicate IsPageSlice(n: nat, direction: SearchDirection, skip: nat, size: nat, i: nat, j: nat) {
    i <= j < n &&
    if direction.ASC? then i == skip && j == (if n < skip + size then n - 1 else skip + size - 1)
    else j == n - skip - 1 && i == if n <= skip + size then 0 else n - skip - size
  }

  lemma ReversedSlice<T>(a: seq<T>, i: nat, j: nat)
    requires i <= j < |a|
    ensures Reverse(a)[|a| - 1 - j..|a| - i] == Reverse(a[i..j+1])
  {
  }

  lemma PageIsSlice<T>(a: seq<T>, direction: SearchDirection, skip: nat, size: nat, i: nat, j: nat)
    requires skip < |a| && size > 0 && IsPageSlice(|a|, direction, skip, size, i, j)
    ensures Page(Directed(direction, a), skip, size) == Directed(direction, a[i..j+1])
    ensures skip < |Directed(direction, a)| == |a| && Directed(direction, a)[skip] == if direction.ASC? then a[i] else a[j]
  {
    hide Reverse;
    if direction.ASC? {
      assert Page(a, skip, size) == a[i..j+1];
    } else {
      ReversedSlice(a, i, j);
      assert Page(Reverse(a), skip, size) == Reverse(a)[|a| - 1 - j..|a| - i];
    }
  }

  lemma DirectedShort<T>(direction: SearchDirection, s: seq<T>)
    ensures |s| == 1 ==> Directed(direction, s) == [s[0]]
    ensures |s| == 2 ==> Directed(direction, s) == if direction.ASC? then [s[0], s[1]] else [s[1], s[0]]
  {
  }

  lemma PageFromSlice<T>(a: seq<T>, direction: SearchDirection, skip: nat, size: nat, i: nat, j: nat)
    requires skip < |a| && size > 0 && IsPageSlice(|a|, direction, skip, size, i, j)
    ensures
      var page, first, last := PageWithRepeat(Directed(direction, a), skip, size),
                               if direction.ASC? then a[i] else a[j], if direction.ASC? then a[j] else a[i];
      if size == 1 || |a| == 1 then page == [first]
      else if size == 2 || |a| == 2 then page == [first, last]
      else page == Directed(direction, a[i..j+1])
  {
    hide Page, Directed, Reverse;
    PageIsSlice(a, direction, skip, size, i, j);
    DirectedShort(direction, a[i..j+1]);
    if size == 1 || |a| == 1 {
      assert i == j;
    } else if size == 2 || |a| == 2 {
      assert RepeatsLast(|a|, skip, size) <==> i == j;
    }
  }

  lemma RepeatIsWrong<T>(all: seq<T>, skip: nat, size: nat)
    ensures PageWithRepeat(all, skip, size) == Page(all, skip, size) <==> !RepeatsLast(|all|, skip, size)
  {
  }

  lemma WrapShortens(p: Pagination)
    ensures if p.EntriesBefore() < UINT32_RANGE then p.SkipEntriesCount() == p.EntriesBefore()
            else p.SkipEntriesCount() < p.EntriesBefore()
  {
  }

  /** Pages that begin differently are equal only if both are empty. */
  lemma OtherPage<T>(given: seq<T>, skip: nat, wanted: seq<T>, before: nat, size: nat)
    requires skip < |given| && before < |wanted| ==> given[skip] != wanted[before]
    ensures Page(given, skip, size) == Page(wanted, before, size) <==> |given| <= skip && |wanted| <= before
  {
    if skip < |given| {
      assert Page(given, skip, size)[0] == given[skip];
      if before < |wanted| { assert Page(wanted, before, size)[0] == wanted[before]; }
    } else if before < |wanted| {
      assert Page(wanted, before, size)[0] == wanted[before];
    }
  }

  lemma DirectedIsDistinct<T(!new)>(direction: SearchDirection, s: seq<T>)
    requires Distinct(s)
    ensures Distinct(Directed(direction, s))
  {
    var r := Reverse(s);
    forall i, j | 0 <= i < j < |r| ensures r[i] != r[j] {
      assert r[i] == s[|s| - 1 - i] && r[j] == s[|s| - 1 - j];
    }
  }

  /** The wrap-around of the skip count is harmless exactly when both counts skip everything. */
  lemma WrapMatters<T(!new)>(all: seq<T>, p: Pagination)
    requires p.Ok() && Distinct(all)
    ensures Page(all, p.SkipEntriesCount(), p.size) == Page(all, p.EntriesBefore(), p.size)
       <==> p.EntriesBefore() < UINT32_RANGE || |all| <= p.SkipEntriesCount()
  {
    WrapShortens(p);
    if UINT32_RANGE <= p.EntriesBefore() {
      OtherPage(all, p.SkipEntriesCount(), all, p.EntriesBefore(), p.size);
    }
  }
}
