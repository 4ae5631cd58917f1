/** The transaction index kept in month buckets and balance lists. */
module BucketIndex {
  import opened Wrappers
  import opened Dictionary
  import opened ConfirmedTx
  import opened Filters
  import opened RangeUtils
  import opened MonthEntries
  import opened BalanceHistory
  import opened Addresses
  import opened BucketSearch
  import opened Primitives

  /** What is entered for a transaction; keys are the entries of the public key dictionary. */
  ghost predicate Books(b: Booking, tx: Tx, keys: seq<RawKey>) {
    && b.ym == ConfirmedMonth(tx)
    && b.entry.transactionNr == tx.txNr && b.entry.transactionType == tx.transactionType
    && b.entry.coinCommunityIdIndex == (if tx.coinCommunityIdIndex != 0 then tx.coinCommunityIdIndex else tx.txCommunityIdIndex)
    && (forall n :: (b.entry.Involves(n) <==> exists k :: k != EMPTY && tx.Takes(k, keys) && k.publicKeyIndex == n))
    && (forall n :: (b.entry.Changes(n) <==> tx.Own(n) != EMPTY && tx.IsBalanceUpdated(tx.Own(n))))
  }

  type BalanceLists = map<nat, seq<BalanceEntry>>

  function ListOf(m: BalanceLists, k: nat): seq<BalanceEntry> {
    if k in m then m[k] else []
  }

  ghost predicate BalancesHold(m: BalanceLists, h: seq<Booking>) {
    forall k :: ListOf(m, k) == BalanceList(h, k)
  }

  /** A key with an address type knows its last balance change, unless that came before it got the type. */
  ghost predicate LastChangesHold(a: AddressTable, h: seq<Booking>) {
    forall k :: LastChangeOf(a, k) == 0 || LastChangeOf(a, k) == LastChange(h, k)
  }

  /** Key k has a bit among the first n positions. */
  ghost predicate ChangesBefore(e: Entry, n: nat, k: nat)
    requires n <= |e.addressIndices|
  {
    exists i :: 0 <= i < n && i in e.isBalanceChanging && e.addressIndices[i] == k
  }

  /** How many bits key k has among the first n positions. */
  ghost function BitsBefore(e: Entry, n: nat, k: nat): nat
    requires n <= |e.addressIndices|
  {
    if n == 0 then 0
    else BitsBefore(e, n - 1, k) + if n - 1 in e.isBalanceChanging && e.addressIndices[n-1] == k then 1 else 0
  }

  function Copies<T>(x: T, n: nat): seq<T> {
    seq(n, _ => x)
  }

  /** The first n bits of the entry are in the lists: once for each bit. */
  ghost predicate BalancesEntered(m: BalanceLists, b: Booking, n: nat, m': BalanceLists)
    requires n <= |b.entry.addressIndices|
  {
    forall k :: ListOf(m', k) == ListOf(m, k) + Copies(b.AsBalance(), BitsBefore(b.entry, n, k))
  }

  lemma NothingEntered(m: BalanceLists, b: Booking)
    ensures BalancesEntered(m, b, 0, m)
  {
    hide ListOf;
  }

  lemma BitEntered(m: BalanceLists, b: Booking, n: nat, before: BalanceLists, m': BalanceLists)
    requires n < |b.entry.addressIndices| && BalancesEntered(m, b, n, before)
    requires var k := b.entry.addressIndices[n];
      m' == if n in b.entry.isBalanceChanging then before[k := ListOf(before, k) + [b.AsBalance()]] else before
    ensures BalancesEntered(m, b, n + 1, m')
  {
    hide Copies, Booking.AsBalance;
    forall k ensures ListOf(m', k) == ListOf(m, k) + Copies(b.AsBalance(), BitsBefore(b.entry, n + 1, k)) {
      OneMore(ListOf(m, k), b.AsBalance(), BitsBefore(b.entry, n, k));
    }
  }

  lemma OneMore<T>(l: seq<T>, x: T, n: nat)
    ensures l + Copies(x, n + 1) == l + Copies(x, n) + [x]
  {
  }

  /** No key has two positions of the bit mask. */
  ghost predicate BitsAreDistinct(e: Entry) {
    forall i, j :: 0 <= i < j < |e.addressIndices| && i in e.isBalanceChanging && j in e.isBalanceChanging ==>
      e.addressIndices[i] != e.addressIndices[j]
  }

  lemma {:induction false} DistinctBits(e: Entry, n: nat, k: nat)
    requires n <= |e.addressIndices| && BitsAreDistinct(e)
    ensures BitsBefore(e, n, k) == if ChangesBefore(e, n, k) then 1 else 0
  {
    if n != 0 { DistinctBits(e, n - 1, k); }
  }

  lemma BalancesStay(m: BalanceLists, h: seq<Booking>, b: Booking, m': BalanceLists)
    requires BalancesHold(m, h) && BalancesEntered(m, b, |b.entry.addressIndices|, m') && BitsAreDistinct(b.entry)
    ensures BalancesHold(m', h + [b])
  {
    forall k ensures ListOf(m', k) == BalanceList(h + [b], k) {
      BalancesNext(h, b, k);
      DistinctBits(b.entry, |b.entry.addressIndices|, k);
      assert ChangesBefore(b.entry, |b.entry.addressIndices|, k) <==> b.entry.Changes(k);
    }
  }

  lemma LastChangesStay(a: AddressTable, h: seq<Booking>, b: Booking, tx: Tx, keys: seq<RawKey>, a': AddressTable)
    requires LastChangesHold(a, h) && Followed(a, tx, a') && Books(b, tx, keys) && tx.txCommunityIdIndex != 0
    ensures LastChangesHold(a', h + [b])
  {
    forall k ensures LastChangeOf(a', k) == 0 || LastChangeOf(a', k) == LastChange(h + [b], k) {
      BalancesNext(h, b, k);
      assert HasAccount(tx, |tx.accountBalances|, k) <==> b.entry.Changes(k);
    }
  }

  ghost function BucketPosition(minYm: YearMonth, ym: YearMonth): int {
    ym.Number() - (if minYm.IsUnset() then ym else minYm).Number()
  }

  /** When the protected overload does not throw: there is room for four keys, and numbers ascend in a bucket. */
  ghost predicate FitsIndex(minNr: nat, minYm: YearMonth, buckets: seq<seq<Entry>>, nr: nat, keyCount: nat, ym: YearMonth) {
    && (minNr == 0 || minNr <= nr)
    && 0 <= BucketPosition(minYm, ym) < |buckets| + RESIZE_STEP && keyCount <= 4
    && (BucketPosition(minYm, ym) < |buckets| && buckets[BucketPosition(minYm, ym)] != [] ==>
      Last(buckets[BucketPosition(minYm, ym)]).transactionNr < nr)
  }

  /** The fields of the index, with the table of its address index. */
  datatype State = State(minNr: nat, maxNr: nat, minYm: YearMonth, maxYm: YearMonth, buckets: seq<seq<Entry>>,
                         balances: BalanceLists, addresses: AddressTable)
  {
    /** Every part agrees with the history. */
    ghost predicate Holds(h: seq<Booking>) {
      Follows(h, minNr, maxNr, minYm, maxYm, buckets) && BalancesHold(balances, h) && LastChangesHold(addresses, h)
    }

    ghost predicate Fits(nr: nat, keyCount: nat, ym: YearMonth) {
      FitsIndex(minNr, minYm, buckets, nr, keyCount, ym)
    }

    /** The state after an entry went in. */
    ghost predicate Added(b: Booking, s: State) {
      && s.minNr == (if minNr == 0 then b.Nr() else minNr)
      && s.maxNr == (if maxNr < b.Nr() then b.Nr() else maxNr)
      && s.minYm == (if minYm.IsUnset() then b.ym else minYm)
      && s.maxYm == (if maxYm.Less(b.ym) then b.ym else maxYm)
      && BucketPosition(minYm, b.ym) >= 0
      && BucketsAdded(buckets, BucketPosition(minYm, b.ym), b.entry, s.buckets)
      && BalancesEntered(balances, b, |b.entry.addressIndices|, s.balances)
      && s.addresses == addresses
    }

    /** The number bounds, moved before anything else is looked at. */
    function WithNumber(nr: nat): State {
      this.(minNr := if minNr == 0 then nr else minNr, maxNr := if maxNr < nr then nr else maxNr)
    }

    /** What a refused entry leaves: the bounds and buckets moved up to the check that failed. */
    ghost function Refused(nr: nat, ym: YearMonth): State {
      var position := BucketPosition(minYm, ym);
      if minNr != 0 && nr < minNr then WithNumber(nr)
      else if !(0 <= position < |buckets| + RESIZE_STEP) then
        WithNumber(nr).(buckets := buckets + EmptyBuckets(RESIZE_STEP))
      else
        WithNumber(nr).(minYm := if minYm.IsUnset() then ym else minYm, maxYm := if maxYm.Less(ym) then ym else maxYm,
                        buckets := buckets + EmptyBuckets(if position < |buckets| then 0 else RESIZE_STEP))
    }

    /** A transaction is refused before the buckets are looked at. */
    ghost predicate RefusesEarly(tx: Tx) {
      (minNr != 0 && tx.txNr < minNr) || !HasInvolvedAddresses(tx) || !CanRegister(addresses, tx)
    }

    /** What a refused transaction leaves; refused late, it has already reached the address index. */
    ghost predicate LeftBy(tx: Tx, s: State) {
      if RefusesEarly(tx) then
        && s == WithNumber(tx.txNr).(addresses := s.addresses)
        && (forall k :: LastChangeOf(s.addresses, k) == LastChangeOf(addresses, k))
      else
        s == Refused(tx.txNr, ConfirmedMonth(tx)).(addresses := s.addresses) && Followed(addresses, tx, s.addresses)
    }

    /** Moving the number bounds ahead, or once more after a refusal, changes nothing about what comes of an entry. */
    lemma MovedAhead(b: Booking, keyCount: nat, a: AddressTable, s: State)
      ensures WithNumber(b.Nr()).(addresses := a).Added(b, s) <==> this.(addresses := a).Added(b, s)
      ensures minNr == 0 || minNr <= b.Nr() ==>
        && (WithNumber(b.Nr()).(addresses := a).Fits(b.Nr(), keyCount, b.ym) <==> Fits(b.Nr(), keyCount, b.ym))
        && WithNumber(b.Nr()).(addresses := a).Refused(b.Nr(), b.ym) == Refused(b.Nr(), b.ym).(addresses := a)
    {
      hide BucketsAdded, BalancesEntered;
    }
  }

  /** The month a transaction was confirmed in. */
  function ConfirmedMonth(tx: Tx): YearMonth {
    YearMonth(tx.confirmedAt.year, tx.confirmedAt.month)
  }

  ghost predicate ComesNext(h: seq<Booking>, tx: Tx) {
    && tx.txCommunityIdIndex != 0 && tx.confirmedAt.Ok()
    && if h == [] then tx.txNr != 0 else tx.txNr == Last(h).Nr() + 1 && !ConfirmedMonth(tx).Less(Last(h).ym)
  }

  /** A moved bound is out of step with the history exactly if it lies above it. */
  lemma MovedBounds(s: State, h: seq<Booking>, nr: nat, addresses: AddressTable)
    requires s.Holds(h) && forall k :: LastChangeOf(addresses, k) == LastChangeOf(s.addresses, k)
    ensures s.WithNumber(nr).(addresses := addresses).Holds(h) <==> nr <= s.maxNr
  {
    hide InMonths, BucketsHold, BalancesHold;
    if h != [] {
      assert h[0].Nr() != 0;
    }
  }

  lemma RefusalMovesBounds(s: State, h: seq<Booking>, tx: Tx, s': State)
    requires s.Holds(h) && s.LeftBy(tx, s')
    ensures s.RefusesEarly(tx) ==> (s'.Holds(h) <==> tx.txNr <= s.maxNr)
    ensures tx.txNr > s.maxNr ==> !s'.Holds(h) && s'.maxNr == tx.txNr
  {
    hide HistoryOrder, InMonths, BucketsHold, BalancesHold, LastChangesHold, Followed, HasInvolvedAddresses, CanRegister;
    if s.RefusesEarly(tx) {
      MovedBounds(s, h, tx.txNr, s'.addresses);
    }
  }

  /** The index keeps agreeing with its history when the next transaction is booked. */
  lemma BookingKeepsState(s: State, h: seq<Booking>, b: Booking, tx: Tx, addresses: seq<PublicKeyIndex>, keys: seq<RawKey>, s': State)
    requires s.Holds(h) && ComesNext(h, tx) && b.ym == ConfirmedMonth(tx)
    requires |addresses| <= 4 && AddressesOf(tx, addresses, keys) && EntryOf(tx, addresses, b.entry)
    requires s.(addresses := s'.addresses).Added(b, s') && Followed(s.addresses, tx, s'.addresses)
    ensures s'.Holds(h + [b]) && Books(b, tx, keys)
  {
    hide HistoryOrder, InMonths, BucketsHold, BalancesHold, LastChangesHold, BalancesEntered, Followed;
    EntryBooks(tx, addresses, b.entry, keys);
    hide EntryOf, AddressesOf, BitsAreDistinct;
    NextIsOrdered(h, b);
    FollowsNext(h, s.minNr, s.maxNr, s.minYm, s.maxYm, s.buckets, b, BucketPosition(s.minYm, b.ym), s'.minYm, s'.buckets);
    BalancesStay(s.balances, h, b, s'.balances);
    LastChangesStay(s.addresses, h, b, tx, keys, s'.addresses);
  }

  ghost function FirstInstant(ym: YearMonth): Timepoint {
    Timepoint(Date(ym.year, ym.month, 1), 0)
  }

  class TransactionsIndex {
    const communityIdIndex: nat
    const addressIndex: AddressIndex
    var minTransactionNr: nat
    var maxTransactionNr: nat
    var minYearMonth: YearMonth
    var maxYearMonth: YearMonth
    var yearMonthEntries: seq<seq<Entry>>
    var balanceChangingTx: BalanceLists
    ghost var history: seq<Booking>    // everything added so far

    ghost predicate BucketsInv()
      reads this
    {
      Follows(history, minTransactionNr, maxTransactionNr, minYearMonth, maxYearMonth, yearMonthEntries)
    }

    ghost predicate Valid()
      reads this, addressIndex
    {
      addressIndex.communityIdIndex == communityIdIndex && Now().Holds(history)
    }

    ghost function Now(): State
      reads this, addressIndex
    {
      State(minTransactionNr, maxTransactionNr, minYearMonth, maxYearMonth, yearMonthEntries, balanceChangingTx,
            addressIndex.addresses)
    }

    constructor (communityIdIndex: nat)
      ensures Valid() && history == [] && this.communityIdIndex == communityIdIndex
      ensures fresh(addressIndex) && Now() == State(0, 0, NO_MONTH, NO_MONTH, EmptyBuckets(RESIZE_STEP), map[], map[])
    {
      this.communityIdIndex := communityIdIndex;
      addressIndex := new AddressIndex(communityIdIndex);
      minTransactionNr, maxTransactionNr, minYearMonth, maxYearMonth := 0, 0, NO_MONTH, NO_MONTH;
      yearMonthEntries, balanceChangingTx, history := EmptyBuckets(RESIZE_STEP), map[], [];
      new;
      NothingFollows(history, minYearMonth, yearMonthEntries);
    }

    // ---------- months and bucket positions ----------

    /** Fails for months outside the index; an empty index has only the first bucket. */
    function YearMonthToIndex(ym: YearMonth): Result<nat, TxError>
      reads this
    {
      if minYearMonth.IsUnset() then Success(0)
      else if ym.Less(minYearMonth) || maxYearMonth.Less(ym) then Failure(InvalidData)
      else
        var index := (ym.year - minYearMonth.year) * 12 + (ym.month - minYearMonth.month);
        if index < 0 then Failure(InvalidData) else Success(index)
    }

    function IndexToYearMonth(index: nat): YearMonth
      reads this
    {
      var years, month := index / 12, index % 12 + minYearMonth.month;
      if month > 12 then YearMonth(minYearMonth.year + years + 1, month - 12)
      else YearMonth(minYearMonth.year + years, month)
    }

    /** The two conversions undo each other. */
    lemma MonthIndexRoundTrip(index: nat, ym: YearMonth)
      requires minYearMonth.Ok() && maxYearMonth.Ok() && ym.Ok()
      ensures IndexToYearMonth(index).Ok() && IndexToYearMonth(index).Number() == minYearMonth.Number() + index
      ensures YearMonthToIndex(ym) == Success(index) <==> ym == IndexToYearMonth(index) && !maxYearMonth.Less(ym)
      ensures YearMonthToIndex(ym).Failure? <==> ym.Less(minYearMonth) || maxYearMonth.Less(ym)
    {
      var back := IndexToYearMonth(index);
      assert back.Number() == minYearMonth.Number() + index;
      if ym.Number() == back.Number() {
        assert ym.year == back.year && ym.month == back.month;
      }
    }

    lemma BucketOfMonth(ym: YearMonth)
      requires BucketsInv() && ym.Ok()
      requires history != [] ==> minYearMonth.Number() <= ym.Number() <= maxYearMonth.Number()
      ensures var i := YearMonthToIndex(ym);
        i.Success? && i.value < |yearMonthEntries| && yearMonthEntries[i.value] == InMonths(history, ym.Number(), ym.Number())
    {
      if history != [] {
        assert history[|history|-1].ym.Ok();
      } else {
        NoMonths(history, ym.Number(), ym.Number());
        NoMonths(history, 0, 0);
      }
    }

    /** The first and last number of a month, {0, 0} if there is none. */
    method FindTransactionsForMonthYear(ym: YearMonth) returns (first: nat, last: nat)
      requires BucketsInv() && ym.Ok()
      ensures first == last == 0 <==> forall i :: 0 <= i < |history| ==> history[i].ym != ym
      ensures !(first == last == 0) ==>
        forall i :: 0 <= i < |history| ==> (first <= history[i].Nr() <= last <==> history[i].ym == ym)
    {
      var index := YearMonthToIndex(ym);
      if history != [] && minYearMonth.Number() <= ym.Number() <= maxYearMonth.Number() {
        BucketOfMonth(ym);
      }
      MonthRange(ym);
      if index.Failure? {
        return 0, 0;
      }
      var bucket := yearMonthEntries[index.value];
      if bucket == [] {
        return 0, 0;
      }
      return bucket[0].transactionNr, bucket[|bucket|-1].transactionNr;
    }

    lemma MonthRange(ym: YearMonth)
      requires BucketsInv() && ym.Ok()
      ensures var es := InMonths(history, ym.Number(), ym.Number());
        && (es == [] <==> forall i :: 0 <= i < |history| ==> history[i].ym != ym)
        && (es != [] ==> forall i :: 0 <= i < |history| ==>
             (es[0].transactionNr <= history[i].Nr() <= Last(es).transactionNr <==> history[i].ym == ym))
        && (es != [] ==> es[0].transactionNr != 0)
    {
      var m := ym.Number();
      var es := InMonths(history, m, m);
      MonthsHoldRun(history, m, m);
      if es != [] {
        InMonthsHolds(history, m, m, es[0]);
      }
      forall i | 0 <= i < |history|
        ensures history[i].ym == ym ==> es != []
        ensures es != [] ==> (es[0].transactionNr <= history[i].Nr() <= Last(es).transactionNr <==> history[i].ym == ym)
      {
        assert history[i].ym.Ok();
        InMonthsHolds(history, m, m, history[i].entry);
        if es != [] {
          InMonthsHolds(history, m, m, Last(es));
          BetweenOfMonth(history, m, es[0], Last(es), i);
        }
      }
    }

    // ---------- adding a transaction ----------

    /** Fails for a number below the lowest one. */
    method TransactionNrUpdateBounds(nr: nat) returns (r: Result<(), TxError>)
      modifies `minTransactionNr, `maxTransactionNr
      ensures r.Success? <==> old(minTransactionNr) == 0 || old(minTransactionNr) <= nr
      ensures minTransactionNr == if old(minTransactionNr) == 0 then nr else old(minTransactionNr)
      ensures maxTransactionNr == if old(maxTransactionNr) < nr then nr else old(maxTransactionNr)
    {
      if nr > maxTransactionNr {
        maxTransactionNr := nr;
      }
      if minTransactionNr == 0 {
        minTransactionNr := nr;
      }
      return if nr < minTransactionNr then Failure(InvalidData) else Success(());
    }

    /** The bucket of a month; the month may not lie more than one resize step behind the buckets. */
    method YearMonthToIndexUpdateBounds(ym: YearMonth) returns (r: Result<nat, TxError>)
      modifies `minYearMonth, `maxYearMonth, `yearMonthEntries
      ensures
        var oldest := if old(minYearMonth).IsUnset() then ym else old(minYearMonth);
        var index := ym.Number() - oldest.Number();
        && (r.Success? <==> 0 <= index < |old(yearMonthEntries)| + 100)
        && (r.Success? ==>
          && r.value == index && minYearMonth == oldest
          && maxYearMonth == (if old(maxYearMonth).Less(ym) then ym else old(maxYearMonth))
          && yearMonthEntries == old(yearMonthEntries) + EmptyBuckets(if index < |old(yearMonthEntries)| then 0 else RESIZE_STEP))
        && (r.Failure? ==>
          && minYearMonth == old(minYearMonth) && maxYearMonth == old(maxYearMonth)
          && yearMonthEntries == old(yearMonthEntries) + EmptyBuckets(RESIZE_STEP))
    {
      var currentMin := minYearMonth;
      if minYearMonth.IsUnset() {
        minYearMonth := ym;
      }
      var index := (ym.year - minYearMonth.year) * 12 + (ym.month - minYearMonth.month);
      // a negative difference becomes a huge unsigned index
      if index < 0 || index >= |yearMonthEntries| {
        yearMonthEntries := yearMonthEntries + EmptyBuckets(RESIZE_STEP);
        if index < 0 || index >= |yearMonthEntries| {
          minYearMonth := currentMin;
          return Failure(InvalidData);
        }
      } else {
        assert yearMonthEntries == yearMonthEntries + EmptyBuckets(0);
      }
      if maxYearMonth.Less(ym) {
        maxYearMonth := ym;
      }
      return Success(index);
    }

    /** The loop over the bit mask. */
    method EnterBalances(e: Entry, ym: YearMonth)
      requires |e.addressIndices| <= 4
      modifies `balanceChangingTx
      ensures BalancesEntered(old(balanceChangingTx), Booking(e, ym), |e.addressIndices|, balanceChangingTx)
    {
      hide BalancesEntered;
      NothingEntered(balanceChangingTx, Booking(e, ym));
      for i := 0 to |e.addressIndices|
        invariant BalancesEntered(old(balanceChangingTx), Booking(e, ym), i, balanceChangingTx)
      {
        if i >= 8 { break; }
        ghost var before := balanceChangingTx;
        if i in e.isBalanceChanging {
          var k := e.addressIndices[i];
          var balanceEntry := BalanceEntry(e.transactionType, ym, e.coinCommunityIdIndex, e.transactionNr);
          balanceChangingTx :=
            balanceChangingTx[k := if k in balanceChangingTx then balanceChangingTx[k] + [balanceEntry] else [balanceEntry]];
          assert balanceChangingTx[k] == ListOf(before, k) + [Booking(e, ym).AsBalance()];
        }
        BitEntered(old(balanceChangingTx), Booking(e, ym), i, before, balanceChangingTx);
      }
    }

    /** The protected overload that enters a finished entry. */
    method AddEntry(e: Entry, ym: YearMonth) returns (r: Result<(), TxError>)
      modifies this
      ensures r.Success? <==> old(Now()).Fits(e.transactionNr, |e.addressIndices|, ym)
      ensures history == old(history)
      ensures r.Success? ==> old(Now()).Added(Booking(e, ym), Now())
      ensures r.Failure? ==> Now() == old(Now()).Refused(e.transactionNr, ym)
    {
      var _ :- TransactionNrUpdateBounds(e.transactionNr);
      var m :- YearMonthToIndexUpdateBounds(ym);
      if |e.addressIndices| > 4 {
        return Failure(TooManyKeys);
      }
      ghost var t := yearMonthEntries;
      var bucket := yearMonthEntries[m];
      if bucket != [] && bucket[|bucket|-1].transactionNr >= e.transactionNr {
        return Failure(InvalidData);
      }
      yearMonthEntries := yearMonthEntries[m := bucket + [e]];
      assert t == old(yearMonthEntries) + EmptyBuckets(|t| - |old(yearMonthEntries)|);
      EnterBalances(e, ym);
      return Success(());
    }

    /** The numbers of the involved keys, and a bit for each of the first seven whose balance changed. */
    static method MakeEntry(tx: Tx, addresses: seq<PublicKeyIndex>) returns (e: Entry)
      ensures EntryOf(tx, addresses, e)
    {
      var publicKeyIndices, bitMask: set<nat> := [], {};
      for i := 0 to |addresses|
        invariant |publicKeyIndices| == i
        invariant forall j :: 0 <= j < i ==> publicKeyIndices[j] == addresses[j].publicKeyIndex
        invariant forall j: nat :: j in bitMask <==> j < i && j < 7 && tx.IsBalanceUpdated(addresses[j])
      {
        publicKeyIndices := publicKeyIndices + [addresses[i].publicKeyIndex];
        if |publicKeyIndices| < 8 && tx.IsBalanceUpdated(addresses[i]) {
          bitMask := bitMask + {i};
        }
      }
      e := Entry(tx.transactionType, if tx.coinCommunityIdIndex != 0 then tx.coinCommunityIdIndex else tx.txCommunityIdIndex,
                 tx.txNr, publicKeyIndices, bitMask);
    }

    /** addIndicesForTransaction for a compact transaction, without the bookkeeping of the history. */
    method EnterTransaction(tx: Tx, dict: RuntimeDictionary<RawKey>)
      returns (r: Result<Entry, TxError>, ghost addresses: seq<PublicKeyIndex>)
      requires dict.Valid() && tx.FitsLayout()
      modifies this, addressIndex, dict
      ensures dict.Valid() && old(dict.indexDataLookup) <= dict.indexDataLookup && history == old(history)
      ensures r.Success? <==>
        && HasInvolvedAddresses(tx) && CanRegister(old(addressIndex.addresses), tx)
        && old(Now()).Fits(tx.txNr, |addresses|, ConfirmedMonth(tx))
      ensures addresses == [] || AddressesOf(tx, addresses, dict.indexDataLookup)
      ensures r.Success? ==> |addresses| <= 4 && AddressesOf(tx, addresses, dict.indexDataLookup)
      ensures r.Success? ==> forall s :: s in tx.SignatureKeys() ==> s in dict.indexDataLookup
      ensures r.Success? ==> EntryOf(tx, addresses, r.value)
      ensures r.Success? ==> old(Now()).(addresses := Now().addresses).Added(Booking(r.value, ConfirmedMonth(tx)), Now())
      ensures r.Success? ==> Followed(old(addressIndex.addresses), tx, addressIndex.addresses)
      ensures r.Failure? ==> old(Now()).LeftBy(tx, Now())
    {
      hide HasInvolvedAddresses, CanRegister, Followed, EntryOf, State.Added, State.Refused, BucketPosition, ConfirmedMonth;
      addresses := [];
      var _ :- TransactionNrUpdateBounds(tx.txNr);
      var involved :- GetInvolvedAddresses(tx, dict);
      addresses := involved;
      var e := MakeEntry(tx, involved);
      var _ :- addressIndex.AddTransaction(tx);
      assert Now() == old(Now()).WithNumber(tx.txNr).(addresses := addressIndex.addresses);
      ghost var known := addressIndex.addresses;
      var added := AddEntry(e, ConfirmedMonth(tx));
      old(Now()).MovedAhead(Booking(e, ConfirmedMonth(tx)), |involved|, known, Now());
      var _ :- added;
      return Success(e), addresses;
    }

    method AddTransaction(tx: Tx, dict: RuntimeDictionary<RawKey>)
      returns (r: Result<(), TxError>, ghost addresses: seq<PublicKeyIndex>)
      requires Valid() && dict.Valid() && tx.FitsLayout()
      modifies this, addressIndex, dict
      ensures dict.Valid() && old(dict.indexDataLookup) <= dict.indexDataLookup
      ensures r.Success? <==>
        && HasInvolvedAddresses(tx) && CanRegister(old(addressIndex.addresses), tx)
        && old(Now()).Fits(tx.txNr, |addresses|, ConfirmedMonth(tx))
      ensures addresses == [] || AddressesOf(tx, addresses, dict.indexDataLookup)
      ensures r.Success? ==> AddressesOf(tx, addresses, dict.indexDataLookup)
      ensures r.Success? ==> forall s :: s in tx.SignatureKeys() ==> s in dict.indexDataLookup
      ensures r.Success? ==> Followed(old(addressIndex.addresses), tx, addressIndex.addresses)
      ensures r.Success? && ComesNext(old(history), tx) ==>
        && Valid() && |history| == |old(history)| + 1 && history == old(history) + [Last(history)]
        && Books(Last(history), tx, dict.indexDataLookup)
      ensures r.Failure? ==> history == old(history) && old(Now()).LeftBy(tx, Now())
      ensures r.Failure? && old(Now()).RefusesEarly(tx) ==> (Valid() <==> tx.txNr <= old(maxTransactionNr))
      ensures r.Failure? && tx.txNr > old(maxTransactionNr) ==> !Valid() && maxTransactionNr == tx.txNr
    {
      hide Follows, BalancesHold, LastChangesHold, HasInvolvedAddresses, CanRegister, FitsIndex, State.Added, AddressesOf, EntryOf,
           Books, Followed, State.RefusesEarly, State.LeftBy;
      var entry;
      entry, addresses := EnterTransaction(tx, dict);
      if entry.Failure? {
        RefusalMovesBounds(old(Now()), history, tx, Now());
        return Failure(entry.error), addresses;
      }
      ghost var b := Booking(entry.value, ConfirmedMonth(tx));
      if ComesNext(history, tx) {
        BookingKeepsState(old(Now()), history, b, tx, addresses, dict.indexDataLookup, Now());
      }
      history := history + [b];
      r := Success(());
    }

    // ---------- the search through the buckets ----------

    function Span(): TimepointInterval
      reads this
    {
      TimepointInterval(minYearMonth.Start(), maxYearMonth.Start())
    }

    function FilteredTimepointInterval(f: CompactFilter): TimepointInterval
      reads this
    {
      var interval, wanted := Span(), f.timepointInterval;
      if wanted.IsEmpty() || !wanted.IsOverlap(interval) then interval
      else TimepointInterval(if interval.start.Less(wanted.start) then wanted.start else interval.start,
                             if wanted.end.Less(interval.end) then wanted.end else interval.end)
    }

    /**
     The interval begins behind the first instant of the month of the last booking, or ends before the first
     instant of the month of the first one. An index that knows no month, or none but the one that begins at the
     epoch, is missed by every interval.
     */
    ghost predicate MissesIndex(f: CompactFilter)
      reads this
    {
      var i := f.timepointInterval;
      && (i.start != EPOCH || i.end != EPOCH)
      && (|| history == []
          || FirstInstant(Last(history).ym).Less(i.start) || i.end.Less(FirstInstant(history[0].ym))
          || FirstInstant(history[0].ym) == FirstInstant(Last(history).ym) == EPOCH)
    }

    /** The code's test for it. */
    lemma MissingIsNoOverlap(f: CompactFilter)
      requires BucketsInv() && f.Ok()
      ensures MissesIndex(f) <==> !f.timepointInterval.IsEmpty() && !f.timepointInterval.IsOverlap(Span())
    {
      hide InMonths;
      if history != [] {
        assert history[0].ym.Ok() && history[|history|-1].ym.Ok();
      }
    }

    /** The months of the interval are months of the index. */
    ghost predicate InsideIndex(interval: TimepointInterval)
      reads this
    {
      interval.Ordered() && (history != [] ==>
        minYearMonth.Number() <= MonthOf(interval.start).Number() && MonthOf(interval.end).Number() <= maxYearMonth.Number())
    }

    /** A filtered interval is well formed and covers the wanted months of the index, or all of them. */
    lemma FilteredIntervalFits(f: CompactFilter)
      requires BucketsInv() && f.Ok()
      ensures
        var i, wanted := FilteredTimepointInterval(f), f.timepointInterval;
        var lo, hi := MonthOf(wanted.start).Number(), MonthOf(wanted.end).Number();
        && InsideIndex(i)
        && forall k :: 0 <= k < |history| ==>
          (MonthOf(i.start).Number() <= history[k].Month() <= MonthOf(i.end).Number() <==>
           (wanted.IsEmpty() || MissesIndex(f) || lo <= history[k].Month() <= hi))
    {
      MissingIsNoOverlap(f);
      if history != [] {
        assert history[|history|-1].ym.Ok() && history[0].ym.Ok();
        forall k | 0 <= k < |history| ensures minYearMonth.Number() <= history[k].Month() <= maxYearMonth.Number() {
          assert k > 0 ==> history[0].Month() <= history[k].Month();
          assert k < |history| - 1 ==> history[k].Month() <= history[|history|-1].Month();
        }
      }
    }

    /** The months of the filtered interval: those of the interval that lie between the first and the last booking. */
    lemma FilteredMonths(f: CompactFilter)
      requires BucketsInv() && f.Ok() && history != []
      ensures
        var i, wanted := FilteredTimepointInterval(f), f.timepointInterval;
        var first, last, whole := history[0].Month(), Last(history).Month(), wanted.IsEmpty() || MissesIndex(f);
        var lo, hi := MonthOf(wanted.start).Number(), MonthOf(wanted.end).Number();
        && MonthOf(i.start).Number() == (if whole || lo < first then first else lo)
        && MonthOf(i.end).Number() == (if whole || last < hi then last else hi)
    {
      hide InMonths;
      MissingIsNoOverlap(f);
      assert history[0].ym.Ok() && history[|history|-1].ym.Ok();
    }

    method BucketOf(ym: YearMonth) returns (bucket: seq<Entry>)
      requires BucketsInv() && ym.Ok()
      requires history != [] ==> minYearMonth.Number() <= ym.Number() <= maxYearMonth.Number()
      ensures bucket == InMonths(history, ym.Number(), ym.Number())
    {
      BucketOfMonth(ym);
      bucket := yearMonthEntries[YearMonthToIndex(ym).value];
    }

    method SearchAscending(f: CompactFilter, interval: TimepointInterval) returns (result: seq<nat>)
      requires BucketsInv() && InsideIndex(interval) && f.searchDirection.ASC?
      ensures IsPageOf(result, Scan(history, f, MonthOf(interval.start).Number(), MonthOf(interval.end).Number()), f.pagination)
    {
      hide InMonths, Used, HistoryOrder;
      result := [];
      var paginationCursor, done := 0, false;
      var it, end := MonthOf(interval.start), MonthOf(interval.end).Next();
      ghost var lo, hi := it.Number(), end.Number() - 1;
      EmptyScan(history, f, lo, lo - 1);
      while it != end
        invariant it.Ok() && lo <= it.Number() <= hi + 1
        invariant IsPageOf(result, Scan(history, f, lo, it.Number() - 1), f.pagination)
        invariant paginationCursor == |Scan(history, f, lo, it.Number() - 1)|
        decreases hi + 1 - it.Number()
      {
        ghost var m := it.Number();
        ThreeParts(history, f, lo, m, hi);
        NothingAbove(history, f, m, hi);
        var bucket := BucketOf(it);
        result, paginationCursor, done :=
          VisitAscending(bucket, f, result, paginationCursor, Scan(history, f, lo, m - 1), Scan(history, f, m + 1, hi));
        if done {
          return;
        }
        it := it.Next();
      }
    }

    method SearchDescending(f: CompactFilter, interval: TimepointInterval) returns (result: seq<nat>)
      requires BucketsInv() && InsideIndex(interval) && f.searchDirection.DESC?
      ensures
        var lo, hi := MonthOf(interval.start).Number(), MonthOf(interval.end).Number();
        IsPageOf(result, Reverse(Scan(history, f, LowestSeen(history, f, lo), hi)), f.pagination)
    {
      hide InMonths, Used, HistoryOrder, Reverse, LowestSeen, MonthBelow;
      result := [];
      var paginationCursor, done := 0, false;
      var it, begin := MonthOf(interval.end).Next(), MonthOf(interval.start);
      ghost var lo, hi := begin.Number(), it.Number() - 1;
      ghost var low := LowestSeen(history, f, lo);
      EmptyScan(history, f, hi + 1, hi);
      ReverseEmpty();
      NothingFarBelow(history, f, lo, hi);
      while it != begin
        invariant it.Ok() && lo <= it.Number() <= hi + 1
        invariant IsPageOf(result, Reverse(Scan(history, f, it.Number(), hi)), f.pagination)
        invariant paginationCursor == |Reverse(Scan(history, f, it.Number(), hi))|
        invariant IsAboveMinimum(history, f, it.Number(), lo, hi)
        decreases it.Number()
      {
        it := it.Previous();
        ghost var m := it.Number();
        ThreeParts(history, f, lo, m, hi);
        var bucket := BucketOf(it);
        MonthPassed(history, f, m, lo, hi);
        DescendingEnds(history, f, m, lo, hi);
        ghost var here, seen, later := Scan(history, f, m, m), Scan(history, f, m + 1, hi), Scan(history, f, low, m - 1);
        ReverseConcat(here, seen);
        ReverseConcat(later, here + seen);
        result, paginationCursor, done := VisitDescending(bucket, f, result, paginationCursor, Reverse(seen), Reverse(later));
        if done {
          return;
        }
      }
      DescendingEnds(history, f, lo, lo, hi);
      BelowLowest(history, f, lo);
    }

    // ---------- queries ----------

    ghost function LastChangeOfKey(f: CompactFilter): nat
      reads this, addressIndex
    {
      if f.publicKeySearchType.BalanceChangingPublicKey? then LastChangeOf(addressIndex.addresses, f.publicKeyIndex.publicKeyIndex)
      else 0
    }

    /** The caller asks for the last balance change of a key, as far as the shortcut cares. */
    ghost predicate TakesShortcut(f: CompactFilter)
      reads this, addressIndex
    {
      var last := LastChangeOfKey(f);
      && last != 0 && f.minTransactionNr <= last && (f.maxTransactionNr == 0 || last <= f.maxTransactionNr)
      && f.pagination.size == 1 && f.pagination.page < 2 && f.searchDirection.DESC?
      && f.timepointInterval.IsEmpty() && f.coinCommunityIdIndex == 0
    }

    /** What findTransactions pages, in ascending order. */
    ghost function Answer(f: CompactFilter): seq<nat>
      reads this, addressIndex
    {
      if f.publicKeySearchType.MissingIndex? then []
      else if TakesShortcut(f) then [LastChangeOfKey(f)]
      else InBuckets(f)
    }

    /** What the search through the buckets finds. */
    ghost function InBuckets(f: CompactFilter): seq<nat>
      reads this
    {
      if MissesIndex(f) then []
      else
        var i := FilteredTimepointInterval(f);
        var lo := MonthOf(i.start).Number();
        Scan(history, f, if f.searchDirection.DESC? then LowestSeen(history, f, lo) else lo, MonthOf(i.end).Number())
    }

    /** The filter with the last balance change of the key as an upper bound. */
    ghost function Clamped(f: CompactFilter): CompactFilter
      reads this, addressIndex
    {
      var last := LastChangeOfKey(f);
      if last != 0 && (f.maxTransactionNr == 0 || f.maxTransactionNr > last) then f.(maxTransactionNr := last) else f
    }

    lemma ClampingChangesNothing(f: CompactFilter, lo: int, hi: int)
      requires Valid()
      ensures Scan(history, Clamped(f), lo, hi) == Scan(history, f, lo, hi)
      ensures LowestSeen(history, Clamped(f), lo) == LowestSeen(history, f, lo)
    {
      hide InMonths, Used, HistoryOrder, MonthBelow;
      if Clamped(f) != f {
        ClampIsHarmless(history, f, Clamped(f), lo, hi);
      }
    }

    /** A query whose number bounds lie outside the index wants nothing. */
    lemma OutOfBounds(f: CompactFilter, lo: int, hi: int)
      requires BucketsInv()
      requires (f.minTransactionNr != 0 && f.minTransactionNr > maxTransactionNr) ||
               (f.maxTransactionNr != 0 && f.maxTransactionNr < minTransactionNr)
      ensures Scan(history, f, lo, hi) == []
    {
      hide InMonths, Used;
      forall i | 0 <= i < |history| ensures minTransactionNr <= history[i].Nr() <= maxTransactionNr {
        assert history[|history|-1].Nr() == history[0].Nr() + |history| - 1 && history[i].Nr() == history[0].Nr() + i;
      }
      NothingWanted(history, f, lo, hi);
    }

    method FindInBuckets(f: CompactFilter, filter: CompactFilter) returns (result: seq<nat>)
      requires Valid() && f.Ok() && filter == Clamped(f)
      ensures IsPageOf(result, Directed(f.searchDirection, InBuckets(f)), f.pagination)
    {
      hide InMonths, Used, HistoryOrder, Reverse, LowestSeen, MonthBelow, Scan, FilteredTimepointInterval, BucketsHold,
           BalancesHold, LastChangesHold, BoundsHold, Page;
      NothingPaged(f.pagination);
      ReverseEmpty();
      var interval := FilteredTimepointInterval(f);
      ghost var lo, hi := MonthOf(interval.start).Number(), MonthOf(interval.end).Number();
      ClampingChangesNothing(f, lo, hi);
      ClampingChangesNothing(f, LowestSeen(history, f, lo), hi);
      if (filter.minTransactionNr != 0 && filter.minTransactionNr > maxTransactionNr) ||
         (filter.maxTransactionNr != 0 && filter.maxTransactionNr < minTransactionNr) {
        OutOfBounds(filter, lo, hi);
        OutOfBounds(filter, LowestSeen(history, f, lo), hi);
        return [];
      }
      MissingIsNoOverlap(f);
      if !f.timepointInterval.IsEmpty() && !f.timepointInterval.IsOverlap(Span()) {
        return [];
      }
      FilteredIntervalFits(f);
      if filter.searchDirection.ASC? {
        result := SearchAscending(filter, interval);
      } else {
        result := SearchDescending(filter, interval);
      }
    }

    /** Fails only for a balance query with a key of another community. */
    method FindTransactions(f: CompactFilter) returns (r: Result<seq<nat>, TxError>)
      requires Valid() && f.Ok()
      ensures r.Failure? <==>
        f.publicKeySearchType.BalanceChangingPublicKey? && f.publicKeyIndex.communityIdIndex != communityIdIndex
      ensures r.Success? ==> IsPageOf(r.value, Directed(f.searchDirection, Answer(f)), f.pagination)
    {
      hide HistoryOrder, Reverse, InBuckets, BucketsHold, BalancesHold, LastChangesHold, BoundsHold, Page;
      var filter, last := f, 0;
      if f.publicKeySearchType.MissingIndex? {
        NothingPaged(f.pagination);
        ReverseEmpty();
        return Success([]);
      } else if f.publicKeySearchType.BalanceChangingPublicKey? {
        last :- addressIndex.LastBalanceChanged(f.publicKeyIndex);
        if last != 0 && (filter.maxTransactionNr == 0 || filter.maxTransactionNr > last) {
          filter := filter.(maxTransactionNr := last);
        }
      }
      if last != 0 && f.pagination.size == 1 && f.pagination.page < 2 && f.searchDirection.DESC?
         && f.timepointInterval.IsEmpty() && f.coinCommunityIdIndex == 0 {
        if last >= filter.minTransactionNr && last <= filter.maxTransactionNr {
          OnePage(last, f.pagination);
          return Success([last]);
        }
      }
      var result := FindInBuckets(f, filter);
      return Success(result);
    }

    // ---------- counting and balance lists ----------

    /** The slow count of one bucket; STOP is of no account here. */
    method CountMatching(bucket: seq<Entry>, f: CompactFilter) returns (n: nat)
      ensures n == |Picks(bucket, f)|
    {
      n := 0;
      assert bucket[0..] == bucket;
      for i := 0 to |bucket|
        invariant n + |Used(bucket[i..], Judge(f))| == |Picks(bucket, f)|
      {
        OneUsed(bucket, Judge(f), i, []);
        if bucket[i].IsMatchingFilter(f).use {
          n := n + 1;
        }
      }
    }

    method CountBucket(bucket: seq<Entry>, f: CompactFilter) returns (n: nat)
      requires bucket != [] && IsRun(bucket)
      requires f.publicKeySearchType.AnyPublicKey? || f.publicKeySearchType.InvolvedPublicKey? || f.publicKeySearchType.MissingCommunityId?
      ensures n == |Picks(bucket, f)|
    {
      if !f.transactionType.NoType? || !f.publicKeySearchType.AnyPublicKey? || f.coinCommunityIdIndex != 0 {
        n := CountMatching(bucket, f);
        return;
      }
      RunCount(bucket, f);
      var minTx, maxTx := bucket[0].transactionNr, bucket[|bucket|-1].transactionNr;
      if f.minTransactionNr != 0 && f.minTransactionNr > minTx {
        minTx := f.minTransactionNr;
      }
      if f.maxTransactionNr != 0 && f.maxTransactionNr < maxTx {
        maxTx := f.maxTransactionNr;
      }
      n := if maxTx >= minTx then maxTx - minTx + 1 else 0;
    }

    /** An interval that restricts nothing when bookings are counted, or balance changes of a key are. */
    ghost predicate CountsAll(f: CompactFilter)
      reads this
    {
      var i := f.timepointInterval;
      !i.IsEmpty() && if f.publicKeySearchType.BalanceChangingPublicKey? then i.start == EPOCH || i.end == EPOCH
                      else MissesIndex(f)
    }

    method CountTransactions(f: CompactFilter) returns (n: nat)
      requires Valid() && f.Ok()
      ensures n == |if CountsAll(f) && !f.publicKeySearchType.MissingIndex? then AllMonths(history, f) else ByNumber(history, f)|
    {
      hide InMonths, Used, HistoryOrder, BucketsHold, BalancesHold, LastChangesHold, Scan, FilteredTimepointInterval;
      if f.publicKeySearchType.MissingIndex? {
        return 0;
      } else if f.publicKeySearchType.BalanceChangingPublicKey? {
        var counted := CountBalanceChangingTxs(f);
        return counted.value;
      }
      var interval := FilteredTimepointInterval(f);
      ghost var lo, hi := MonthOf(interval.start).Number(), MonthOf(interval.end).Number();
      FilteredIntervalFits(f);
      SeenInInterval(f);
      n := 0;
      if (f.minTransactionNr != 0 && f.minTransactionNr > maxTransactionNr) ||
         (f.maxTransactionNr != 0 && f.maxTransactionNr < minTransactionNr) {
        OutOfBounds(f, lo, hi);
        return;
      }
      n := CountInterval(f, interval);
    }

    method CountInterval(f: CompactFilter, interval: TimepointInterval) returns (n: nat)
      requires BucketsInv() && InsideIndex(interval)
      requires f.publicKeySearchType.AnyPublicKey? || f.publicKeySearchType.InvolvedPublicKey? || f.publicKeySearchType.MissingCommunityId?
      ensures n == |Scan(history, f, MonthOf(interval.start).Number(), MonthOf(interval.end).Number())|
    {
      hide InMonths, Used, HistoryOrder;
      var it, end := MonthOf(interval.start), MonthOf(interval.end).Next();
      ghost var lo, hi := it.Number(), end.Number() - 1;
      EmptyScan(history, f, lo, lo - 1);
      n := 0;
      while it != end
        invariant it.Ok() && lo <= it.Number() <= hi + 1
        invariant n == |Scan(history, f, lo, it.Number() - 1)|
        decreases hi + 1 - it.Number()
      {
        ghost var m := it.Number();
        ThreeParts(history, f, lo, m, hi);
        NothingAbove(history, f, m, hi);
        var bucket := BucketOf(it);
        it := it.Next();
        if bucket == [] || (f.minTransactionNr != 0 && bucket[|bucket|-1].transactionNr < f.minTransactionNr) {
          NothingPicked(bucket, f);
          continue;
        }
        if f.maxTransactionNr != 0 && bucket[0].transactionNr > f.maxTransactionNr {
          NothingPicked(bucket, f);
          break;
        }
        var here := CountBucket(bucket, f);
        n := n + here;
      }
    }

    /** The months of the filtered interval: those asked for, or all of them when the interval misses the index. */
    lemma SeenInInterval(f: CompactFilter)
      requires BucketsInv() && f.Ok() && !f.publicKeySearchType.MissingIndex?
      ensures var i := FilteredTimepointInterval(f);
        Scan(history, f, MonthOf(i.start).Number(), MonthOf(i.end).Number())
        == if MissesIndex(f) then AllMonths(history, f) else ByNumber(history, f)
    {
      hide InMonths, Used, Scan;
      var h, i, w := history, FilteredTimepointInterval(f), f.timepointInterval;
      FilteredIntervalFits(f);
      MonthsOfHistory(h);
      SameScan(h, f, FirstMonth(h), LastMonth(h), f, if w.IsEmpty() || MissesIndex(f) then MonthOf(i.start).Number() else FirstMonth(h),
               if w.IsEmpty() || MissesIndex(f) then MonthOf(i.end).Number() else LastMonth(h));
      if !w.IsEmpty() && !MissesIndex(f) {
        SameScan(h, f, MonthOf(w.start).Number(), MonthOf(w.end).Number(), f, MonthOf(i.start).Number(), MonthOf(i.end).Number());
      }
    }

    method CountBalanceChangingTxs(f: CompactFilter) returns (r: Result<nat, TxError>)
      requires Valid() && f.Ok()
      ensures r.Failure? <==> !f.publicKeySearchType.BalanceChangingPublicKey?
      ensures r.Success? ==> r.value == |if CountsAll(f) then AllMonths(history, f) else ByNumber(history, f)|
    {
      hide InMonths, HistoryOrder, BucketsHold, LastChangesHold, BalanceList, Scan;
      if !f.publicKeySearchType.BalanceChangingPublicKey? {
        return Failure(InvalidData);
      }
      var k := f.publicKeyIndex.publicKeyIndex;
      var filterCopy := f.(timepointInterval := FilteredTimepointInterval(f), searchDirection := ASC);
      var startYm, endYm := AsYearMonth(f.timepointInterval.start), AsYearMonth(f.timepointInterval.end);
      ghost var list, judge := BalanceList(history, k), JudgeBalance(filterCopy, startYm, endYm);
      BalanceListAnswers(history, f, filterCopy, startYm, endYm);
      BalanceStopIsSafe(history, k, filterCopy, startYm, endYm);
      assert ListOf(balanceChangingTx, k) == list;
      if k !in balanceChangingTx {
        return Success(0);
      }
      if f.minTransactionNr == 0 && f.maxTransactionNr == 0 && f.transactionType.NoType? && f.timepointInterval.IsEmpty()
         && f.coinCommunityIdIndex == 0 {
        AllUsed(list, judge);
        return Success(|balanceChangingTx[k]|);
      }
      var entries, count := balanceChangingTx[k], 0;
      assert entries[0..] == entries;
      for i := 0 to |entries|
        invariant count + |Rest(list, judge, i)| == |UsedUntilStop(list, judge)|
      {
        OneElementFurther(list, judge, i, []);
        var result := entries[i].IsMatchingFilter(filterCopy, startYm, endYm);
        if result.use {
          count := count + 1;
        }
        if result.stop {
          return Success(count);
        }
      }
      return Success(count);
    }

    /** An interval that restricts nothing in a search through a balance list. */
    ghost predicate BalanceSeesAll(f: CompactFilter)
      reads this
    {
      var i := FilteredTimepointInterval(f);
      !f.timepointInterval.IsEmpty() && (MissesIndex(f) || i.start == EPOCH || i.end == EPOCH)
    }

    /** The search through the balance list of a key. */
    method FindTransactionsBalanceChangingForPublicKey(f: CompactFilter) returns (r: Result<seq<nat>, TxError>)
      requires Valid() && f.Ok()
      ensures r.Failure? <==> !f.publicKeySearchType.BalanceChangingPublicKey? || f.publicKeyIndex == EMPTY
      ensures r.Success? ==>
        IsPageOf(r.value, Directed(f.searchDirection, if BalanceSeesAll(f) then AllMonths(history, f) else ByNumber(history, f)),
                 f.pagination)
    {
      hide InMonths, Used, HistoryOrder, BucketsHold, LastChangesHold, BalanceList, UsedUntilStop, Scan, FilteredTimepointInterval;
      if !f.publicKeySearchType.BalanceChangingPublicKey? || f.publicKeyIndex == EMPTY {
        return Failure(InvalidData);
      }
      var k := f.publicKeyIndex.publicKeyIndex;
      var filter := f.(timepointInterval := FilteredTimepointInterval(f));
      var startYm, endYm := AsYearMonth(filter.timepointInterval.start), AsYearMonth(filter.timepointInterval.end);
      ghost var list, judge := BalanceList(history, k), JudgeBalance(filter, startYm, endYm);
      FilteredIntervalFits(f);
      SeenInInterval(f);
      BalanceListAnswers(history, f, filter, startYm, endYm);
      BalanceStopIsSafe(history, k, filter, startYm, endYm);
      UsedReverse(list, judge);
      assert ListOf(balanceChangingTx, k) == list;
      if k !in balanceChangingTx {
        NothingUsed(list, judge);
        NothingPaged(f.pagination);
        ReverseEmpty();
        return Success([]);
      }
      var results := IterateRangeInOrderCollectFiltered(balanceChangingTx[k], filter.searchDirection, filter.pagination,
                                                        JudgeBalance(filter, startYm, endYm));
      return Success(results);
    }
  }

  lemma NothingPaged(p: Pagination)
    ensures IsPageOf([], [], p)
  {
  }

  lemma OnePage(nr: nat, p: Pagination)
    requires p.page < 2 && p.size == 1
    ensures IsPageOf([nr], Reverse([nr]), p)
  {
    assert Reverse([nr]) == [nr];
  }

  lemma BelowLowest(h: seq<Booking>, f: CompactFilter, lo: int)
    ensures Scan(h, f, LowestSeen(h, f, lo), lo - 1) == []
  {
    EmptyScan(h, f, LowestSeen(h, f, lo), lo - 1);
  }

  lemma ReverseEmpty()
    ensures forall s: seq<nat> :: s == [] ==> Reverse(s) == []
  {
  }

  /** The addresses are those that take part in the transaction. */
  ghost predicate AddressesOf(tx: Tx, addresses: seq<PublicKeyIndex>, keys: seq<RawKey>) {
    ConfirmedTx.StrictlyAscending(addresses) && forall k :: k in addresses <==> k != EMPTY && tx.Takes(k, keys)
  }

  ghost predicate EntryOf(tx: Tx, addresses: seq<PublicKeyIndex>, e: Entry) {
    && e.transactionNr == tx.txNr && e.transactionType == tx.transactionType
    && e.coinCommunityIdIndex == (if tx.coinCommunityIdIndex != 0 then tx.coinCommunityIdIndex else tx.txCommunityIdIndex)
    && |e.addressIndices| == |addresses|
    && (forall i :: 0 <= i < |addresses| ==> e.addressIndices[i] == addresses[i].publicKeyIndex)
    && (forall i :: 0 <= i < |addresses| ==> (i in e.isBalanceChanging <==> i < 7 && tx.IsBalanceUpdated(addresses[i])))
  }

  lemma NextIsOrdered(h: seq<Booking>, b: Booking)
    requires HistoryOrder(h) && b.ym.Ok()
    requires if h == [] then b.Nr() != 0 else b.Nr() == Last(h).Nr() + 1 && !b.ym.Less(Last(h).ym)
    ensures HistoryOrder(h + [b])
  {
    var h' := h + [b];
    assert h'[|h|] == b && forall i :: 0 <= i < |h| ==> h'[i] == h[i];
    if h != [] {
      assert h[|h|-1].Nr() == h[0].Nr() + |h| - 1 && h[|h|-1].ym.Ok();
      assert forall i :: 0 <= i < |h| - 1 ==> h[i].Month() <= h[|h|-1].Month();
    }
  }

  /** The entry made for the involved addresses books the transaction. */
  lemma EntryBooks(tx: Tx, addresses: seq<PublicKeyIndex>, e: Entry, keys: seq<RawKey>)
    requires |addresses| <= 4 && AddressesOf(tx, addresses, keys) && EntryOf(tx, addresses, e)
    ensures Books(Booking(e, ConfirmedMonth(tx)), tx, keys)
    ensures BitsAreDistinct(e)
  {
    forall n ensures e.Involves(n) <==> exists k :: k != EMPTY && tx.Takes(k, keys) && k.publicKeyIndex == n {
      if k :| k != EMPTY && tx.Takes(k, keys) && k.publicKeyIndex == n {
        var i :| 0 <= i < |addresses| && addresses[i] == k;
        assert e.addressIndices[i] == n;
      }
      if e.Involves(n) {
        var i :| 0 <= i < |addresses| && e.addressIndices[i] == n;
        assert addresses[i] in addresses;
      }
    }
    forall n ensures e.Changes(n) <==> tx.Own(n) != EMPTY && tx.IsBalanceUpdated(tx.Own(n)) {
      if tx.Own(n) != EMPTY && tx.IsBalanceUpdated(tx.Own(n)) {
        assert tx.Own(n) in addresses;
        var i :| 0 <= i < |addresses| && addresses[i] == tx.Own(n);
        assert e.addressIndices[i] == n;
      }
      if e.Changes(n) {
        var i :| 0 <= i < |addresses| && i in e.isBalanceChanging && e.addressIndices[i] == n;
        assert addresses[i] in addresses && addresses[i] == tx.Own(n);
      }
    }
    forall i, j | 0 <= i < j < |addresses| && i in e.isBalanceChanging && j in e.isBalanceChanging
      ensures e.addressIndices[i] != e.addressIndices[j]
    {
      assert addresses[i].Less(addresses[j]);
    }
  }

  lemma BetweenOfMonth(h: seq<Booking>, m: int, first: Entry, last: Entry, i: nat)
    requires HistoryOrder(h) && i < |h|
    requires exists a :: 0 <= a < |h| && h[a].entry == first && m <= h[a].Month() <= m
    requires exists b :: 0 <= b < |h| && h[b].entry == last && m <= h[b].Month() <= m
    ensures first.transactionNr <= h[i].Nr() <= last.transactionNr ==> h[i].Month() == m
  {
    var a :| 0 <= a < |h| && h[a].entry == first && m <= h[a].Month() <= m;
    var b :| 0 <= b < |h| && h[b].entry == last && m <= h[b].Month() <= m;
    assert h[i].Nr() == h[0].Nr() + i && h[a].Nr() == h[0].Nr() + a && h[b].Nr() == h[0].Nr() + b;
    if a <= i <= b {
      assert a < i ==> h[a].Month() <= h[i].Month();
      assert i < b ==> h[i].Month() <= h[b].Month();
    }
  }
}
