/** The transaction index kept in bitmaps per key, type and coin. */
module RoaringIndex {
  import opened Primitives
  import opened Wrappers
  import opened Sequences
  import opened Dictionary
  import opened ConfirmedTx
  import opened Filters
  import opened NaiveScan
  import opened DayTable
  import opened Bitmaps
  import opened Criteria
  import opened Addresses

  /** The thread-local maps of aggregateTransactions, shared by all queries of a thread. */
  class QueryCache {
    var involvedPublicKeys: Bitmap
    var rangeMap: Bitmap

    ghost predicate Valid()
      reads this
    {
      IsClosedRange(rangeMap)
    }

    constructor ()
      ensures Valid()
    {
      involvedPublicKeys, rangeMap := {}, {};
    }

    /** Rebuilds the range map unless it has the bounds already; either way it ends up as the range. */
    method UseRange(first: nat, last: nat)
      requires Valid()
      modifies `rangeMap
      ensures Valid() && rangeMap == RangeClosed(first, last)
    {
      var minimum := Minimum(rangeMap);
      var maximum := Maximum(rangeMap);
      if minimum != first || maximum != last {
        rangeMap := RangeClosed(first, last);
      } else {
        ClosedRangeFromBounds(rangeMap, first, last);
      }
    }
  }

  class TransactionsIndex {
    const communityIdIndex: nat
    const addressIndex: AddressIndex
    var minTransactionNr: nat
    var maxTransactionNr: nat
    var minDate: Date
    var maxDate: Date
    var dayTable: seq<seq<nat>>
    var involvedPublicKeys: map<PublicKeyIndex, PublicKeyBitmaps>
    var txPerType: map<TransactionType, Bitmap>
    var otherCoinCommunityTx: map<nat, Bitmap>
    ghost var chain: seq<Tx>       // everything added so far
    ghost var keys: seq<RawKey>    // the dictionary at the last addition

    /** Bounds and day table agree with the transactions c. */
    ghost predicate BoundsOf(c: seq<Tx>)
      reads this
    {
      Bounds(c, minTransactionNr, maxTransactionNr, minDate, maxDate, dayTable)
    }

    ghost predicate BoundsInv()
      reads this
    {
      BoundsOf(chain)
    }

    ghost predicate BitmapInv()
      reads this
    {
      AllMark(chain, keys, involvedPublicKeys, txPerType, otherCoinCommunityTx)
    }

    ghost predicate Valid()
      reads this
    {
      BoundsInv() && BitmapInv()
    }

    constructor (communityIdIndex: nat)
      ensures Valid() && chain == [] && keys == [] && this.communityIdIndex == communityIdIndex
      ensures minDate == NO_DATE && minTransactionNr == 0 && |dayTable| == RESIZE_STEP
      ensures fresh(addressIndex) && addressIndex.addresses == map[]
    {
      this.communityIdIndex := communityIdIndex;
      addressIndex := new AddressIndex(communityIdIndex);
      minTransactionNr, maxTransactionNr, minDate, maxDate := 0, 0, NO_DATE, NO_DATE;
      dayTable := EmptyMonths(RESIZE_STEP);
      involvedPublicKeys, otherCoinCommunityTx := map[], map[];
      txPerType := map t | t in ALL_TYPES :: {};
      chain, keys := [], [];
    }

    function YearMonthToIndex(ymd: Date): (index: int)
      reads this
      ensures minDate.Ok() && !ymd.Less(minDate) && !maxDate.Less(ymd) ==> index == MonthsSince(minDate, ymd)
    {
      if minDate == NO_DATE || ymd.Less(minDate) then 0
      else MonthsSince(minDate, if maxDate.Less(ymd) then maxDate else ymd)
    }

    /** Days before the oldest one are taken for it, days behind the newest one for that. */
    lemma DaysAreClamped(ymd: Date)
      requires minDate.Ok() && maxDate.Ok() && !maxDate.Less(minDate)
      ensures ymd.Less(minDate) ==> YearMonthToIndex(ymd) == 0
      ensures maxDate.Less(ymd) && !ymd.Less(minDate) ==> YearMonthToIndex(ymd) == MonthsSince(minDate, maxDate)
    {
    }

    /** Where the backward scan of getTxRangeOfInterval starts. */
    ghost function EndSlot(endDate: Date): Slot
      reads this
    {
      if maxDate.Less(endDate) then Slot(MonthsSince(minDate, maxDate), DAYS - 1) else SlotOf(minDate, endDate)
    }

    /**
     The interval starts before the oldest day, and between that day of the month in the oldest
     month and the end of the interval nothing is confirmed: the scan gives up too early.
     */
    ghost predicate Trapped(startDate: Date, endDate: Date)
      reads this
    {
      && startDate.Less(minDate) && startDate.day != 0
      && var from, to := Slot(0, startDate.day - 1), EndSlot(endDate);
         !to.Before(from) &&
         forall i :: 0 <= i < |chain| ==>
           SlotOf(minDate, chain[i].confirmedAt).Before(from) || to.Before(SlotOf(minDate, chain[i].confirmedAt))
    }

    /** The arguments of getTxRangeOfInterval as calculateTxRange passes them. */
    ghost predicate TouchesChain(startDate: Date, endDate: Date)
      reads this
    {
      && endDate.Ok() && (startDate.Ok() || startDate == NO_DATE) && !endDate.Less(startDate)
      && !maxDate.Less(startDate) && !endDate.Less(minDate)
    }

    /** The place where the backward scan stops; a start without a day is never met. */
    ghost function StartSlot(startDate: Date): Slot
      reads this
    {
      Slot(if startDate.Less(minDate) then 0 else MonthsSince(minDate, startDate),
           if startDate.day == 0 then 0xFFFF_FFFF else startDate.day - 1)
    }

    /** The scan stops at the last number up to the end, and not beyond the start if that lies on its way. */
    ghost predicate ScanFinds(startDate: Date, endDate: Date, last: nat)
      reads this
    {
      && LastUpTo(chain, minDate, EndSlot(endDate), last)
      && (startDate.day != 0 && !EndSlot(endDate).Before(StartSlot(startDate)) ==>
        !SlotOf(minDate, chain[last - chain[0].txNr].confirmedAt).Before(StartSlot(startDate)))
    }

    ghost predicate ScanGivesUp(startDate: Date, endDate: Date)
      reads this
    {
      var from := StartSlot(startDate);
      startDate.day != 0 && !EndSlot(endDate).Before(from) &&
      NothingIn(chain, minDate, Slot(from.month, from.day - 1), EndSlot(endDate))
    }

    /** The first loop of getTxRangeOfInterval; 0 stands for its early return. */
    method LastTxUpTo(startDate: Date, endDate: Date) returns (endTx: nat)
      requires BoundsInv() && chain != [] && TouchesChain(startDate, endDate)
      ensures if endTx != 0 then ScanFinds(startDate, endDate, endTx) else ScanGivesUp(startDate, endDate)
    {
      var ym := YearMonthToIndex(endDate);
      var day: nat := endDate.day - 1;
      if maxDate.Less(endDate) {
        day := 30;
      }
      var startIndex := YearMonthToIndex(startDate);
      var startDay: nat := if startDate.day == 0 then 0xFFFF_FFFF else startDate.day - 1;
      ghost var at;
      endTx, at := ScanBack(dayTable, ym, day, startIndex, startDay, chain, minDate, 0);
      if endTx != 0 {
        LastStaysLast(chain, minDate, at, EndSlot(endDate), endTx);
      }
    }

    /** The second loop of getTxRangeOfInterval: the last number before the start of the interval. */
    method LastTxBefore(startDate: Date) returns (v: nat)
      requires BoundsInv() && chain != [] && minDate.Less(startDate) && startDate.Ok() && !maxDate.Less(startDate)
      ensures LastUpTo(chain, minDate, Slot(MonthsSince(minDate, startDate), startDate.day - 2), v)
    {
      hide LastUpTo, HoldsLast;
      var ym := YearMonthToIndex(startDate);
      var day: nat := startDate.day - 1;
      ghost var to := Slot(ym, day - 1);
      assert ym != 0 || day != 0;
      var again := true;
      while again
        invariant 0 <= ym < |dayTable| && 0 <= day < DAYS
        invariant again ==> NothingIn(chain, minDate, Slot(ym, day - 1), to)
        invariant !again ==> dayTable[ym][day] != 0 && !to.Before(Slot(ym, day)) && NothingIn(chain, minDate, Slot(ym, day), to)
        decreases again, ym, day
      {
        if day == 0 && ym == 0 {
          assert false;
        }
        if day == 0 {
          ym, day := ym - 1, 30;
        } else {
          day := day - 1;
        }
        again := dayTable[ym][day] == 0;
        if again {
          PassEmptySlot(chain, minDate, ym, day, to);
        }
      }
      v := dayTable[ym][day];
      LastStaysLast(chain, minDate, Slot(ym, day), to, v);
    }

    ghost predicate NothingInDays(startDate: Date, endDate: Date)
      reads this
    {
      forall i :: 0 <= i < |chain| ==> !InDays(chain[i].confirmedAt, startDate, endDate)
    }

    lemma DaysAsSlots(startDate: Date, endDate: Date, i: nat)
      requires BoundsInv() && i < |chain| && TouchesChain(startDate, endDate)
      ensures !EndSlot(endDate).Before(SlotOf(minDate, chain[i].confirmedAt)) <==> !endDate.Less(chain[i].confirmedAt)
      ensures startDate.Less(minDate) ==> !chain[i].confirmedAt.Less(startDate)
      ensures !startDate.Less(minDate) ==>
        (Slot(MonthsSince(minDate, startDate), startDate.day - 2).Before(SlotOf(minDate, chain[i].confirmedAt))
         <==> !chain[i].confirmedAt.Less(startDate))
    {
      assert i > 0 ==> !chain[i].confirmedAt.Less(chain[0].confirmedAt);
      assert i < |chain| - 1 ==> !chain[|chain|-1].confirmedAt.Less(chain[i].confirmedAt);
    }

    lemma GivingUp(startDate: Date, endDate: Date)
      requires BoundsInv() && TouchesChain(startDate, endDate) && ScanGivesUp(startDate, endDate)
      ensures Trapped(startDate, endDate) || NothingInDays(startDate, endDate)
    {
      forall i | 0 <= i < |chain| && !startDate.Less(minDate)
        ensures !InDays(chain[i].confirmedAt, startDate, endDate)
      {
        DaysAsSlots(startDate, endDate, i);
      }
    }

    ghost predicate IsRangeOf(startDate: Date, endDate: Date, first: nat, last: nat)
      reads this
    {
      && minTransactionNr <= first <= last <= maxTransactionNr
      && forall i :: 0 <= i < |chain| ==>
        (first <= chain[i].txNr <= last <==> InDays(chain[i].confirmedAt, startDate, endDate))
    }

    lemma Finding(startDate: Date, endDate: Date, first: nat, last: nat)
      requires BoundsInv() && chain != [] && TouchesChain(startDate, endDate) && ScanFinds(startDate, endDate, last)
      requires minDate.Less(startDate) ==>
        first > 0 && LastUpTo(chain, minDate, Slot(MonthsSince(minDate, startDate), startDate.day - 2), first - 1)
      requires !minDate.Less(startDate) ==> first == minTransactionNr
      ensures !Trapped(startDate, endDate) && !NothingInDays(startDate, endDate)
      ensures IsRangeOf(startDate, endDate, first, last)
    {
      var k := last - chain[0].txNr;
      assert chain[k].txNr == last;
      forall i | 0 <= i < |chain|
        ensures first <= chain[i].txNr <= last <==> InDays(chain[i].confirmedAt, startDate, endDate)
      {
        DaysAsSlots(startDate, endDate, i);
      }
      DaysAsSlots(startDate, endDate, k);
      assert InDays(chain[k].confirmedAt, startDate, endDate);
    }

    /** The first and last number confirmed in the days, or {0, 0}. */
    method GetTxRangeOfInterval(startDate: Date, endDate: Date) returns (first: nat, last: nat)
      requires BoundsInv() && chain != [] && TouchesChain(startDate, endDate)
      ensures first == last == 0 <==> Trapped(startDate, endDate) || NothingInDays(startDate, endDate)
      ensures !(first == last == 0) ==> IsRangeOf(startDate, endDate, first, last)
    {
      first := minTransactionNr;
      last := LastTxUpTo(startDate, endDate);
      if last == 0 {
        GivingUp(startDate, endDate);
        return 0, 0;
      }
      if minDate.Less(startDate) {
        var before := LastTxBefore(startDate);
        first := before + 1;
      }
      Finding(startDate, endDate, first, last);
      assert first <= last;
    }

    /** The page bounds in descending order; the ranks of the first and last element of the page. */
    method DescendingBounds(resultSet: Bitmap, skip: nat, size: nat)
      returns (pageStartTx: nat, pageEndTx: nat, ghost i: nat, ghost j: nat)
      requires skip < |resultSet| && size > 0
      ensures i <= j < |resultSet| && pageStartTx == ToArray(resultSet)[i] && pageEndTx == ToArray(resultSet)[j]
      ensures IsPageSlice(|resultSet|, DESC, skip, size, i, j)
    {
      var n := |resultSet|;
      var selected := Select(resultSet, n - skip - 1);
      pageEndTx, j := selected.value, n - skip - 1;
      if n <= skip + size {
        pageStartTx := Minimum(resultSet);
        i := 0;
      } else {
        selected := Select(resultSet, n - skip - size);
        pageStartTx, i := selected.value, n - skip - size;
      }
    }

    method AscendingBounds(resultSet: Bitmap, skip: nat, size: nat)
      returns (pageStartTx: nat, pageEndTx: nat, ghost i: nat, ghost j: nat)
      requires skip < |resultSet| && size > 0
      ensures i <= j < |resultSet| && pageStartTx == ToArray(resultSet)[i] && pageEndTx == ToArray(resultSet)[j]
      ensures IsPageSlice(|resultSet|, ASC, skip, size, i, j)
    {
      var selected := Select(resultSet, skip);
      pageStartTx, i := selected.value, skip;
      selected := Select(resultSet, skip + size - 1);
      if selected.Some? {
        pageEndTx, j := selected.value, skip + size - 1;
      } else {
        pageEndTx := Maximum(resultSet);
        j := |resultSet| - 1;
      }
    }

    method InDirection(resultSet: Bitmap, direction: SearchDirection) returns (r: seq<nat>)
      ensures r == Directed(direction, ToArray(resultSet))
    {
      r := ToUint64Array(resultSet);
      if direction.DESC? {
        r := Reverse(r);
      }
    }

    /** Restrict the result set to the range of the page. */
    method CutRange(resultSet: Bitmap, direction: SearchDirection, pageStartTx: nat, pageEndTx: nat, ghost i: nat, ghost j: nat)
      returns (r: seq<nat>)
      requires i <= j < |resultSet| && pageStartTx == ToArray(resultSet)[i] && pageEndTx == ToArray(resultSet)[j]
      ensures r == Directed(direction, ToArray(resultSet)[i..j+1])
    {
      if pageEndTx < pageStartTx {
        assert false;
      }
      SliceOfArray(resultSet, ToArray(resultSet), i, j);
      r := InDirection(resultSet * RangeClosed(pageStartTx, pageEndTx), direction);
    }

    /** The tail of findTransactions: cut the page out of the result set. */
    method CutPage(resultSet: Bitmap, f: CompactFilter) returns (r: seq<nat>)
      ensures r == PageWithRepeat(Directed(f.searchDirection, ToArray(resultSet)),
                                  f.pagination.SkipEntriesCount(), f.pagination.size)
    {
      var n, skip, size := |resultSet|, f.pagination.SkipEntriesCount(), f.pagination.size;
      ghost var a := ToArray(resultSet);
      if n == 0 || n <= skip {
        return [];
      }
      if size == 0 {
        r := InDirection(resultSet, f.searchDirection);
        return;
      }
      var pageStartTx, pageEndTx;
      ghost var i, j;
      if f.searchDirection.DESC? {
        pageStartTx, pageEndTx, i, j := DescendingBounds(resultSet, skip, size);
      } else {
        pageStartTx, pageEndTx, i, j := AscendingBounds(resultSet, skip, size);
      }
      PageFromSlice(a, f.searchDirection, skip, size, i, j);
      var firstTx, lastTx := pageStartTx, pageEndTx;
      if f.searchDirection.DESC? {
        firstTx, lastTx := pageEndTx, pageStartTx;
      }
      if size == 1 || n == 1 {
        return [firstTx];
      }
      if size == 2 || n == 2 {
        return [firstTx, lastTx];
      }
      r := CutRange(resultSet, f.searchDirection, pageStartTx, pageEndTx, i, j);
    }

    // ---------- adding a transaction ----------

    /** The month index of a new day; the day may not lie more than one resize step behind the table. */
    method YearMonthToIndexUpdateBounds(day: Date) returns (r: Result<nat, TxError>)
      requires day.Ok() && dayTable != []
      modifies `minDate, `maxDate, `dayTable
      ensures
        var oldest := if old(minDate) == NO_DATE then day else old(minDate);
        var index := MonthsSince(oldest, day);
        && (r.Success? <==> 0 <= index < |old(dayTable)| + 100)
        && (r.Success? ==>
          && r.value == index && minDate == oldest
          && maxDate == (if old(maxDate).Less(day) then day else old(maxDate))
          && dayTable == old(dayTable) + EmptyMonths(if index < |old(dayTable)| then 0 else RESIZE_STEP))
        && (r.Failure? ==> minDate == old(minDate) && maxDate == old(maxDate) && dayTable == old(dayTable) + EmptyMonths(RESIZE_STEP))
    {
      var currentMinDate := minDate;
      if minDate == NO_DATE {
        minDate := day;
      }
      var index := MonthsSince(minDate, day);
      // a negative difference becomes a huge unsigned index
      if index < 0 || index >= |dayTable| {
        dayTable := dayTable + EmptyMonths(RESIZE_STEP);
        if index < 0 || index >= |dayTable| {
          minDate := currentMinDate;
          return Failure(InvalidData);
        }
      } else {
        assert dayTable == dayTable + EmptyMonths(0);
      }
      if maxDate.Less(day) {
        maxDate := day;
      }
      return Success(index);
    }

    ghost predicate ComesNext(tx: Tx)
      reads this
    {
      ChainOrder(chain + [tx])
    }

    /** When updateYearMonthDayTxRange does not throw. */
    predicate FitsTable(day: Date, txNr: nat)
      reads this
    {
      && (minTransactionNr == 0 || minTransactionNr <= txNr)
      && 0 <= MonthsSince(if minDate == NO_DATE then day else minDate, day) < |dayTable| + RESIZE_STEP
    }

    method UpdateYearMonthDayTxRange(day: Date, txNr: nat) returns (r: Result<(), TxError>)
      requires Rectangular(dayTable) && txNr != 0 && day.Ok()
      modifies `minTransactionNr, `maxTransactionNr, `minDate, `maxDate, `dayTable
      ensures r.Success? <==> old(FitsTable(day, txNr))
      ensures r.Success? ==>
        RangeUpdated(old(minTransactionNr), old(maxTransactionNr), old(minDate), old(maxDate), old(dayTable), day, txNr,
                     minTransactionNr, maxTransactionNr, minDate, maxDate, dayTable)
      ensures r.Failure? ==>
        && minDate == old(minDate) && maxDate == old(maxDate)
        && minTransactionNr == (if old(minTransactionNr) == 0 then txNr else old(minTransactionNr))
        && maxTransactionNr == (if txNr < minTransactionNr || txNr <= old(maxTransactionNr) then old(maxTransactionNr) else txNr)
        && (dayTable == old(dayTable) || dayTable == old(dayTable) + EmptyMonths(RESIZE_STEP))
    {
      if minTransactionNr == 0 {
        minTransactionNr := txNr;
      }
      if txNr < minTransactionNr {
        return Failure(InvalidData);
      }
      if maxTransactionNr < txNr {
        maxTransactionNr := txNr;
      }
      var ymIndex :- YearMonthToIndexUpdateBounds(day);
      var dayIndex := day.day - 1;
      if dayTable[ymIndex][dayIndex] < txNr {
        dayTable := SetEntry(dayTable, ymIndex, dayIndex, txNr);
      }
      return Success(());
    }

    method EnterDay(tx: Tx) returns (r: Result<(), TxError>)
      requires BoundsInv() && tx.txNr != 0 && tx.confirmedAt.Ok()
      modifies `minTransactionNr, `maxTransactionNr, `minDate, `maxDate, `dayTable
      ensures r.Success? <==> old(FitsTable(tx.confirmedAt, tx.txNr))
      ensures r.Success? && ComesNext(tx) ==> BoundsOf(chain + [tx])
      ensures r.Failure? ==> (BoundsInv() <==> tx.txNr <= old(maxTransactionNr))
      ensures tx.txNr > old(maxTransactionNr) ==> !BoundsInv() && maxTransactionNr == tx.txNr
    {
      r := UpdateYearMonthDayTxRange(tx.confirmedAt, tx.txNr);
      if r.Success? && ComesNext(tx) {
        BoundsNext(chain, old(minTransactionNr), old(maxTransactionNr), old(minDate), old(maxDate), old(dayTable), tx,
                   minTransactionNr, maxTransactionNr, minDate, maxDate, dayTable);
      }
      if r.Failure? && tx.txNr <= old(maxTransactionNr) {
        TableGrows(chain, old(minDate), old(dayTable), RESIZE_STEP);
      }
    }

    /** The loop over the involved addresses. */
    method EnterKeys(tx: Tx, addresses: seq<PublicKeyIndex>, entries: seq<RawKey>) returns (r: Result<(), TxError>)
      requires tx.IsReadable() && EMPTY !in addresses && Distinct(addresses)
      modifies `involvedPublicKeys
      ensures r.Success? <==> forall k :: k in addresses ==> tx.IsKnown(k, entries)
      ensures r.Success? ==> KeysEntered(old(involvedPublicKeys), tx, entries, addresses, involvedPublicKeys)
      ensures old(EMPTY !in involvedPublicKeys) ==> EMPTY !in involvedPublicKeys
    {
      for n := 0 to |addresses|
        invariant forall k :: k in addresses[..n] ==> tx.IsKnown(k, entries)
        invariant KeysEntered(old(involvedPublicKeys), tx, entries, addresses[..n], involvedPublicKeys)
        invariant old(EMPTY !in involvedPublicKeys) ==> EMPTY !in involvedPublicKeys
      {
        var k := addresses[n];
        assert k in addresses && addresses[..n+1] == addresses[..n] + [k] && k !in addresses[..n];
        tx.OtherInvolvedAreNamed(k);
        tx.SignersAreRead(k, entries);
        var p := KeyBitmaps(involvedPublicKeys, k);
        involvedPublicKeys := involvedPublicKeys[k := p];
        var isSigner :- tx.IsSignaturePublicKey(k, entries);
        if isSigner {
          p := p.(signedTx := p.signedTx + {tx.txNr});
        }
        if tx.IsBalanceUpdated(k) {
          p := p.(balanceChangingTx := p.balanceChangingTx + {tx.txNr});
        }
        if tx.IsOtherInvolved(k).Extract() {
          p := p.(otherInvolvedTx := Some(p.Other() + {tx.txNr}));
        }
        involvedPublicKeys := involvedPublicKeys[k := p];
      }
      assert addresses[..|addresses|] == addresses;
      return Success(());
    }

    /** The loop over the account balances. */
    method EnterCoins(tx: Tx)
      modifies `otherCoinCommunityTx
      ensures CoinsEntered(old(otherCoinCommunityTx), tx, otherCoinCommunityTx)
    {
      for i := 0 to |tx.accountBalances|
        invariant forall coin ::
          CoinBitmap(otherCoinCommunityTx, coin) ==
          if coin != tx.txCommunityIdIndex && exists j :: 0 <= j < i && tx.accountBalances[j].coinCommunityIdIndex == coin
          then CoinBitmap(old(otherCoinCommunityTx), coin) + {tx.txNr} else CoinBitmap(old(otherCoinCommunityTx), coin)
      {
        var coin := tx.accountBalances[i].coinCommunityIdIndex;
        if coin != tx.txCommunityIdIndex {
          otherCoinCommunityTx := otherCoinCommunityTx[coin := CoinBitmap(otherCoinCommunityTx, coin) + {tx.txNr}];
        }
      }
    }

    /** The part of addTransactionIndices that fills the bitmaps. */
    method EnterBitmaps(tx: Tx, dict: RuntimeDictionary<RawKey>) returns (r: Result<(), TxError>)
      requires BitmapInv() && dict.Valid() && keys <= dict.indexDataLookup && tx.FitsLayout()
      modifies `involvedPublicKeys, `txPerType, `otherCoinCommunityTx, dict
      ensures dict.Valid() && old(dict.indexDataLookup) <= dict.indexDataLookup
      ensures r.Success? <==> AddressesResolve(tx, dict.indexDataLookup)
      ensures r.Success? && ChainOrder(chain) && ChainOrder(chain + [tx]) ==>
        AllMark(chain + [tx], dict.indexDataLookup, involvedPublicKeys, txPerType, otherCoinCommunityTx)
    {
      var addresses :- GetInvolvedAddresses(tx, dict);
      AddressesCanBeEntered(tx, dict.indexDataLookup, addresses);
      var _ :- EnterKeys(tx, addresses, dict.indexDataLookup);
      AllTypes(tx.transactionType);
      txPerType := txPerType[tx.transactionType := txPerType[tx.transactionType] + {tx.txNr}];
      EnterCoins(tx);
      if ChainOrder(chain) && ChainOrder(chain + [tx]) {
        dict.EntriesAreDistinct();
        AllMarkNext(chain, keys, old(involvedPublicKeys), old(txPerType), old(otherCoinCommunityTx), tx,
                    dict.indexDataLookup, addresses, involvedPublicKeys, otherCoinCommunityTx);
      }
      return Success(());
    }

    /** The bitmaps get the transaction: it has a number and cold data, and its day and addresses can be entered. */
    ghost predicate IsEntered(tx: Tx, fits: bool, entries: seq<RawKey>) {
      tx.txNr != 0 && tx.coldData.Some? && fits && AddressesResolve(tx, entries)
    }

    /**
     The transaction stays entered when the address index refuses it in the end. When it is refused before,
     the highest number may lie above the chain, and the index no longer agrees with it.
     */
    method AddTransactionIndices(tx: Tx, dict: RuntimeDictionary<RawKey>) returns (r: Result<(), TxError>)
      requires Valid() && dict.Valid() && keys <= dict.indexDataLookup
      requires tx.FitsLayout() && tx.confirmedAt.Ok()
      modifies this, addressIndex, dict
      ensures dict.Valid() && old(dict.indexDataLookup) <= dict.indexDataLookup
      ensures var entered := IsEntered(tx, old(FitsTable(tx.confirmedAt, tx.txNr)), dict.indexDataLookup);
        && (r.Success? <==> entered && CanRegister(old(addressIndex.addresses), tx))
        && (r.Success? ==> Followed(old(addressIndex.addresses), tx, addressIndex.addresses))
        && (entered && old(ComesNext(tx)) ==> Valid() && chain == old(chain) + [tx] && keys == dict.indexDataLookup)
        && (!entered ==> chain == old(chain) && keys == old(keys) && addressIndex.addresses == old(addressIndex.addresses))
        && (!entered && (tx.txNr == 0 || tx.coldData.None?) ==> Valid())
        && (!entered && tx.txNr != 0 && tx.coldData.Some? && !old(FitsTable(tx.confirmedAt, tx.txNr)) ==>
             (Valid() <==> tx.txNr <= old(maxTransactionNr)))
        && (!entered && tx.coldData.Some? && tx.txNr > old(maxTransactionNr) ==> !Valid() && maxTransactionNr == tx.txNr)
    {
      hide TableInv, AllMark, ChainOrder, AddressesResolve, CanRegister, Followed, RangeUpdated;
      if tx.txNr == 0 || tx.coldData.None? {
        return Failure(InvalidData);
      }
      var _ :- EnterDay(tx);
      var _ :- EnterBitmaps(tx, dict);
      chain, keys := chain + [tx], dict.indexDataLookup;
      r := addressIndex.AddTransaction(tx);
    }

    // ---------- queries ----------

    ghost predicate IntervalTrapped(f: CompactFilter)
      reads this
    {
      && !f.timepointInterval.IsEmpty()
      && var startDate, endDate := f.timepointInterval.start.AsDay(), f.timepointInterval.end.AsDay();
         !maxDate.Less(startDate) && !endDate.Less(minDate) && Trapped(startDate, endDate)
    }

    static ghost predicate InRange(tx: Tx, f: CompactFilter) {
      MatchesNr(tx.txNr, f) && MatchesDay(tx.confirmedAt, f)
    }

    lemma DaysOfChain(i: nat)
      requires BoundsInv() && i < |chain|
      ensures minTransactionNr <= chain[i].txNr <= maxTransactionNr
      ensures !chain[i].confirmedAt.Less(minDate) && !maxDate.Less(chain[i].confirmedAt)
    {
      assert i > 0 ==> !chain[i].confirmedAt.Less(chain[0].confirmedAt);
      assert i < |chain| - 1 ==> !chain[|chain|-1].confirmedAt.Less(chain[i].confirmedAt);
      assert chain[|chain|-1].txNr == chain[0].txNr + |chain| - 1 && chain[i].txNr == chain[0].txNr + i;
    }

    lemma TrapStartsBefore(startDate: Date, endDate: Date)
      ensures Trapped(startDate, endDate) ==> startDate.Less(minDate)
    {
    }

    lemma OldestDayIsOk()
      requires BoundsInv() && chain != []
      ensures minDate.Ok() && minTransactionNr != 0
    {
    }

    lemma DaysAsked(i: nat, f: CompactFilter)
      requires BoundsInv() && i < |chain|
      ensures MatchesDay(chain[i].confirmedAt, f) <==>
        f.timepointInterval.IsEmpty() ||
        InDays(chain[i].confirmedAt, f.timepointInterval.start.AsDay(), f.timepointInterval.end.AsDay())
    {
      hide TableInv;
      if !f.timepointInterval.IsEmpty() { DaysOfInterval(chain[i].confirmedAt, f); }
    }

    method CalculateTxRange(f: CompactFilter) returns (r: Option<(nat, nat)>)
      requires BoundsInv() && chain != [] && f.Ok()
      ensures IntervalTrapped(f) ==> r.None?
      ensures r.None? ==> IntervalTrapped(f) || forall i :: 0 <= i < |chain| ==> !InRange(chain[i], f)
      ensures r.Some? ==> minTransactionNr <= r.value.0 && r.value.1 <= maxTransactionNr
      ensures r.Some? ==> forall i :: 0 <= i < |chain| ==> (r.value.0 <= chain[i].txNr <= r.value.1 <==> InRange(chain[i], f))
    {
      hide Bounds, TransactionsIndex.Trapped, MatchesDay;
      forall i | 0 <= i < |chain|
        ensures minTransactionNr <= chain[i].txNr <= maxTransactionNr
        ensures !chain[i].confirmedAt.Less(minDate) && !maxDate.Less(chain[i].confirmedAt)
        ensures MatchesDay(chain[i].confirmedAt, f) <==>
          f.timepointInterval.IsEmpty() ||
          InDays(chain[i].confirmedAt, f.timepointInterval.start.AsDay(), f.timepointInterval.end.AsDay())
      {
        DaysOfChain(i);
        DaysAsked(i, f);
      }
      OldestDayIsOk();
      if (f.minTransactionNr != 0 && f.minTransactionNr > maxTransactionNr) ||
         (f.maxTransactionNr != 0 && f.maxTransactionNr < minTransactionNr) {
        return None;
      }
      var startDate, endDate := minDate, maxDate;
      if !f.timepointInterval.IsEmpty() {
        startDate, endDate := f.timepointInterval.start.AsDay(), f.timepointInterval.end.AsDay();
      }
      if maxDate.Less(startDate) || endDate.Less(minDate) {
        return None;
      }
      TrapStartsBefore(startDate, endDate);
      var first, last := minTransactionNr, maxTransactionNr;
      if startDate != minDate || endDate != maxDate {
        first, last := GetTxRangeOfInterval(startDate, endDate);
        if first == 0 && last == 0 {
          return None;
        }
      }
      if f.minTransactionNr != 0 && f.minTransactionNr > first {
        first := f.minTransactionNr;
      }
      if f.maxTransactionNr != 0 && f.maxTransactionNr < last {
        last := f.maxTransactionNr;
      }
      return Some((first, last));
    }

    /** Every number in the maps belongs to the chain. */
    ghost predicate Within(b: Bitmap)
      reads this
    {
      forall nr :: nr in b ==> IsNumberOf(chain, nr)
    }

    static function Members(b: Option<Bitmap>): Bitmap {
      if b.Some? then b.value else {}
    }

    /** The coin filter: the map to intersect with, or the map to subtract for the index's own coin. */
    method CoinMaps(f: CompactFilter) returns (found: bool, maps: seq<Bitmap>, revert: Option<Bitmap>)
      requires Valid()
      ensures |maps| <= 1 && forall m :: m in maps ==> Within(m)
      ensures found ==> forall i :: 0 <= i < |chain| ==>
        (InAll(maps, chain[i].txNr) && chain[i].txNr !in Members(revert) <==> MatchesCoin(chain[i], f, communityIdIndex))
      ensures !found ==> forall i :: 0 <= i < |chain| ==> !MatchesCoin(chain[i], f, communityIdIndex)
    {
      found, maps, revert := true, [], None;
      if f.coinCommunityIdIndex != 0 {
        assert Marks(CoinBitmap(otherCoinCommunityTx, f.coinCommunityIdIndex), chain, InForeignCoin(f.coinCommunityIdIndex), keys);
        if f.coinCommunityIdIndex != communityIdIndex {
          if f.coinCommunityIdIndex in otherCoinCommunityTx {
            maps := [otherCoinCommunityTx[f.coinCommunityIdIndex]];
          } else {
            found := false;
          }
        } else if f.coinCommunityIdIndex in otherCoinCommunityTx {
          revert := Some(otherCoinCommunityTx[f.coinCommunityIdIndex]);
        }
      }
    }

    method KeyMaps(f: CompactFilter, cache: QueryCache) returns (found: bool, maps: seq<Bitmap>)
      requires Valid()
      modifies cache`involvedPublicKeys
      ensures |maps| <= 1 && forall m :: m in maps ==> Within(m)
      ensures found ==> forall i :: 0 <= i < |chain| ==>
        (InAll(maps, chain[i].txNr) <==> MatchesKey(chain[i], f, communityIdIndex, keys))
      ensures !found ==> forall i :: 0 <= i < |chain| ==> !MatchesKey(chain[i], f, communityIdIndex, keys)
    {
      hide TransactionsIndex.BoundsInv;
      found, maps := true, [];
      var k := f.publicKeyIndex;
      ghost var p := KeyBitmaps(involvedPublicKeys, k);
      assert k != EMPTY ==> KeyMarks(p, k, chain, keys);
      if f.publicKeySearchType.BalanceChangingPublicKey? {
        if k.communityIdIndex != communityIdIndex || k !in involvedPublicKeys {
          found := false;
        } else {
          maps := [involvedPublicKeys[k].balanceChangingTx];
          assert maps == [p.balanceChangingTx];
        }
      } else if f.publicKeySearchType.InvolvedPublicKey? {
        if k !in involvedPublicKeys {
          found := false;
          return;
        }
        cache.involvedPublicKeys := {};
        if involvedPublicKeys[k].otherInvolvedTx.Some? {
          cache.involvedPublicKeys := cache.involvedPublicKeys + involvedPublicKeys[k].otherInvolvedTx.value;
        }
        cache.involvedPublicKeys := cache.involvedPublicKeys + involvedPublicKeys[k].signedTx;
        cache.involvedPublicKeys := cache.involvedPublicKeys + involvedPublicKeys[k].balanceChangingTx;
        assert cache.involvedPublicKeys == p.Other() + p.signedTx + p.balanceChangingTx;
        assert forall i :: 0 <= i < |chain| ==>
          (chain[i].txNr in cache.involvedPublicKeys <==> MatchesKey(chain[i], f, communityIdIndex, keys));
        if cache.involvedPublicKeys == {} {
          found := false;
        } else {
          maps := [cache.involvedPublicKeys];
        }
      }
    }

    method TypeMaps(f: CompactFilter) returns (found: bool, maps: seq<Bitmap>)
      requires Valid()
      ensures |maps| <= 1 && forall m :: m in maps ==> Within(m)
      ensures found ==> forall i :: 0 <= i < |chain| ==>
        (InAll(maps, chain[i].txNr) <==> MatchesType(chain[i].transactionType, f))
      ensures !found ==> forall i :: 0 <= i < |chain| ==> !MatchesType(chain[i].transactionType, f)
    {
      found, maps := true, [];
      if !f.transactionType.NoType? {
        if txPerType[f.transactionType] != {} {
          maps := [txPerType[f.transactionType]];
        } else {
          found := false;
        }
      }
    }

    /** The numbers a query has to return; nothing when the interval is trapped. */
    ghost predicate Answers(b: Bitmap, f: CompactFilter)
      reads this
    {
      && Within(b)
      && forall i :: 0 <= i < |chain| ==>
        (chain[i].txNr in b <==> !IntervalTrapped(f) && Matches(chain[i], f, communityIdIndex, keys))
    }

    /** At transaction i each group of maps decides its part of the query. */
    ghost predicate PartsMatch(f: CompactFilter, i: nat, coin: seq<Bitmap>, key: seq<Bitmap>, ofType: seq<Bitmap>,
                               first: nat, last: nat, revert: Bitmap)
      requires i < |chain|
      reads this
    {
      && (InAll(coin, chain[i].txNr) && chain[i].txNr !in revert <==> MatchesCoin(chain[i], f, communityIdIndex))
      && (InAll(key, chain[i].txNr) <==> MatchesKey(chain[i], f, communityIdIndex, keys))
      && (InAll(ofType, chain[i].txNr) <==> MatchesType(chain[i].transactionType, f))
      && (first <= chain[i].txNr <= last <==> InRange(chain[i], f))
    }

    /** Leaving the range map out when the range is the whole chain never changes the intersection. */
    lemma SelectedByAll(f: CompactFilter, i: nat, coin: seq<Bitmap>, key: seq<Bitmap>, ofType: seq<Bitmap>,
                        range: seq<Bitmap>, first: nat, last: nat, revert: Bitmap)
      requires BoundsInv() && i < |chain| && PartsMatch(f, i, coin, key, ofType, first, last, revert)
      requires range == [RangeClosed(first, last)] || (range == [] && first == minTransactionNr && last == maxTransactionNr)
      ensures InAll(coin + key + ofType + range, chain[i].txNr) && chain[i].txNr !in revert <==>
              Matches(chain[i], f, communityIdIndex, keys)
    {
      DaysOfChain(i);
      if range != [] {
        assert RangeClosed(first, last) in range;
      }
      assert InAll(range, chain[i].txNr) <==> InRange(chain[i], f);
      InAllConcat(coin + key + ofType, range, chain[i].txNr);
      InAllConcat(coin + key, ofType, chain[i].txNr);
      InAllConcat(coin, key, chain[i].txNr);
    }

    lemma RangeIsWithin(first: nat, last: nat)
      requires BoundsInv() && chain != [] && minTransactionNr <= first && last <= maxTransactionNr
      ensures Within(RangeClosed(first, last))
    {
      assert chain[|chain|-1].txNr == chain[0].txNr + |chain| - 1;
    }

    method AggregateTransactions(f: CompactFilter, cache: QueryCache) returns (r: Option<Bitmap>)
      requires Valid() && chain != [] && f.Ok() && cache.Valid()
      modifies cache
      ensures cache.Valid()
      ensures Answers(Members(r), f)
    {
      hide AllMark, Bounds, TransactionsIndex.Trapped, MatchesCoin, MatchesKey, MatchesType, MatchesNr, MatchesDay, RangeClosed,
           IsClosedRange;
      var bounds := CalculateTxRange(f);
      if bounds.None? {
        return None;
      }
      var first, last := bounds.value.0, bounds.value.1;
      var coinFound, coinMaps, revert := CoinMaps(f);
      if !coinFound {
        return None;
      }
      var keyFound, keyMaps := KeyMaps(f, cache);
      if !keyFound {
        return None;
      }
      var typeFound, typeMaps := TypeMaps(f);
      if !typeFound {
        return None;
      }
      var maps := coinMaps + keyMaps + typeMaps;
      var rangeMaps := [];
      if first != minTransactionNr || last != maxTransactionNr || |maps| == 0 {
        cache.UseRange(first, last);
        RangeIsWithin(first, last);
        rangeMaps := [cache.rangeMap];
      }
      r := Combine(f, coinMaps, keyMaps, typeMaps, rangeMaps, first, last, revert);
    }

    /** The tail of aggregateTransactions: intersect everything, then take the reverted coin away. */
    method Combine(f: CompactFilter, coinMaps: seq<Bitmap>, keyMaps: seq<Bitmap>, typeMaps: seq<Bitmap>,
                   rangeMaps: seq<Bitmap>, ghost first: nat, ghost last: nat, revert: Option<Bitmap>)
      returns (r: Option<Bitmap>)
      requires BoundsInv() && chain != [] && !IntervalTrapped(f)
      requires 1 <= |coinMaps + keyMaps + typeMaps + rangeMaps| <= 5
      requires forall m :: m in coinMaps || m in keyMaps || m in typeMaps || m in rangeMaps ==> Within(m)
      requires rangeMaps == [RangeClosed(first, last)] ||
               (rangeMaps == [] && first == minTransactionNr && last == maxTransactionNr)
      requires forall i :: 0 <= i < |chain| ==> PartsMatch(f, i, coinMaps, keyMaps, typeMaps, first, last, Members(revert))
      ensures Answers(Members(r), f)
    {
      var maps := coinMaps + keyMaps + typeMaps + rangeMaps;
      var result := maps[0];
      if |maps| > 1 {
        result := IntersectAll(maps);
      }
      assert forall nr :: nr in result <==> InAll(maps, nr);
      assert Within(maps[0]) by { assert maps[0] in maps; }
      forall i | 0 <= i < |chain|
        ensures InAll(maps, chain[i].txNr) && chain[i].txNr !in Members(revert) <==>
                Matches(chain[i], f, communityIdIndex, keys)
      {
        SelectedByAll(f, i, coinMaps, keyMaps, typeMaps, rangeMaps, first, last, Members(revert));
      }
      result := result - Members(revert);
      assert Within(result);
      return if result == {} && (|maps| > 1 || revert.None?) then None else Some(result);
    }

    /** The answer of the index, before paging: the naive scan, or nothing when the interval is trapped. */
    ghost function Answer(f: CompactFilter): seq<nat>
      reads this
    {
      if IntervalTrapped(f) then [] else Scan(chain, f, communityIdIndex, keys)
    }

    lemma AnswerIsListing(b: Bitmap, f: CompactFilter)
      requires Valid() && Answers(b, f)
      ensures ToArray(b) == Answer(f)
    {
      ScanIsAscending(chain, f, communityIdIndex, keys);
      forall nr: nat ensures nr in Answer(f) <==> nr in ToArray(b) {
        ScanIsSound(chain, f, communityIdIndex, keys, nr);
        if nr in b {
          assert chain[nr - chain[0].txNr].txNr == nr;
        }
      }
      ListingIsUnique(Answer(f), ToArray(b));
    }

    method FindTransactions(f: CompactFilter, cache: QueryCache) returns (r: seq<nat>)
      requires Valid() && f.Ok() && cache.Valid()
      modifies cache
      ensures cache.Valid()
      ensures r == PageWithRepeat(Directed(f.searchDirection, Answer(f)), f.pagination.SkipEntriesCount(), f.pagination.size)
    {
      if minTransactionNr == 0 && maxTransactionNr == 0 {
        assert chain == [];
        return [];
      }
      var resultSet := AggregateTransactions(f, cache);
      AnswerIsListing(Members(resultSet), f);
      if resultSet.None? {
        return [];
      }
      r := CutPage(resultSet.value, f);
    }

    method CountTransactions(f: CompactFilter, cache: QueryCache) returns (n: nat)
      requires Valid() && f.Ok() && cache.Valid()
      modifies cache
      ensures cache.Valid()
      ensures n == if IntervalTrapped(f) then 0 else |Scan(chain, f, communityIdIndex, keys)|
    {
      if minTransactionNr == 0 && maxTransactionNr == 0 {
        assert chain == [];
        return 0;
      }
      var resultSet := AggregateTransactions(f, cache);
      AnswerIsListing(Members(resultSet), f);
      return if resultSet.None? then 0 else |resultSet.value|;
    }
  }

  // ---------- the answers against the naive scan ----------

  /**
   What findTransactions returns is the page of the naive scan exactly when the interval is not
   trapped (or the page is empty anyway), the page is not the one that repeats its last entry, and
   the skip count does not wrap (or skips everything anyway).
   */
  lemma FindTransactionsIsNaive(index: TransactionsIndex, f: CompactFilter)
    requires index.Valid() && f.Ok()
    ensures
      var naive := Scan(index.chain, f, index.communityIdIndex, index.keys);
      var p := f.pagination;
      PageWithRepeat(Directed(f.searchDirection, index.Answer(f)), p.SkipEntriesCount(), p.size)
      == NaivePage(index.chain, f, index.communityIdIndex, index.keys)
      <==>
      if index.IntervalTrapped(f) then |naive| <= p.EntriesBefore()
      else if p.EntriesBefore() < UINT32_RANGE then !RepeatsLast(|naive|, p.SkipEntriesCount(), p.size)
      else |naive| <= p.SkipEntriesCount()
  {
    hide Scan, TransactionsIndex.IntervalTrapped, AllMark, TableInv;
    var naive := Scan(index.chain, f, index.communityIdIndex, index.keys);
    var all, p := Directed(f.searchDirection, naive), f.pagination;
    ScanIsAscending(index.chain, f, index.communityIdIndex, index.keys);
    DirectedIsDistinct(f.searchDirection, naive);
    WrapMatters(all, p);
    RepeatIsWrong(all, p.SkipEntriesCount(), p.size);
    if UINT32_RANGE <= p.EntriesBefore() && RepeatsLast(|all|, p.SkipEntriesCount(), p.size) {
      assert Page(all, p.EntriesBefore(), p.size) == [];
    }
  }

  /** A trapped interval: one transaction in January, asked for from the 20th of December to the 25th of January. */
  lemma TrappedExample(index: TransactionsIndex)
    requires index.Valid() && |index.chain| == 1 && index.chain[0].confirmedAt == Date(2020, 1, 10)
    ensures index.Trapped(Date(2019, 12, 20), Date(2020, 1, 25))
    ensures InDays(index.chain[0].confirmedAt, Date(2019, 12, 20), Date(2020, 1, 25))
  {
    assert SlotOf(index.minDate, index.chain[0].confirmedAt) == Slot(0, 9);
  }

  /** The second page of two entries out of three repeats the last entry. */
  lemma RepeatExample()
    ensures PageWithRepeat([1, 2, 3], Pagination(2, 2).SkipEntriesCount(), 2) == [3, 3]
    ensures Page([1, 2, 3], Pagination(2, 2).EntriesBefore(), 2) == [3]
  {
    assert [1, 2, 3][2..] == [3];
  }
}
