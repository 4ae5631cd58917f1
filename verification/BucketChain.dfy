/** The history of the bucket index against the transactions of the chain. */
module BucketChain {
  import opened Wrappers
  import opened ConfirmedTx
  import opened Sequences
  import opened Dictionary
  import opened Filters
  import opened MonthEntries
  import opened BalanceHistory
  import opened BucketIndex
  import opened Pages
  import opened Asked
  import Criteria
  import NaiveScan

  /** What a query asks for. Intervals count whole months; the coin of a transaction is its own or its community's. */
  ghost predicate AsksFor(tx: Tx, f: CompactFilter, keys: seq<RawKey>) {
    AsksButKey(tx, f) && AsksKey(tx, f, keys)
  }

  ghost predicate AsksButKey(tx: Tx, f: CompactFilter) {
    && NaiveScan.MatchesNr(tx.txNr, f) && NaiveScan.MatchesType(tx.transactionType, f)
    && (f.coinCommunityIdIndex == 0 || f.coinCommunityIdIndex == CoinOf(tx))
    && (f.timepointInterval.IsEmpty() || InWholeMonths(tx.confirmedAt, f.timepointInterval))
  }

  /** What the index takes a query to ask of a transaction; it knows keys by their number. */
  ghost predicate MatchesTx(tx: Tx, f: CompactFilter, keys: seq<RawKey>) {
    AsksButKey(tx, f) && MatchesKey(tx, f, keys)
  }

  function CoinOf(tx: Tx): nat {
    if tx.coinCommunityIdIndex != 0 then tx.coinCommunityIdIndex else tx.txCommunityIdIndex
  }

  ghost predicate MatchesKey(tx: Tx, f: CompactFilter, keys: seq<RawKey>) {
    var n := f.publicKeyIndex.publicKeyIndex;
    match f.publicKeySearchType
    case MissingIndex => false
    case BalanceChangingPublicKey => tx.Own(n) != EMPTY && tx.IsBalanceUpdated(tx.Own(n))
    case InvolvedPublicKey => TakesNumber(tx, n, keys)
    case _ => true
  }

  /** A key with the number takes part, whatever its community. */
  ghost predicate TakesNumber(tx: Tx, n: nat, keys: seq<RawKey>) {
    exists k :: k != EMPTY && tx.Takes(k, keys) && k.publicKeyIndex == n
  }

  /**
   The index takes the query to ask for the transaction though it does not: no community was given for
   the key, or only a key of another community has the number of the asked one.
   */
  ghost predicate IsMistaken(tx: Tx, f: CompactFilter, keys: seq<RawKey>) {
    var k := f.publicKeyIndex;
    match f.publicKeySearchType
    case MissingCommunityId => true
    case InvolvedPublicKey => TakesNumber(tx, k.publicKeyIndex, keys) && !(k != EMPTY && tx.Takes(k, keys))
    case BalanceChangingPublicKey =>
      && tx.Own(k.publicKeyIndex) != EMPTY && tx.IsBalanceUpdated(tx.Own(k.publicKeyIndex))
      && k.communityIdIndex != tx.txCommunityIdIndex
    case _ => false
  }

  /** Nothing asked for is missed by the number of its key, and what is wrongly taken for asked for is mistaken. */
  lemma AskedIsMatched(tx: Tx, f: CompactFilter, keys: seq<RawKey>)
    ensures AsksFor(tx, f, keys) <==> MatchesTx(tx, f, keys) && !IsMistaken(tx, f, keys)
  {
    var k := f.publicKeyIndex;
    assert k != EMPTY && tx.Takes(k, keys) ==> TakesNumber(tx, k.publicKeyIndex, keys);
    assert k.communityIdIndex == tx.txCommunityIdIndex ==> k == tx.Own(k.publicKeyIndex);
    hide Tx.Takes, TakesNumber;
  }

  predicate InWholeMonths(day: Date, interval: TimepointInterval) {
    var m := YearMonth(day.year, day.month);
    !m.Less(MonthOf(interval.start)) && !MonthOf(interval.end).Less(m)
  }

  lemma MonthOrder(a: YearMonth, b: YearMonth)
    requires a.Ok() && b.Ok()
    ensures a.Less(b) <==> a.Number() < b.Number()
  {
  }

  /** A query concerns a booking exactly when the index takes it to ask for the transaction that was booked. */
  lemma BookedIsMatched(b: Booking, tx: Tx, f: CompactFilter, keys: seq<RawKey>)
    requires Books(b, tx, keys) && tx.confirmedAt.Ok() && f.timepointInterval.Ordered()
    ensures Concerns(b, f) <==> MatchesTx(tx, f, keys)
  {
    var n := f.publicKeyIndex.publicKeyIndex;
    MonthOrder(b.ym, MonthOf(f.timepointInterval.start));
    MonthOrder(MonthOf(f.timepointInterval.end), b.ym);
    assert b.entry.Involves(n) <==> TakesNumber(tx, n, keys);
    assert b.entry.Changes(n) <==> tx.Own(n) != EMPTY && tx.IsBalanceUpdated(tx.Own(n));
    hide TakesNumber, Entry.Involves, Entry.Changes;
  }

  /** Who takes part in a transaction does not change when the dictionary grows. */
  lemma TakesIsStable(tx: Tx, k: PublicKeyIndex, keys: seq<RawKey>, keys': seq<RawKey>)
    requires keys <= keys' && Distinct(keys') && forall s :: s in tx.SignatureKeys() ==> s in keys
    ensures tx.Takes(k, keys) <==> tx.Takes(k, keys')
  {
    Criteria.MeetsIsStable(tx, Criteria.SignedBy(k), keys, keys');
  }

  lemma BooksIsStable(b: Booking, tx: Tx, keys: seq<RawKey>, keys': seq<RawKey>)
    requires Books(b, tx, keys)
    requires keys <= keys' && Distinct(keys') && forall s :: s in tx.SignatureKeys() ==> s in keys
    ensures Books(b, tx, keys')
  {
    forall k ensures tx.Takes(k, keys) <==> tx.Takes(k, keys') {
      TakesIsStable(tx, k, keys, keys');
    }
    hide Tx.Takes;
    forall n ensures b.entry.Involves(n) <==> exists k :: k != EMPTY && tx.Takes(k, keys') && k.publicKeyIndex == n {
      assert b.entry.Involves(n) <==> exists k :: k != EMPTY && tx.Takes(k, keys) && k.publicKeyIndex == n;
    }
  }

  /** The history books the transactions of the chain one by one. */
  ghost predicate BooksAll(h: seq<Booking>, chain: seq<Tx>, keys: seq<RawKey>) {
    && |h| == |chain| && Criteria.SignersKnown(chain, keys)
    && forall i :: 0 <= i < |h| ==> Books(h[i], chain[i], keys) && chain[i].confirmedAt.Ok()
  }

  /** What adding a transaction to the index does keeps history and chain together. */
  lemma BooksNext(h: seq<Booking>, chain: seq<Tx>, keys: seq<RawKey>, b: Booking, tx: Tx, keys': seq<RawKey>)
    requires BooksAll(h, chain, keys) && keys <= keys' && Distinct(keys')
    requires Books(b, tx, keys') && tx.confirmedAt.Ok() && forall s :: s in tx.SignatureKeys() ==> s in keys'
    ensures BooksAll(h + [b], chain + [tx], keys')
  {
    hide Books;
    var h', chain' := h + [b], chain + [tx];
    forall i | 0 <= i < |h'| ensures Books(h'[i], chain'[i], keys') && chain'[i].confirmedAt.Ok() {
      if i < |h| {
        BooksIsStable(h[i], chain[i], keys, keys');
      }
    }
    Criteria.SignersKnownNext(chain, keys, tx, keys');
  }

  lemma ChainHasNumbers(h: seq<Booking>, chain: seq<Tx>, keys: seq<RawKey>)
    requires HistoryOrder(h) && BooksAll(h, chain, keys)
    ensures HaveDistinctNumbers(chain, TxNr) && forall i :: 0 <= i < |h| ==> h[i].Nr() == chain[i].txNr
  {
    hide Criteria.SignersKnown;
    forall i, j | 0 <= i < j < |chain| ensures chain[i].txNr != chain[j].txNr {
      assert h[i].Nr() == h[0].Nr() + i && h[j].Nr() == h[0].Nr() + j;
    }
  }

  /** A scan of the history lists the numbers of the transactions behind the wanted bookings. */
  lemma {:induction false} ScanIsNumbers(h: seq<Booking>, chain: seq<Tx>, f: CompactFilter, lo: int, hi: int, p: Tx -> bool)
    requires |h| == |chain|
    requires forall i :: 0 <= i < |h| ==> h[i].Nr() == chain[i].txNr && (Wanted(h[i], f, lo, hi) <==> p(chain[i]))
    ensures Scan(h, f, lo, hi) == Numbers(chain, p)
  {
    if h != [] {
      ScanOfInit(h, f, lo, hi);
      ScanIsNumbers(Init(h), chain[..|chain|-1], f, lo, hi, p);
    }
  }

  /** Adding the next transaction of a chain to an index that has booked the chain so far. */
  method AddNext(index: TransactionsIndex, dict: RuntimeDictionary<RawKey>, tx: Tx, ghost chain: seq<Tx>)
    returns (r: Result<(), TxError>)
    requires index.Valid() && dict.Valid() && tx.FitsLayout() && BooksAll(index.history, chain, dict.indexDataLookup)
    requires ComesNext(index.history, tx)
    modifies index, index.addressIndex, dict
    ensures dict.Valid()
    ensures r.Success? ==> index.Valid() && BooksAll(index.history, chain + [tx], dict.indexDataLookup)
  {
    hide Books, BooksAll, TransactionsIndex.Valid;
    ghost var h, keys := index.history, dict.indexDataLookup;
    ghost var addresses;
    r, addresses := index.AddTransaction(tx, dict);
    dict.EntriesAreDistinct();
    if r.Success? {
      BooksNext(h, chain, keys, Last(index.history), tx, dict.indexDataLookup);
    }
  }
}
