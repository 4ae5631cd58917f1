/** What the bitmaps can tell about a query: a scan of the chain with the tests they record. */
module NaiveScan {
  import opened ConfirmedTx
  import opened Filters

  /** Numbers start at 1 or more and go up by one, confirmation days never go back. */
  ghost predicate ChainOrder(chain: seq<Tx>) {
    && (forall i :: 0 <= i < |chain| ==> chain[i].txNr == chain[0].txNr + i && 1 <= chain[i].txNr)
    && (forall i :: 0 <= i < |chain| ==> chain[i].confirmedAt.Ok())
    && (forall i, j :: 0 <= i < j < |chain| ==> !chain[j].confirmedAt.Less(chain[i].confirmedAt))
  }

  predicate InDays(day: Date, start: Date, end: Date) {
    !day.Less(start) && !end.Less(day)
  }

  predicate MatchesNr(nr: nat, f: CompactFilter) {
    && (f.minTransactionNr == 0 || f.minTransactionNr <= nr)
    && (f.maxTransactionNr == 0 || nr <= f.maxTransactionNr)
  }

  /** Days count whole; the epoch is before every day. */
  ghost predicate MatchesDay(day: Date, f: CompactFilter) {
    var start, end := f.timepointInterval.start, f.timepointInterval.end;
    || (start == EPOCH && end == EPOCH)
    || ((start == EPOCH || !day.Less(start.day)) && end != EPOCH && !end.day.Less(day))
  }

  lemma DaysOfInterval(day: Date, f: CompactFilter)
    requires day.Ok() && !f.timepointInterval.IsEmpty()
    ensures MatchesDay(day, f) <==> InDays(day, f.timepointInterval.start.AsDay(), f.timepointInterval.end.AsDay())
  {
  }

  predicate MatchesType(t: TransactionType, f: CompactFilter) {
    f.transactionType.NoType? || t == f.transactionType
  }

  /** A balance of the transaction is in a coin of another community than the transaction's. */
  ghost predicate HasForeignCoin(tx: Tx, coin: nat) {
    coin != tx.txCommunityIdIndex && tx.HasCoinsFromCommunity(coin)
  }

  ghost predicate MatchesCoin(tx: Tx, f: CompactFilter, own: nat) {
    if f.coinCommunityIdIndex == 0 then true
    else if f.coinCommunityIdIndex != own then HasForeignCoin(tx, f.coinCommunityIdIndex)
    else !HasForeignCoin(tx, own)
  }

  /** What the coin of a filter asks for: a foreign coin among the balances, or none but the own. */
  ghost predicate CoinAskedFor(tx: Tx, f: CompactFilter, own: nat) {
    || f.coinCommunityIdIndex == 0
    || (if f.coinCommunityIdIndex != own then tx.HasCoinsFromCommunity(f.coinCommunityIdIndex) else HasOnlyCoin(tx, own))
  }

  ghost predicate HasOnlyCoin(tx: Tx, coin: nat) {
    forall b :: b in tx.accountBalances ==> b.coinCommunityIdIndex == coin
  }

  /** A filter for the own coin lets every transaction pass, even those with foreign coins. */
  lemma OwnCoinIsNoFilter(tx: Tx, f: CompactFilter, own: nat)
    requires tx.txCommunityIdIndex == own
    ensures f.coinCommunityIdIndex == own ==> MatchesCoin(tx, f, own)
    ensures (MatchesCoin(tx, f, own) <==> CoinAskedFor(tx, f, own)) <==>
            f.coinCommunityIdIndex == 0 || f.coinCommunityIdIndex != own || HasOnlyCoin(tx, own)
  {
  }

  ghost predicate MatchesKey(tx: Tx, f: CompactFilter, own: nat, keys: seq<RawKey>) {
    var k := f.publicKeyIndex;
    match f.publicKeySearchType
    case BalanceChangingPublicKey => k != EMPTY && k.communityIdIndex == own && tx.IsBalanceUpdated(k)
    case InvolvedPublicKey => k != EMPTY && (tx.Signed(k, keys) || tx.IsBalanceUpdated(k) || tx.NamesOther(k))
    case _ => true
  }

  /** own is the community of the index, keys the entries of its public key dictionary. */
  ghost predicate Matches(tx: Tx, f: CompactFilter, own: nat, keys: seq<RawKey>) {
    && MatchesNr(tx.txNr, f) && MatchesDay(tx.confirmedAt, f) && MatchesType(tx.transactionType, f)
    && MatchesCoin(tx, f, own) && MatchesKey(tx, f, own, keys)
  }

  /** The numbers of all matching transactions, ascending. */
  ghost function Scan(chain: seq<Tx>, f: CompactFilter, own: nat, keys: seq<RawKey>): seq<nat> {
    if chain == [] then []
    else
      Scan(chain[..|chain|-1], f, own, keys) +
      if Matches(chain[|chain|-1], f, own, keys) then [chain[|chain|-1].txNr] else []
  }

  /** The search types for missing keys restrict nothing. */
  lemma {:induction false} MissingKeyIsNoFilter(chain: seq<Tx>, f: CompactFilter, own: nat, keys: seq<RawKey>)
    requires f.publicKeySearchType.MissingIndex? || f.publicKeySearchType.MissingCommunityId?
    ensures Scan(chain, f, own, keys) == Scan(chain, f.(publicKeySearchType := AnyPublicKey), own, keys)
  {
    if chain != [] {
      MissingKeyIsNoFilter(chain[..|chain|-1], f, own, keys);
    }
  }

  /** The page of the scan, its entries counted without wrap-around. */
  ghost function NaivePage(chain: seq<Tx>, f: CompactFilter, own: nat, keys: seq<RawKey>): seq<nat> {
    Page(Directed(f.searchDirection, Scan(chain, f, own, keys)), f.pagination.EntriesBefore(), f.pagination.size)
  }

  lemma {:induction false} ScanIsSound(chain: seq<Tx>, f: CompactFilter, own: nat, keys: seq<RawKey>, nr: nat)
    requires ChainOrder(chain)
    ensures nr in Scan(chain, f, own, keys) <==>
            exists i :: 0 <= i < |chain| && chain[i].txNr == nr && Matches(chain[i], f, own, keys)
  {
    if chain != [] {
      ScanIsSound(chain[..|chain|-1], f, own, keys, nr);
      if i :| 0 <= i < |chain| && chain[i].txNr == nr && Matches(chain[i], f, own, keys) {
        if i < |chain| - 1 {
          assert chain[..|chain|-1][i] == chain[i];
        }
      }
    }
  }

  lemma {:induction false} ScanIsAscending(chain: seq<Tx>, f: CompactFilter, own: nat, keys: seq<RawKey>)
    requires ChainOrder(chain)
    ensures forall i, j :: 0 <= i < j < |Scan(chain, f, own, keys)| ==>
      Scan(chain, f, own, keys)[i] < Scan(chain, f, own, keys)[j]
    ensures chain != [] ==> forall x :: x in Scan(chain, f, own, keys) ==> x <= chain[|chain|-1].txNr
  {
    if chain != [] {
      var init := chain[..|chain|-1];
      var rest := Scan(init, f, own, keys);
      ScanIsAscending(init, f, own, keys);
      assert init != [] ==> init[|init|-1].txNr < chain[|chain|-1].txNr;
      assert forall i :: 0 <= i < |rest| ==> rest[i] in rest;
    }
  }
}
