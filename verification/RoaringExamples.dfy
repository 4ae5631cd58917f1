/** Inputs on which the bitmap index does not give what is asked for. */
module RoaringExamples {
  import opened Wrappers
  import opened Dictionary
  import opened ConfirmedTx
  import opened Filters
  import opened Asked
  import opened NaiveScan
  import opened DayTable
  import opened Criteria
  import opened Addresses
  import opened RoaringIndex
  import opened RoaringAnswers

  /** A transfer of community 1 from key 1 to key 2, which then has a balance in the coin of community 2; nobody signed. */
  const FOREIGN_COIN_TRANSFER := Tx(1, Date(2025, 6, 1), 1, 0, Local, Transfer, Specific(1, 2, 0, 0, 0, 0, 0, 0),
                                    [AccountBalance(2, 2)], Some(ColdData(0, [])))

  const OWN_COIN := EVERYTHING.(coinCommunityIdIndex := 1)
  const MISSING_KEY := EVERYTHING.(publicKeySearchType := MissingIndex)
  const SENDER := EVERYTHING.(publicKeySearchType := InvolvedPublicKey, publicKeyIndex := PublicKeyIndex(1, 1))

  lemma IsResolved(keys: seq<RawKey>)
    requires |keys| >= 2
    ensures AddressesResolve(FOREIGN_COIN_TRANSFER, keys)
  {
    var tx := FOREIGN_COIN_TRANSFER;
    assert forall k :: tx.Names(k) ==> k == tx.Own(1) || k == tx.Own(2);
    assert forall k :: tx.IsBalanceUpdated(k) ==> k == tx.Own(2);
  }

  /** A new index with this one transaction. */
  method IndexOfOne() returns (index: TransactionsIndex)
    ensures index.Valid() && index.chain == [FOREIGN_COIN_TRANSFER] && index.communityIdIndex == 1
  {
    hide AllMark, Bounds, Followed, CanRegister, AddressesResolve;
    var dict := new RuntimeDictionary<RawKey>();
    var first := dict.GetOrAddIndexForData(RawKey([1]));
    var second := dict.GetOrAddIndexForData(RawKey([2]));
    index := new TransactionsIndex(1);
    assert RawKey([1]).bytes[0] != RawKey([2]).bytes[0] && dict.indexDataLookup == [RawKey([1]), RawKey([2])];
    assert index.ComesNext(FOREIGN_COIN_TRANSFER) && index.FitsTable(FOREIGN_COIN_TRANSFER.confirmedAt, 1);
    var r := index.AddTransactionIndices(FOREIGN_COIN_TRANSFER, dict);
    IsResolved(dict.indexDataLookup);
    assert index.chain == [FOREIGN_COIN_TRANSFER];
  }

  /**
   The own coin is asked for and no balance is in it, a missing key is asked for, or the sender, whom the
   body alone names: two times the transaction is given without being asked for, once it is not given.
   */
  method RunToDepartures() returns (index: TransactionsIndex)
    ensures index.Valid() && index.chain == [FOREIGN_COIN_TRANSFER] && index.communityIdIndex == 1
    ensures index.Answer(OWN_COIN) == [1] && Numbers(index.chain, Wanted(index, OWN_COIN)) == []
    ensures index.Answer(MISSING_KEY) == [1] && Numbers(index.chain, Wanted(index, MISSING_KEY)) == []
    ensures index.Answer(SENDER) == [] && Numbers(index.chain, Wanted(index, SENDER)) == [1]
  {
    hide Matches, AsksFor, AllMark, Bounds, TransactionsIndex.Answer, Numbers;
    index := IndexOfOne();
    OneTransaction(index, OWN_COIN);
    OneTransaction(index, MISSING_KEY);
    OneTransaction(index, SENDER);
    Departures(index.keys);
  }

  lemma Departures(keys: seq<RawKey>)
    ensures var tx := FOREIGN_COIN_TRANSFER;
      && Matches(tx, OWN_COIN, 1, keys) && !AsksFor(tx, OWN_COIN, 1, keys)
      && Matches(tx, MISSING_KEY, 1, keys) && !AsksFor(tx, MISSING_KEY, 1, keys)
      && !Matches(tx, SENDER, 1, keys) && AsksFor(tx, SENDER, 1, keys)
  {
    var tx, balance := FOREIGN_COIN_TRANSFER, AccountBalance(2, 2);
    assert balance in tx.accountBalances;
    assert tx.NamesSender(PublicKeyIndex(1, 1));
  }

  lemma OneTransaction(index: TransactionsIndex, f: CompactFilter)
    requires index.Valid() && |index.chain| == 1
    ensures index.Answer(f) == if Given(index, f)(index.chain[0]) then [index.chain[0].txNr] else []
    ensures Numbers(index.chain, Wanted(index, f)) == if Wanted(index, f)(index.chain[0]) then [index.chain[0].txNr] else []
  {
    hide TransactionsIndex.Answer, TransactionsIndex.Valid;
    AnswerIsGiven(index, f);
    OneOfOne(index.chain, Given(index, f));
    OneOfOne(index.chain, Wanted(index, f));
  }
}
