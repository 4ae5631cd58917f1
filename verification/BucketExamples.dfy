/** Inputs on which the bucket index does not give what is asked for. */
module BucketExamples {
  import opened Wrappers
  import opened ConfirmedTx
  import opened Sequences
  import opened Dictionary
  import opened Filters
  import opened Pages
  import opened Asked
  import opened MonthEntries
  import opened BalanceHistory
  import opened BucketSearch
  import opened BucketIndex
  import opened BucketChain
  import opened BucketAnswers
  import opened Addresses

  /** Two transactions of one month; the newer one alone, asked for in descending order, is not found. */
  lemma StraddledMonthExample(index: TransactionsIndex, chain: seq<Tx>, keys: seq<RawKey>)
    requires index.Valid() && BooksAll(index.history, chain, keys)
    requires |chain| == 2 && chain[0].txNr == 1 && index.history[0].ym == index.history[1].ym
    ensures var f := EVERYTHING.(searchDirection := DESC, minTransactionNr := 2);
      && Page(Directed(DESC, index.Answer(f)), 0, 0) == []
      && AskedPage(chain, Asks(f, keys), f) == [2]
  {
    hide InMonths, BucketsHold, BalancesHold, LastChangesHold, TransactionsIndex.Answer, MonthBelow, Numbers, BooksAll;
    var f, h := EVERYTHING.(searchDirection := DESC, minTransactionNr := 2), index.history;
    AnswerIsGiven(index, f, chain, keys);
    MatchesAreConcerned(index, f, chain, keys);
    assert h[1].Nr() == h[0].Nr() + 1;
    MonthBelowIsBound(h, 2, h[1].Month() - 1);
    TwoOfTwo(chain, Given(index, f, keys));
    TwoOfTwo(chain, Asks(f, keys));
  }

  lemma TwoOfTwo(chain: seq<Tx>, p: Tx -> bool)
    requires |chain| == 2
    ensures Numbers(chain, p) == (if p(chain[0]) then [chain[0].txNr] else []) + if p(chain[1]) then [chain[1].txNr] else []
  {
    SplitAt(chain, TxNr, p, 1);
    OneOfOne(chain[..1], p);
    assert chain[2..] == [];
  }

  /** One transaction of a month; an interval from the second day of that month to its end finds nothing but counts one. */
  lemma LateIntervalExample(index: TransactionsIndex, chain: seq<Tx>, keys: seq<RawKey>)
    requires index.Valid() && BooksAll(index.history, chain, keys)
    requires |chain| == 1 && ConfirmedMonth(chain[0]) == YearMonth(2025, 6)
    ensures var f := EVERYTHING.(timepointInterval :=
        TimepointInterval(Timepoint(Date(2025, 6, 2), 0), Timepoint(Date(2025, 6, 30), 0)));
      index.Answer(f) == [] && index.CountsAll(f) && Numbers(chain, Asks(f, keys)) == [chain[0].txNr]
  {
    hide InMonths, BucketsHold, BalancesHold, LastChangesHold;
    var f := EVERYTHING.(timepointInterval :=
      TimepointInterval(Timepoint(Date(2025, 6, 2), 0), Timepoint(Date(2025, 6, 30), 0)));
    OneOfOne(chain, Asks(f, keys));
  }

  /** The third page of 2^31 entries is answered with the first entry: its skip count of 2^32 wraps to 0. */
  lemma WrapExample(index: TransactionsIndex, chain: seq<Tx>, keys: seq<RawKey>)
    requires index.Valid() && BooksAll(index.history, chain, keys) && |chain| == 1
    ensures var f := EVERYTHING.(pagination := Pagination(0x8000_0000, 3));
      && f.Ok() && Page(index.Answer(f), f.pagination.SkipEntriesCount(), f.pagination.size) == [chain[0].txNr]
      && AskedPage(chain, Asks(f, keys), f) == []
  {
    hide InMonths, BucketsHold, BalancesHold, LastChangesHold, TransactionsIndex.Answer;
    var f := EVERYTHING.(pagination := Pagination(0x8000_0000, 3));
    AnswerIsGiven(index, f, chain, keys);
    OneOfOne(chain, Given(index, f, keys));
    OneOfOne(chain, Asks(f, keys));
  }

  /** A key without a community: every transaction is given, none is asked for. */
  lemma MissingCommunityExample(index: TransactionsIndex, chain: seq<Tx>, keys: seq<RawKey>)
    requires index.Valid() && BooksAll(index.history, chain, keys) && |chain| == 1
    ensures var f := EVERYTHING.(publicKeySearchType := MissingCommunityId);
      f.Ok() && index.Answer(f) == [chain[0].txNr] && Numbers(chain, Asks(f, keys)) == []
  {
    hide InMonths, BucketsHold, BalancesHold, LastChangesHold, TransactionsIndex.Answer;
    var f := EVERYTHING.(publicKeySearchType := MissingCommunityId);
    AnswerIsGiven(index, f, chain, keys);
    OneOfOne(chain, Given(index, f, keys));
    OneOfOne(chain, Asks(f, keys));
  }

  // ---------- runs of one transaction ----------

  /** No more than the keys a and b take part. */
  ghost predicate OnlyTake(tx: Tx, a: PublicKeyIndex, b: PublicKeyIndex) {
    forall k, keys :: tx.Takes(k, keys) ==> k == a || k == b
  }

  lemma FewTakePart(tx: Tx, a: PublicKeyIndex, b: PublicKeyIndex, addresses: seq<PublicKeyIndex>, keys: seq<RawKey>)
    requires AddressesOf(tx, addresses, keys) && OnlyTake(tx, a, b)
    ensures |addresses| <= 2
  {
    assert Distinct(addresses);
    SizeOfElements(addresses);
    SmallerSubset(Elements(addresses), {a, b});
  }

  /** A new index that has booked one unsigned transaction. */
  method IndexOf(tx: Tx, ghost a: PublicKeyIndex, ghost b: PublicKeyIndex) returns (index: TransactionsIndex, ghost keys: seq<RawKey>)
    requires tx.FitsLayout() && tx.SignatureKeys() == [] && tx.IsReadable() && OnlyTake(tx, a, b)
    requires tx.txNr != 0 && tx.txCommunityIdIndex != 0 && tx.confirmedAt.Ok() && CanRegister(map[], tx)
    ensures fresh(index) && index.communityIdIndex == tx.txCommunityIdIndex
    ensures index.Valid() && BooksAll(index.history, [tx], keys) && Followed(map[], tx, index.addressIndex.addresses)
  {
    hide InMonths, Follows, BalancesHold, LastChangesHold, AddressesOf, Books, OnlyTake, CanRegister, Followed,
         Tx.IsReadable, Tx.Names;
    var dict := new RuntimeDictionary<RawKey>();
    index := new TransactionsIndex(tx.txCommunityIdIndex);
    ghost var before := index.Now();
    assert before.buckets != [] && before.buckets[0] == [] && before.minNr == 0 && before.minYm.IsUnset();
    var r, addresses := index.AddTransaction(tx, dict);
    if addresses != [] { FewTakePart(tx, a, b, addresses, dict.indexDataLookup); }
    assert r.Success?;
    keys := dict.indexDataLookup;
  }

  /** A deferred transfer of community 1 from key 1 to key 2. */
  const DEFERRED_TRANSFER := Tx(1, Date(2025, 6, 1), 1, 0, Local, DeferredTransfer, Specific(1, 2, 0, 0, 0, 0, 0, 0),
                                [AccountBalance(2, 1)], None)

  function LastCreationOf(community: nat, k: nat): CompactFilter {
    CompactFilter(DESC, Creation, BalanceChangingPublicKey, 0, 0, 0, PublicKeyIndex(community, k), Pagination(1, 1), ALWAYS)
  }

  /** The recipient gets an address type and a balance; its last creation is answered with the transfer. */
  method RunToShortcut() returns (index: TransactionsIndex, ghost keys: seq<RawKey>)
    ensures index.Valid() && BooksAll(index.history, [DEFERRED_TRANSFER], keys)
    ensures var f := LastCreationOf(1, 2);
      index.TakesShortcut(f) && index.Answer(f) == [1] && Numbers([DEFERRED_TRANSFER], Asks(f, keys)) == []
  {
    var tx := DEFERRED_TRANSFER;
    index, keys := IndexOf(tx, tx.Own(1), tx.Own(2));
    KeyIsRegistered(index.addressIndex.addresses);
    OneOfOne([tx], Asks(LastCreationOf(1, 2), keys));
  }

  lemma KeyIsRegistered(a: AddressTable)
    requires Followed(map[], DEFERRED_TRANSFER, a)
    ensures LastChangeOf(a, 2) == 1
  {
    var tx := DEFERRED_TRANSFER;
    assert Registers(tx, 2, 7) && IsRegistered(tx, 2);
    assert tx.accountBalances[0].publicKeyIndex == 2 && HasAccount(tx, 1, 2);
  }

  /** An inbound transfer of community 1 from key 5 of community 2 to its own key 7. */
  const INBOUND_TRANSFER := Tx(1, Date(2025, 6, 1), 1, 0, Inbound, Transfer, Specific(5, 7, 0, 0, 0, 0, 0, 0),
                               [AccountBalance(7, 1)], Some(ColdData(2, [])))

  /**
   Key 5 of community 1 takes no part and key 7 of community 2 has no balance changed, but both are
   answered with the transfer.
   */
  method RunToForeignKey() returns (index: TransactionsIndex, ghost keys: seq<RawKey>)
    ensures index.Valid() && BooksAll(index.history, [INBOUND_TRANSFER], keys)
    ensures var f := EVERYTHING.(publicKeySearchType := InvolvedPublicKey, publicKeyIndex := PublicKeyIndex(1, 5));
      index.Answer(f) == [1] && Numbers([INBOUND_TRANSFER], Asks(f, keys)) == []
    ensures var f := EVERYTHING.(publicKeySearchType := BalanceChangingPublicKey, publicKeyIndex := PublicKeyIndex(2, 7));
      && !index.BalanceSeesAll(f) && !index.CountsAll(f)
      && ByNumber(index.history, f) == [1] && Numbers([INBOUND_TRANSFER], Asks(f, keys)) == []
  {
    var tx := INBOUND_TRANSFER;
    index, keys := IndexOf(tx, PublicKeyIndex(2, 5), tx.Own(7));
    var f := EVERYTHING.(publicKeySearchType := InvolvedPublicKey, publicKeyIndex := PublicKeyIndex(1, 5));
    var g := EVERYTHING.(publicKeySearchType := BalanceChangingPublicKey, publicKeyIndex := PublicKeyIndex(2, 7));
    AnswerIsGiven(index, f, [tx], keys);
    ConcernedIsMatching(index, g, [tx], keys);
    assert tx.Takes(PublicKeyIndex(2, 5), keys) && PublicKeyIndex(2, 5).publicKeyIndex == 5;
    assert tx.accountBalances[0].publicKeyIndex == 7 && tx.IsBalanceUpdated(tx.Own(7));
    assert MatchesTx(tx, f, keys) && MatchesTx(tx, g, keys);
    assert !AsksFor(tx, f, keys) && !AsksFor(tx, g, keys);
    OneOfOne([tx], Given(index, f, keys));
    OneOfOne([tx], Asks(f, keys));
    OneOfOne([tx], Matching(g, keys));
    OneOfOne([tx], Asks(g, keys));
  }
}
