/** The answers of the bitmap index against what is asked for. */
module RoaringAnswers {
  import opened ConfirmedTx
  import opened Sequences
  import opened Filters
  import opened Pages
  import opened Asked
  import opened NaiveScan
  import opened RoaringIndex

  /** A query asks for the transaction: days count whole, and a foreign coin or only the own one among the balances. */
  ghost predicate AsksFor(tx: Tx, f: CompactFilter, own: nat, keys: seq<RawKey>) {
    && MatchesNr(tx.txNr, f) && MatchesDay(tx.confirmedAt, f) && MatchesType(tx.transactionType, f)
    && CoinAskedFor(tx, f, own) && AsksKey(tx, f, keys)
  }

  ghost function Asks(f: CompactFilter, own: nat, keys: seq<RawKey>): Tx -> bool {
    (tx: Tx) => AsksFor(tx, f, own, keys)
  }

  ghost function Gives(f: CompactFilter, own: nat, keys: seq<RawKey>, trapped: bool): Tx -> bool {
    (tx: Tx) => !trapped && Matches(tx, f, own, keys)
  }

  /** What the index gives, before paging. */
  ghost function Given(index: TransactionsIndex, f: CompactFilter): Tx -> bool
    reads index
  {
    Gives(f, index.communityIdIndex, index.keys, index.IntervalTrapped(f))
  }

  ghost function Wanted(index: TransactionsIndex, f: CompactFilter): Tx -> bool
    reads index
  {
    Asks(f, index.communityIdIndex, index.keys)
  }

  ghost function PageGiven(index: TransactionsIndex, f: CompactFilter): seq<nat>
    reads index
  {
    PageWithRepeat(Directed(f.searchDirection, index.Answer(f)), f.pagination.SkipEntriesCount(), f.pagination.size)
  }

  ghost predicate Repeats(index: TransactionsIndex, f: CompactFilter)
    reads index
  {
    RepeatsLast(|index.Answer(f)|, f.pagination.SkipEntriesCount(), f.pagination.size)
  }

  lemma {:induction false} ScanIsNumbers(chain: seq<Tx>, f: CompactFilter, own: nat, keys: seq<RawKey>, p: Tx -> bool)
    requires forall tx :: tx in chain ==> (p(tx) <==> Matches(tx, f, own, keys))
    ensures Scan(chain, f, own, keys) == Numbers(chain, p)
  {
    hide Matches;
    if chain != [] { ScanIsNumbers(chain[..|chain|-1], f, own, keys, p); }
  }

  /** The answer holds exactly the transactions given, and no two have the same number. */
  lemma AnswerIsGiven(index: TransactionsIndex, f: CompactFilter)
    requires index.Valid()
    ensures index.Answer(f) == Numbers(index.chain, Given(index, f))
    ensures HaveDistinctNumbers(index.chain, TxNr) && Distinct(index.Answer(f))
  {
    hide Matches, Scan, NumbersOf, TransactionsIndex.IntervalTrapped;
    assert HaveDistinctNumbers(index.chain, TxNr);
    NumbersAreDistinct(index.chain, Given(index, f));
    if index.IntervalTrapped(f) {
      Counted(index.chain, Given(index, f));
      NumbersAreCounted(index.chain, TxNr, Given(index, f));
    } else {
      ScanIsNumbers(index.chain, f, index.communityIdIndex, index.keys, Given(index, f));
    }
  }

  /** A page that repeats its entry is no page of distinct numbers. */
  lemma RepeatIsNoPage(given: seq<nat>, skip: nat, asked: seq<nat>, before: nat, size: nat)
    requires Distinct(asked)
    ensures PageWithRepeat(given, skip, size) == Page(asked, before, size) <==>
            !RepeatsLast(|given|, skip, size) && Page(given, skip, size) == Page(asked, before, size)
  {
    var page := Page(asked, before, size);
    assert |page| >= 2 ==> page[0] == asked[before] && page[1] == asked[before + 1];
  }

  lemma NumbersAreDistinct(chain: seq<Tx>, p: Tx -> bool)
    requires HaveDistinctNumbers(chain, TxNr)
    ensures Distinct(Numbers(chain, p))
  {
    var all := Numbers(chain, p);
    NumbersAreCounted(chain, TxNr, p);
    forall i, j | 0 <= i < j < |all| ensures all[i] != all[j] {
      var k := PositionOf(chain, p, i);
      NumberAt(chain, TxNr, p, k, i);
      NumberAt(chain, TxNr, p, k, j);
    }
  }

  /** The page is the one asked for exactly if it does not repeat its entry and fulfils the condition of PageIsRight. */
  lemma FindTransactionsIsAsked(index: TransactionsIndex, f: CompactFilter)
    requires index.Valid()
    ensures PageGiven(index, f) == AskedPage(index.chain, Wanted(index, f), f) <==>
      && !Repeats(index, f)
      && PageIsRight(InOrder(index.chain, f), Given(index, f), Wanted(index, f), f.pagination.SkipEntriesCount(),
                     f.pagination.EntriesBefore(), f.pagination.size)
  {
    hide PageIsRight, TransactionsIndex.Answer, TransactionsIndex.Valid, Given, Wanted, Page, Numbers, HaveDistinctNumbers;
    AnswerIsGiven(index, f);
    NumbersAreDistinct(index.chain, Wanted(index, f));
    DirectedIsDistinct(f.searchDirection, Numbers(index.chain, Wanted(index, f)));
    GivenIsAsked(index.chain, Given(index, f), Wanted(index, f), f);
    RepeatIsNoPage(Directed(f.searchDirection, index.Answer(f)), f.pagination.SkipEntriesCount(),
                   Directed(f.searchDirection, Numbers(index.chain, Wanted(index, f))), f.pagination.EntriesBefore(),
                   f.pagination.size);
  }

  ghost predicate IsMissing(f: CompactFilter) {
    f.publicKeySearchType.MissingIndex? || f.publicKeySearchType.MissingCommunityId?
  }

  /** The query names the own coin, but the transaction has another one as well. */
  ghost predicate PassesOwnCoin(tx: Tx, f: CompactFilter, own: nat) {
    f.coinCommunityIdIndex == own != 0 && !HasOnlyCoin(tx, own)
  }

  /** The body names the key, but no bitmap of the key gets the transaction. */
  ghost predicate OnlyNamed(tx: Tx, k: PublicKeyIndex, keys: seq<RawKey>) {
    tx.IsReadable() && tx.Names(k) && !tx.Signed(k, keys) && !tx.IsBalanceUpdated(k) && !tx.NamesOther(k)
  }

  /**
   The departures for a transaction of the own community. Extra are those given though the key is missing or
   a foreign coin is among the balances; lost are those behind a trapped interval or only named by the body.
   */
  lemma ExtraAndLost(tx: Tx, f: CompactFilter, own: nat, keys: seq<RawKey>, trapped: bool)
    requires tx.txCommunityIdIndex == own
    ensures Extra(Gives(f, own, keys, trapped), Asks(f, own, keys))(tx) <==>
            !trapped && Matches(tx, f, own, keys) && (IsMissing(f) || PassesOwnCoin(tx, f, own))
    ensures Lost(Gives(f, own, keys, trapped), Asks(f, own, keys))(tx) <==>
            AsksFor(tx, f, own, keys) &&
            (trapped || (f.publicKeySearchType.InvolvedPublicKey? && OnlyNamed(tx, f.publicKeyIndex, keys)))
  {
    hide MatchesDay, MatchesNr, MatchesType, Tx.Signed;
    OwnCoinIsNoFilter(tx, f, own);
    OthersAreNamed(tx, f.publicKeyIndex);
  }

  /** No key of another community is lost, unless the interval is trapped. */
  lemma ForeignKeysAreFound(tx: Tx, f: CompactFilter, own: nat, keys: seq<RawKey>)
    requires tx.txCommunityIdIndex == own
    ensures OnlyNamed(tx, f.publicKeyIndex, keys) ==> f.publicKeyIndex.communityIdIndex == own
    ensures Lost(Gives(f, own, keys, false), Asks(f, own, keys))(tx) ==> f.publicKeyIndex.communityIdIndex == own
  {
    hide Gives, Asks, Tx.Signed, Tx.IsBalanceUpdated;
    ExtraAndLost(tx, f, own, keys, false);
  }

  /** A key that is otherwise involved is named by the body. */
  lemma OthersAreNamed(tx: Tx, k: PublicKeyIndex)
    ensures tx.NamesOther(k) ==> tx.IsReadable() && tx.Names(k)
  {
  }

  /** A query for a missing key, which asks for nothing, is answered rightly exactly if the page is empty. */
  lemma MissingKeyIsRight(index: TransactionsIndex, f: CompactFilter)
    requires index.Valid() && IsMissing(f)
    ensures PageGiven(index, f) == AskedPage(index.chain, Wanted(index, f), f) <==>
            |index.Answer(f)| <= f.pagination.SkipEntriesCount()
  {
    Counted(index.chain, Wanted(index, f));
    NumbersAreCounted(index.chain, TxNr, Wanted(index, f));
    hide TransactionsIndex.Answer;
    assert AskedPage(index.chain, Wanted(index, f), f) == [];
  }

  /** Every transaction is one of the index's community. */
  ghost predicate IsOwnChain(index: TransactionsIndex)
    reads index
  {
    forall tx :: tx in index.chain ==> tx.txCommunityIdIndex == index.communityIdIndex
  }

  /** No transaction asked for is only named by its body. */
  ghost predicate NoneOnlyNamed(index: TransactionsIndex, f: CompactFilter)
    reads index
  {
    f.publicKeySearchType.InvolvedPublicKey? ==>
      forall tx :: tx in index.chain && Wanted(index, f)(tx) ==> !OnlyNamed(tx, f.publicKeyIndex, index.keys)
  }

  /**
   If nothing is lost, the page is right exactly if it does not repeat its entry and no transaction that
   passes the own coin comes up before its end, or nothing is left for it.
   */
  lemma OwnCoinIsRight(index: TransactionsIndex, f: CompactFilter)
    requires index.Valid() && IsOwnChain(index) && !IsMissing(f) && !index.IntervalTrapped(f) && NoneOnlyNamed(index, f)
    requires f.pagination.EntriesBefore() < UINT32_RANGE
    ensures PageGiven(index, f) == AskedPage(index.chain, Wanted(index, f), f) <==>
      && !Repeats(index, f)
      && (|index.Answer(f)| <= f.pagination.EntriesBefore() || OwnCoinBeforeEnd(index, f))
  {
    hide PageIsRight, TransactionsIndex.Answer, TransactionsIndex.Valid, TransactionsIndex.IntervalTrapped, Matches, AsksFor,
         OnlyNamed, PassesOwnCoin, HaveDistinctNumbers, NoExtraBeforeEnd, PageGiven, Repeats;
    var given, asked, p := Given(index, f), Wanted(index, f), f.pagination;
    AnswerIsGiven(index, f);
    FindTransactionsIsAsked(index, f);
    forall tx | tx in index.chain
      ensures asked(tx) ==> given(tx)
      ensures Extra(given, asked)(tx) <==> given(tx) && PassesOwnCoin(tx, f, index.communityIdIndex)
    {
      ExtraAndLost(tx, f, index.communityIdIndex, index.keys, false);
    }
    RightWithExtras(index.chain, given, asked, f);
    GivenIsAsked(index.chain, given, asked, f);
    WrapShortens(p);
    ExtrasAreForeign(index, f);
  }

  /** Position k is reached before the page is full. */
  ghost predicate BeforeEnd(order: seq<Tx>, given: Tx -> bool, p: Pagination, k: nat)
    requires k < |order|
  {
    p.size == 0 || CountOf(order[..k], given) < p.EntriesBefore() + p.size
  }

  /** Before the end of the page no transaction given has a coin besides the own one a query names. */
  ghost predicate OwnCoinBeforeEnd(index: TransactionsIndex, f: CompactFilter)
    reads index
  {
    var order, given, p := InOrder(index.chain, f), Given(index, f), f.pagination;
    forall k :: 0 <= k < |order| && given(order[k]) && BeforeEnd(order, given, p, k) ==>
      !PassesOwnCoin(order[k], f, index.communityIdIndex)
  }

  lemma ExtrasAreForeign(index: TransactionsIndex, f: CompactFilter)
    requires forall tx :: tx in index.chain ==>
      (Extra(Given(index, f), Wanted(index, f))(tx) <==>
       Given(index, f)(tx) && PassesOwnCoin(tx, f, index.communityIdIndex))
    ensures OwnCoinBeforeEnd(index, f) <==>
      NoExtraBeforeEnd(InOrder(index.chain, f), Given(index, f), Wanted(index, f), f.pagination.EntriesBefore(),
                       f.pagination.size)
  {
    hide PassesOwnCoin, Given, Wanted, Extra;
    var order := InOrder(index.chain, f);
    assert forall k :: 0 <= k < |order| ==> order[k] in index.chain;
  }

  /** The count is right exactly if there are as many extra transactions as lost ones. */
  lemma CountIsAsked(index: TransactionsIndex, f: CompactFilter)
    requires index.Valid()
    ensures var given, wanted := Given(index, f), Wanted(index, f);
      |index.Answer(f)| == |Numbers(index.chain, wanted)| <==>
      CountOf(index.chain, Extra(given, wanted)) == CountOf(index.chain, Lost(given, wanted))
  {
    hide TransactionsIndex.Answer, TransactionsIndex.Valid, Numbers, CountOf;
    AnswerIsGiven(index, f);
    ListsAgree(index.chain, Given(index, f), Wanted(index, f));
  }
}
