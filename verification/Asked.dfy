/** What a query asks for: the one reference both indexes are compared with. */
module Asked {
  import opened ConfirmedTx
  import opened Filters
  import opened Pages

  /**
   The asked key takes part, or has its balance changed; a key that is not known, or whose community is
   not known, takes part in nothing.
   */
  ghost predicate AsksKey(tx: Tx, f: CompactFilter, keys: seq<RawKey>) {
    var k := f.publicKeyIndex;
    match f.publicKeySearchType
    case AnyPublicKey => true
    case InvolvedPublicKey => k != EMPTY && tx.Takes(k, keys)
    case BalanceChangingPublicKey => k != EMPTY && tx.IsBalanceUpdated(k)
    case _ => false
  }

  function TxNr(tx: Tx): nat { tx.txNr }

  /** The numbers of the transactions with a property, ascending. */
  ghost function Numbers(chain: seq<Tx>, p: Tx -> bool): seq<nat> {
    NumbersOf(chain, TxNr, p)
  }

  /** The page a caller asks for; its entries are counted without wrap-around. */
  ghost function AskedPage(chain: seq<Tx>, asked: Tx -> bool, f: CompactFilter): seq<nat> {
    Page(Directed(f.searchDirection, Numbers(chain, asked)), f.pagination.EntriesBefore(), f.pagination.size)
  }

  /** The page an index cuts out of what it has, with the skip count of the code. */
  ghost function GivenPage(chain: seq<Tx>, given: Tx -> bool, f: CompactFilter): seq<nat> {
    Page(Directed(f.searchDirection, Numbers(chain, given)), f.pagination.SkipEntriesCount(), f.pagination.size)
  }

  /** The transactions in the order of the search. */
  ghost function InOrder(chain: seq<Tx>, f: CompactFilter): seq<Tx> {
    Directed(f.searchDirection, chain)
  }

  /** The page given is the page asked for exactly under the condition of PageIsRight. */
  lemma GivenIsAsked(chain: seq<Tx>, given: Tx -> bool, asked: Tx -> bool, f: CompactFilter)
    requires HaveDistinctNumbers(chain, TxNr)
    ensures GivenPage(chain, given, f) == AskedPage(chain, asked, f) <==>
            PageIsRight(InOrder(chain, f), given, asked, f.pagination.SkipEntriesCount(), f.pagination.EntriesBefore(),
                        f.pagination.size)
  {
    DirectedPagesAgree(chain, TxNr, given, asked, f.searchDirection, f.pagination.SkipEntriesCount(),
                       f.pagination.EntriesBefore(), f.pagination.size);
  }

  /** Without departures the page is right exactly if its skip count does not wrap or skips everything. */
  lemma RightWithoutDepartures(chain: seq<Tx>, given: Tx -> bool, asked: Tx -> bool, f: CompactFilter)
    requires HaveDistinctNumbers(chain, TxNr) && forall tx :: tx in chain ==> (given(tx) <==> asked(tx))
    ensures GivenPage(chain, given, f) == AskedPage(chain, asked, f) <==>
            f.pagination.EntriesBefore() < UINT32_RANGE || |Numbers(chain, given)| <= f.pagination.SkipEntriesCount()
  {
    var p, order := f.pagination, InOrder(chain, f);
    GivenIsAsked(chain, given, asked, f);
    WrapShortens(p);
    assert forall tx :: tx in order ==> tx in chain;
    WithoutDepartures(order, given, asked, p.SkipEntriesCount(), p.EntriesBefore(), p.size);
    CountInOrder(chain, f, given);
  }

  /** If nothing is lost, the page is right exactly if no extra transaction comes up before its end, or nothing is left for it. */
  lemma RightWithExtras(chain: seq<Tx>, given: Tx -> bool, asked: Tx -> bool, f: CompactFilter)
    requires HaveDistinctNumbers(chain, TxNr) && forall tx :: tx in chain && asked(tx) ==> given(tx)
    requires f.pagination.EntriesBefore() < UINT32_RANGE
    ensures GivenPage(chain, given, f) == AskedPage(chain, asked, f) <==>
            || |Numbers(chain, given)| <= f.pagination.EntriesBefore()
            || NoExtraBeforeEnd(InOrder(chain, f), given, asked, f.pagination.EntriesBefore(), f.pagination.size)
  {
    var p, order := f.pagination, InOrder(chain, f);
    GivenIsAsked(chain, given, asked, f);
    WrapShortens(p);
    assert forall tx :: tx in order ==> tx in chain;
    WithExtrasOnly(order, given, asked, p.EntriesBefore(), p.size);
    CountInOrder(chain, f, given);
  }

  lemma CountInOrder(chain: seq<Tx>, f: CompactFilter, p: Tx -> bool)
    ensures CountOf(InOrder(chain, f), p) == |Numbers(chain, p)|
  {
    NumbersReversed(chain, TxNr, p);
    NumbersAreCounted(InOrder(chain, f), TxNr, p);
    NumbersAreCounted(chain, TxNr, p);
  }

  /** Two lists are the same exactly if there is no departure; their lengths if there are as many extras as losses. */
  lemma ListsAgree(chain: seq<Tx>, given: Tx -> bool, asked: Tx -> bool)
    requires HaveDistinctNumbers(chain, TxNr)
    ensures Numbers(chain, given) == Numbers(chain, asked) <==> forall tx :: tx in chain ==> (given(tx) <==> asked(tx))
    ensures |Numbers(chain, given)| == |Numbers(chain, asked)| <==>
            CountOf(chain, Extra(given, asked)) == CountOf(chain, Lost(given, asked))
  {
    NumbersAreCounted(chain, TxNr, given);
    NumbersAreCounted(chain, TxNr, asked);
    DeparturesBalance(chain, given, asked);
    HeadsAgree(chain, TxNr, given, asked, |chain|);
    forall k | 0 <= k < |chain| ensures CountOf(chain[..k], given) < |chain| {
      CountIsSmall(chain[..k], given);
    }
  }

  // ---------- for the examples ----------

  const ALWAYS := TimepointInterval(EPOCH, EPOCH)

  /** A query for everything, in ascending order and on one page. */
  const EVERYTHING := CompactFilter(ASC, NoType, AnyPublicKey, 0, 0, 0, EMPTY, Pagination(0, 0), ALWAYS)

  lemma OneOfOne(chain: seq<Tx>, p: Tx -> bool)
    requires |chain| == 1
    ensures Numbers(chain, p) == if p(chain[0]) then [chain[0].txNr] else []
  {
    SplitAt(chain, TxNr, p, 0);
    assert chain[..0] == [] && chain[1..] == [];
  }
}
