/** What the single bitmaps of the roaring index record about the chain. */
module Criteria {
  import opened Wrappers
  import opened Sequences
  import opened Dictionary
  import opened ConfirmedTx
  import opened NaiveScan
  import opened Bitmaps

  datatype Criterion =
    | BalanceOf(k: PublicKeyIndex) | SignedBy(k: PublicKeyIndex) | OtherOf(k: PublicKeyIndex)
    | OfType(t: TransactionType) | InForeignCoin(coin: nat)

  ghost predicate Meets(tx: Tx, c: Criterion, keys: seq<RawKey>) {
    match c
    case BalanceOf(k) => tx.IsBalanceUpdated(k)
    case SignedBy(k) => tx.Signed(k, keys)
    case OtherOf(k) => tx.NamesOther(k)
    case OfType(t) => tx.transactionType == t
    case InForeignCoin(coin) => HasForeignCoin(tx, coin)
  }

  predicate IsNumberOf(chain: seq<Tx>, nr: nat) {
    chain != [] && chain[0].txNr <= nr < chain[0].txNr + |chain|
  }

  /** The bitmap holds the numbers of exactly the transactions that meet the criterion. */
  ghost predicate Marks(b: Bitmap, chain: seq<Tx>, c: Criterion, keys: seq<RawKey>) {
    && (forall nr :: nr in b ==> IsNumberOf(chain, nr))
    && (forall i :: 0 <= i < |chain| ==> (chain[i].txNr in b <==> Meets(chain[i], c, keys)))
  }

  /** Every signature key of the chain has an index. */
  ghost predicate SignersKnown(chain: seq<Tx>, keys: seq<RawKey>) {
    forall i, s :: 0 <= i < |chain| && s in chain[i].SignatureKeys() ==> s in keys
  }

  /** Which criteria a recorded transaction meets does not change when the dictionary grows. */
  lemma MeetsIsStable(tx: Tx, c: Criterion, keys: seq<RawKey>, keys': seq<RawKey>)
    requires keys <= keys' && Distinct(keys')
    requires forall s :: s in tx.SignatureKeys() ==> s in keys
    ensures Meets(tx, c, keys) <==> Meets(tx, c, keys')
  {
    if c.SignedBy? && Meets(tx, c, keys') {
      var s :| s in tx.SignatureKeys() && StandsFor(keys', c.k.publicKeyIndex, s);
      var i :| 0 <= i < |keys| && keys[i] == s;
      assert StandsFor(keys, c.k.publicKeyIndex, s);
    }
  }

  /** A bitmap keeps marking its criterion when the number of the next transaction is added if it qualifies. */
  lemma MarksNext(b: Bitmap, chain: seq<Tx>, tx: Tx, c: Criterion, keys: seq<RawKey>, keys': seq<RawKey>)
    requires Marks(b, chain, c, keys) && ChainOrder(chain) && ChainOrder(chain + [tx])
    requires SignersKnown(chain, keys) && keys <= keys' && Distinct(keys')
    ensures Marks(if Meets(tx, c, keys') then b + {tx.txNr} else b, chain + [tx], c, keys')
  {
    var chain' := chain + [tx];
    forall i | 0 <= i < |chain|
      ensures chain'[i].txNr != tx.txNr && (Meets(chain'[i], c, keys') <==> chain'[i].txNr in b)
    {
      assert chain'[i] == chain[i];
      assert chain'[i].txNr == chain'[0].txNr + i && chain'[|chain|].txNr == chain'[0].txNr + |chain|;
      MeetsIsStable(chain[i], c, keys, keys');
    }
    assert chain != [] ==> chain'[0] == chain[0];
    assert chain'[|chain|] == tx && tx.txNr == chain'[0].txNr + |chain|;
    assert tx.txNr !in b;
  }

  datatype PublicKeyBitmaps = PublicKeyBitmaps(balanceChangingTx: Bitmap, signedTx: Bitmap, otherInvolvedTx: Option<Bitmap>)
  {
    function Other(): Bitmap {
      if otherInvolvedTx.Some? then otherInvolvedTx.value else {}
    }
  }

  const NO_BITMAPS := PublicKeyBitmaps({}, {}, None)

  ghost predicate KeyMarks(p: PublicKeyBitmaps, k: PublicKeyIndex, chain: seq<Tx>, keys: seq<RawKey>) {
    && Marks(p.balanceChangingTx, chain, BalanceOf(k), keys)
    && Marks(p.signedTx, chain, SignedBy(k), keys)
    && Marks(p.Other(), chain, OtherOf(k), keys)
  }

  function Added(p: PublicKeyBitmaps, nr: nat, balance: bool, signed: bool, other: bool): PublicKeyBitmaps {
    PublicKeyBitmaps(
      if balance then p.balanceChangingTx + {nr} else p.balanceChangingTx,
      if signed then p.signedTx + {nr} else p.signedTx,
      if other then Some(p.Other() + {nr}) else p.otherInvolvedTx)
  }

  lemma KeyMarksNext(p: PublicKeyBitmaps, k: PublicKeyIndex, chain: seq<Tx>, tx: Tx, keys: seq<RawKey>, keys': seq<RawKey>)
    requires KeyMarks(p, k, chain, keys) && ChainOrder(chain) && ChainOrder(chain + [tx])
    requires SignersKnown(chain, keys) && keys <= keys' && Distinct(keys')
    ensures KeyMarks(Added(p, tx.txNr, tx.IsBalanceUpdated(k), tx.Signed(k, keys'), tx.NamesOther(k)), k, chain + [tx], keys')
  {
    MarksNext(p.balanceChangingTx, chain, tx, BalanceOf(k), keys, keys');
    MarksNext(p.signedTx, chain, tx, SignedBy(k), keys, keys');
    MarksNext(p.Other(), chain, tx, OtherOf(k), keys, keys');
  }

  // ---------- all bitmaps together ----------

  const ALL_TYPES := {NoType, Creation, Transfer, DeferredTransfer, RedeemDeferredTransfer, TimeoutDeferredTransfer,
                      RegisterAddress, CommunityRoot, CommunityFriendsUpdate}

  lemma AllTypes(t: TransactionType)
    ensures t in ALL_TYPES
  {
  }

  type KeyTable = map<PublicKeyIndex, PublicKeyBitmaps>

  function KeyBitmaps(table: KeyTable, k: PublicKeyIndex): PublicKeyBitmaps {
    if k in table then table[k] else NO_BITMAPS
  }

  function CoinBitmap(table: map<nat, Bitmap>, coin: nat): Bitmap {
    if coin in table then table[coin] else {}
  }

  ghost predicate AllMark(c: seq<Tx>, keys: seq<RawKey>, involved: KeyTable, perType: map<TransactionType, Bitmap>,
                          coins: map<nat, Bitmap>) {
    && Distinct(keys) && SignersKnown(c, keys)
    && EMPTY !in involved
    && (forall k :: k != EMPTY ==> KeyMarks(KeyBitmaps(involved, k), k, c, keys))
    && perType.Keys == ALL_TYPES
    && (forall t :: t in perType ==> Marks(perType[t], c, OfType(t), keys))
    && (forall coin :: Marks(CoinBitmap(coins, coin), c, InForeignCoin(coin), keys))
  }

  /** The bitmaps of a key after the addresses of tx have been entered. */
  ghost function Entered(p: PublicKeyBitmaps, tx: Tx, k: PublicKeyIndex, entries: seq<RawKey>,
                         addresses: seq<PublicKeyIndex>): PublicKeyBitmaps {
    if k in addresses
    then Added(p, tx.txNr, tx.IsBalanceUpdated(k), tx.Signed(k, entries), tx.NamesOther(k))
    else p
  }

  /** When the addresses of a transaction can be entered; `entries` is the dictionary with its signers added. */
  ghost predicate AddressesResolve(tx: Tx, entries: seq<RawKey>) {
    HasInvolvedAddresses(tx) &&
    forall k :: k != EMPTY && tx.Takes(k, entries) ==> tx.IsKnown(k, entries)
  }

  /** The list getInvolvedAddresses returns. */
  ghost predicate AreInvolvedAddresses(tx: Tx, entries: seq<RawKey>, addresses: seq<PublicKeyIndex>) {
    forall a :: a in addresses <==> a != EMPTY && tx.Takes(a, entries)
  }

  lemma AddressesCanBeEntered(tx: Tx, entries: seq<RawKey>, addresses: seq<PublicKeyIndex>)
    requires HasInvolvedAddresses(tx) && AreInvolvedAddresses(tx, entries, addresses)
    requires ConfirmedTx.StrictlyAscending(addresses)
    ensures EMPTY !in addresses && Distinct(addresses)
    ensures AddressesResolve(tx, entries) <==>
            forall k :: k in addresses ==> tx.IsKnown(k, entries)
  {
  }

  ghost predicate CoinsEntered(coins: map<nat, Bitmap>, tx: Tx, coins': map<nat, Bitmap>) {
    forall coin :: CoinBitmap(coins', coin) ==
                   if HasForeignCoin(tx, coin) then CoinBitmap(coins, coin) + {tx.txNr} else CoinBitmap(coins, coin)
  }

  ghost predicate KeysEntered(involved: KeyTable, tx: Tx, entries: seq<RawKey>, addresses: seq<PublicKeyIndex>,
                              involved': KeyTable) {
    forall k :: KeyBitmaps(involved', k) == Entered(KeyBitmaps(involved, k), tx, k, entries, addresses)
  }

  lemma KeyNext(tx: Tx, k: PublicKeyIndex, p: PublicKeyBitmaps, addresses: seq<PublicKeyIndex>,
                c: seq<Tx>, keys: seq<RawKey>, entries: seq<RawKey>)
    requires k != EMPTY && KeyMarks(p, k, c, keys) && ChainOrder(c) && ChainOrder(c + [tx])
    requires SignersKnown(c, keys) && keys <= entries && Distinct(entries) && tx.IsReadable()
    requires AreInvolvedAddresses(tx, entries, addresses)
    ensures KeyMarks(Entered(p, tx, k, entries, addresses), k, c + [tx], entries)
  {
    KeyMarksNext(p, k, c, tx, keys, entries);
    RolesAreInvolved(tx, k, entries);
  }

  lemma SignersKnownNext(c: seq<Tx>, keys: seq<RawKey>, tx: Tx, entries: seq<RawKey>)
    requires SignersKnown(c, keys) && keys <= entries && forall s :: s in tx.SignatureKeys() ==> s in entries
    ensures SignersKnown(c + [tx], entries)
  {
    forall i, s | 0 <= i < |c + [tx]| && s in (c + [tx])[i].SignatureKeys() ensures s in entries {
      if i < |c| {
        assert (c + [tx])[i] == c[i] && s in c[i].SignatureKeys() && s in keys;
        var j :| 0 <= j < |keys| && keys[j] == s;
        assert entries[j] == s;
      }
    }
  }

  lemma KeysNext(c: seq<Tx>, keys: seq<RawKey>, involved: KeyTable, tx: Tx, entries: seq<RawKey>,
                 addresses: seq<PublicKeyIndex>, involved': KeyTable)
    requires SignersKnown(c, keys) && ChainOrder(c) && ChainOrder(c + [tx])
    requires forall k :: k != EMPTY ==> KeyMarks(KeyBitmaps(involved, k), k, c, keys)
    requires keys <= entries && Distinct(entries) && tx.IsReadable()
    requires AreInvolvedAddresses(tx, entries, addresses) && KeysEntered(involved, tx, entries, addresses, involved')
    ensures forall k :: k != EMPTY ==> KeyMarks(KeyBitmaps(involved', k), k, c + [tx], entries)
  {
    forall k | k != EMPTY ensures KeyMarks(KeyBitmaps(involved', k), k, c + [tx], entries) {
      KeyNext(tx, k, KeyBitmaps(involved, k), addresses, c, keys, entries);
    }
  }

  lemma TypesAndCoinsNext(c: seq<Tx>, keys: seq<RawKey>, perType: map<TransactionType, Bitmap>, coins: map<nat, Bitmap>,
                          tx: Tx, entries: seq<RawKey>, coins': map<nat, Bitmap>)
    requires SignersKnown(c, keys) && ChainOrder(c) && ChainOrder(c + [tx]) && keys <= entries && Distinct(entries)
    requires tx.transactionType in perType
    requires forall t :: t in perType ==> Marks(perType[t], c, OfType(t), keys)
    requires forall coin :: Marks(CoinBitmap(coins, coin), c, InForeignCoin(coin), keys)
    requires CoinsEntered(coins, tx, coins')
    ensures
      var perType' := perType[tx.transactionType := perType[tx.transactionType] + {tx.txNr}];
      forall t :: t in perType' ==> Marks(perType'[t], c + [tx], OfType(t), entries)
    ensures forall coin :: Marks(CoinBitmap(coins', coin), c + [tx], InForeignCoin(coin), entries)
  {
    var perType' := perType[tx.transactionType := perType[tx.transactionType] + {tx.txNr}];
    forall t | t in perType' ensures Marks(perType'[t], c + [tx], OfType(t), entries) {
      MarksNext(perType[t], c, tx, OfType(t), keys, entries);
    }
    forall coin ensures Marks(CoinBitmap(coins', coin), c + [tx], InForeignCoin(coin), entries) {
      MarksNext(CoinBitmap(coins, coin), c, tx, InForeignCoin(coin), keys, entries);
    }
  }

  /** Entering a transaction under its involved addresses, its type and its coins keeps every bitmap exact. */
  lemma AllMarkNext(c: seq<Tx>, keys: seq<RawKey>, involved: KeyTable, perType: map<TransactionType, Bitmap>,
                    coins: map<nat, Bitmap>, tx: Tx, entries: seq<RawKey>, addresses: seq<PublicKeyIndex>,
                    involved': KeyTable, coins': map<nat, Bitmap>)
    requires AllMark(c, keys, involved, perType, coins) && ChainOrder(c) && ChainOrder(c + [tx])
    requires tx.transactionType in perType
    requires keys <= entries && Distinct(entries) && tx.IsReadable()
    requires forall s :: s in tx.SignatureKeys() ==> s in entries
    requires AreInvolvedAddresses(tx, entries, addresses)
    requires KeysEntered(involved, tx, entries, addresses, involved') && EMPTY !in involved'
    requires CoinsEntered(coins, tx, coins')
    ensures AllMark(c + [tx], entries, involved',
                    perType[tx.transactionType := perType[tx.transactionType] + {tx.txNr}], coins')
  {
    KeysNext(c, keys, involved, tx, entries, addresses, involved');
    TypesAndCoinsNext(c, keys, perType, coins, tx, entries, coins');
    SignersKnownNext(c, keys, tx, entries);
  }
}
