/** The compact confirmed transaction and the public keys that take part in it. */
module ConfirmedTx {
  import opened Wrappers
  import opened Sequences
  import opened Dictionary

  datatype RawKey = RawKey(bytes: seq<nat>)

  datatype PublicKeyIndex = PublicKeyIndex(communityIdIndex: nat, publicKeyIndex: nat) {
    predicate Less(other: PublicKeyIndex) {
      if communityIdIndex != other.communityIdIndex then communityIdIndex < other.communityIdIndex
      else publicKeyIndex < other.publicKeyIndex
    }
  }

  /** Keys are ordered by their community first. */
  lemma KeysInOrder(a: PublicKeyIndex, b: PublicKeyIndex)
    ensures a.communityIdIndex < b.communityIdIndex ==> a.Less(b)
    ensures a.Less(b) ==> a.communityIdIndex <= b.communityIdIndex
    ensures a.communityIdIndex == b.communityIdIndex ==> (a.Less(b) <==> a.publicKeyIndex < b.publicKeyIndex)
  {
  }

  /** The empty key, PublicKeyIndex() in the source. */
  const EMPTY := PublicKeyIndex(0, 0)

  datatype CrossGroup = Local | Outbound | Inbound | OtherCrossGroup

  datatype TransactionType =
    | NoType | Creation | Transfer | DeferredTransfer | RedeemDeferredTransfer | TimeoutDeferredTransfer
    | RegisterAddress | CommunityRoot | CommunityFriendsUpdate

  /** The union `specific`; which member is live follows from the transaction type. */
  datatype Specific = Specific(
    sender: nat, recipient: nat,              // transfer family; creation has only the recipient
    user: nat, account: nat, addressType: nat,
    root: nat, gmw: nat, auf: nat)

  datatype AccountBalance = AccountBalance(publicKeyIndex: nat, coinCommunityIdIndex: nat)

  datatype ColdData = ColdData(pairingTxCommunityIdIndex: nat, signatureKeys: seq<RawKey>)

  /** A calendar day; the day of the epoch instant is read as 0/0/0 (timepointAsYearMonthDay). */
  datatype Date = Date(year: int, month: nat, day: nat) {
    predicate Less(other: Date) {
      if year != other.year then year < other.year
      else if month != other.month then month < other.month
      else day < other.day
    }

    predicate Ok() { 1 <= year && 1 <= month <= 12 && 1 <= day <= 31 }
  }

  /** Days are ordered as the days of years of twelve months of 31 days. */
  lemma DaysInOrder(a: Date, b: Date)
    requires a.Ok() && b.Ok()
    ensures a.Less(b) <==> (a.year * 12 + a.month) * 31 + a.day < (b.year * 12 + b.month) * 31 + b.day
  {
  }

  const NO_DATE := Date(0, 0, 0)

  datatype TxError = TooManyKeys | MissingColdData | UnhandledType | EmptyPublicKey | MissingDictionaryEntry | InvalidData

  datatype Tx = Tx(
    txNr: nat, confirmedAt: Date, txCommunityIdIndex: nat, coinCommunityIdIndex: nat,
    crossGroupType: CrossGroup, transactionType: TransactionType, specific: Specific,
    accountBalances: seq<AccountBalance>, coldData: Option<ColdData>)
  {
    /** The array of account balances has three places. */
    predicate FitsLayout() { |accountBalances| <= 3 }

    predicate IsTransferLike() {
      transactionType.Transfer? || transactionType.DeferredTransfer? ||
      transactionType.RedeemDeferredTransfer? || transactionType.TimeoutDeferredTransfer?
    }

    function SignatureKeys(): seq<RawKey> {
      if coldData.Some? then coldData.value.signatureKeys else []
    }

    function GetSender(): Result<PublicKeyIndex, TxError> {
      var idx := if IsTransferLike() then specific.sender else 0;
      if idx == 0 then Success(EMPTY)
      else if crossGroupType.Inbound? then
        if coldData.None? then Failure(MissingColdData)
        else Success(PublicKeyIndex(coldData.value.pairingTxCommunityIdIndex, idx))
      else Success(PublicKeyIndex(txCommunityIdIndex, idx))
    }

    function GetRecipient(): Result<PublicKeyIndex, TxError> {
      var idx := if transactionType.Creation? || IsTransferLike() then specific.recipient else 0;
      if idx == 0 then Success(EMPTY)
      else if crossGroupType.Outbound? then
        if coldData.None? then Failure(MissingColdData)
        else Success(PublicKeyIndex(coldData.value.pairingTxCommunityIdIndex, idx))
      else Success(PublicKeyIndex(txCommunityIdIndex, idx))
    }

    function Own(idx: nat): PublicKeyIndex { PublicKeyIndex(txCommunityIdIndex, idx) }

    /** The keys the body of the transaction names, in the order getInvolvedAddresses collects them. */
    function BodyKeys(): (r: Result<seq<PublicKeyIndex>, TxError>)
      ensures r.Success? ==> |r.value| <= 3
    {
      if IsTransferLike() then
        var sender :- GetSender();
        var recipient :- GetRecipient();
        Success([sender, recipient])
      else match transactionType
        case Creation => var recipient :- GetRecipient(); Success([recipient])
        case RegisterAddress => Success([Own(specific.user), Own(specific.account)])
        case CommunityRoot => Success([Own(specific.root), Own(specific.auf), Own(specific.gmw)])
        case _ => Failure(UnhandledType)
    }

    /** Keys from neither balances nor signatures that the roaring index tracks. */
    function GetOtherInvolved(): Result<seq<PublicKeyIndex>, TxError> {
      match crossGroupType
      case Local => Success(if transactionType.CommunityRoot? then [Own(specific.root)] else [])
      case Inbound => var sender :- GetSender(); Success([sender])
      case Outbound => var recipient :- GetRecipient(); Success([recipient])
      case OtherCrossGroup => Success([])
    }

    function IsOtherInvolved(k: PublicKeyIndex): Result<bool, TxError> {
      var others :- GetOtherInvolved();
      Success(k in others)
    }

    predicate IsBalanceUpdated(k: PublicKeyIndex) {
      k.communityIdIndex == txCommunityIdIndex &&
      exists i :: 0 <= i < |accountBalances| && accountBalances[i].publicKeyIndex == k.publicKeyIndex
    }

    /** `keys` are the entries of the dictionary of the transaction's community. */
    function IsSignaturePublicKey(k: PublicKeyIndex, keys: seq<RawKey>): Result<bool, TxError> {
      if k.communityIdIndex != txCommunityIdIndex then Success(false)
      else if coldData.None? then Failure(MissingColdData)
      else if !(1 <= k.publicKeyIndex <= |keys|) then Failure(MissingDictionaryEntry)
      else Success(keys[k.publicKeyIndex - 1] in SignatureKeys())
    }

    function IsInvolved(k: PublicKeyIndex, keys: seq<RawKey>): Result<bool, TxError> {
      if k == EMPTY then Success(false)
      else if IsBalanceUpdated(k) then Success(true)
      else if IsTransferLike() then
        var sender :- GetSender();
        if k == sender then Success(true) else
        var recipient :- GetRecipient();
        if k == recipient then Success(true) else SignedInColdData(k, keys)
      else match transactionType
        case Creation =>
          var recipient :- GetRecipient();
          if k == recipient then Success(true) else SignedInColdData(k, keys)
        case RegisterAddress =>
          if k == Own(specific.user) || k == Own(specific.account) then Success(true) else SignedInColdData(k, keys)
        case CommunityRoot =>
          if k == Own(specific.root) || k == Own(specific.auf) || k == Own(specific.gmw) then Success(true)
          else SignedInColdData(k, keys)
        case _ => Failure(UnhandledType)
    }

    /** The tail of isInvolved: getRawKey throws when the index has no key. */
    function SignedInColdData(k: PublicKeyIndex, keys: seq<RawKey>): Result<bool, TxError> {
      if coldData.Some? && k.communityIdIndex == txCommunityIdIndex then
        if !(1 <= k.publicKeyIndex <= |keys|) then Failure(MissingDictionaryEntry)
        else Success(keys[k.publicKeyIndex - 1] in SignatureKeys())
      else Success(false)
    }

    function HasCoinsFromCommunity(coin: nat): bool {
      exists i :: 0 <= i < |accountBalances| && accountBalances[i].coinCommunityIdIndex == coin
    }

    // ---------- the independent description of getInvolvedAddresses ----------

    ghost predicate Signed(k: PublicKeyIndex, keys: seq<RawKey>) {
      && k.communityIdIndex == txCommunityIdIndex
      && coldData.Some? && exists s :: s in coldData.value.signatureKeys && StandsFor(keys, k.publicKeyIndex, s)
    }

    /** Whether the key has signed can be told: foreign keys never do, own ones are looked up in dictionary and cold data. */
    ghost predicate IsKnown(k: PublicKeyIndex, keys: seq<RawKey>) {
      k.communityIdIndex == txCommunityIdIndex ==> coldData.Some? && 1 <= k.publicKeyIndex <= |keys|
    }

    lemma SignersAreRead(k: PublicKeyIndex, keys: seq<RawKey>)
      ensures IsSignaturePublicKey(k, keys).Success? <==> IsKnown(k, keys)
      ensures IsKnown(k, keys) ==> IsSignaturePublicKey(k, keys) == Success(Signed(k, keys))
    {
      if IsKnown(k, keys) && k.communityIdIndex == txCommunityIdIndex {
        assert StandsFor(keys, k.publicKeyIndex, keys[k.publicKeyIndex - 1]);
      }
    }

    /** The sender is of the own community, that of an inbound transaction of the pairing one. */
    ghost predicate NamesSender(k: PublicKeyIndex) {
      && transactionType in {Transfer, DeferredTransfer, RedeemDeferredTransfer, TimeoutDeferredTransfer}
      && k.publicKeyIndex == specific.sender != 0
      && if crossGroupType == Inbound then coldData.Some? && k.communityIdIndex == coldData.value.pairingTxCommunityIdIndex
         else k.communityIdIndex == txCommunityIdIndex
    }

    /** The recipient is of the own community, that of an outbound transaction of the pairing one. */
    ghost predicate NamesRecipient(k: PublicKeyIndex) {
      && transactionType in {Creation, Transfer, DeferredTransfer, RedeemDeferredTransfer, TimeoutDeferredTransfer}
      && k.publicKeyIndex == specific.recipient != 0
      && if crossGroupType == Outbound then coldData.Some? && k.communityIdIndex == coldData.value.pairingTxCommunityIdIndex
         else k.communityIdIndex == txCommunityIdIndex
    }

    ghost predicate NamesAddress(k: PublicKeyIndex) {
      && k.communityIdIndex == txCommunityIdIndex
      && (|| (transactionType == RegisterAddress && k.publicKeyIndex in {specific.user, specific.account})
          || (transactionType == CommunityRoot && k.publicKeyIndex in {specific.root, specific.gmw, specific.auf}))
    }

    /** The body of the transaction names the key. */
    ghost predicate Names(k: PublicKeyIndex) {
      NamesSender(k) || NamesRecipient(k) || NamesAddress(k)
    }

    /** The keys of the body can be read: its type is known, and cold data have the community of a foreign side. */
    ghost predicate IsReadable() {
      && transactionType !in {NoType, CommunityFriendsUpdate}
      && (coldData.None? && specific.sender != 0 && crossGroupType == Inbound ==>
           transactionType !in {Transfer, DeferredTransfer, RedeemDeferredTransfer, TimeoutDeferredTransfer})
      && (coldData.None? && specific.recipient != 0 && crossGroupType == Outbound ==>
           transactionType !in {Creation, Transfer, DeferredTransfer, RedeemDeferredTransfer, TimeoutDeferredTransfer})
    }

    /**
     The body names the key, and it needs neither a balance nor a signature here: the foreign side of a
     cross-community transaction, or the root key of a local community.
     */
    ghost predicate NamesOther(k: PublicKeyIndex) {
      match crossGroupType
      case Inbound => NamesSender(k)
      case Outbound => NamesRecipient(k)
      case Local => transactionType == CommunityRoot && k == PublicKeyIndex(txCommunityIdIndex, specific.root)
      case OtherCrossGroup => false
    }

    ghost predicate Takes(k: PublicKeyIndex, keys: seq<RawKey>) {
      IsBalanceUpdated(k) || Signed(k, keys) || (IsReadable() && Names(k))
    }

    /** The keys the code reads from the body are those it names, apart from the empty key. */
    lemma BodyKeysAreNamed()
      ensures BodyKeys().Success? <==> IsReadable()
      ensures BodyKeys().Success? ==> forall k :: k != EMPTY ==> (k in BodyKeys().value <==> Names(k))
    {
      if BodyKeys().Success? {
        var body := BodyKeys().value;
        assert forall k :: k in body <==> exists i :: 0 <= i < |body| && body[i] == k;
      }
    }

    /** The keys read as otherwise involved are the named ones of a foreign community, and the root. */
    lemma OtherInvolvedAreNamed(k: PublicKeyIndex)
      requires k != EMPTY && IsReadable()
      ensures IsOtherInvolved(k) == Success(NamesOther(k)) && (NamesOther(k) ==> Names(k))
      ensures Names(k) && !NamesOther(k) ==> k.communityIdIndex == txCommunityIdIndex
    {
    }
  }

  // ---------- sort and unique ----------

  ghost predicate Ascending(s: seq<PublicKeyIndex>) {
    forall i, j :: 0 <= i < j < |s| ==> !s[j].Less(s[i])
  }

  ghost predicate StrictlyAscending(s: seq<PublicKeyIndex>) {
    forall i, j :: 0 <= i < j < |s| ==> s[i].Less(s[j])
  }

  function Insert(k: PublicKeyIndex, s: seq<PublicKeyIndex>): (r: seq<PublicKeyIndex>)
    requires Ascending(s)
    ensures Ascending(r) && |r| == |s| + 1
    ensures forall x :: x in r <==> x == k || x in s
  {
    if s == [] || !s[0].Less(k) then [k] + s else
      assert s == [s[0]] + s[1..];
      var rest := Insert(k, s[1..]);
      assert forall j :: 0 <= j < |s[1..]| ==> !s[1..][j].Less(s[0]);
      assert forall x :: x in rest ==> !x.Less(s[0]);
      assert forall i :: 0 <= i < |rest| ==> rest[i] in rest;
      [s[0]] + rest
  }

  /** std::sort; equal keys are indistinguishable, so every sorting algorithm gives this sequence. */
  function Sort(s: seq<PublicKeyIndex>): (r: seq<PublicKeyIndex>)
    ensures Ascending(r) && |r| == |s|
    ensures forall x :: x in r <==> x in s
  {
    if s == [] then [] else
      assert s == [s[0]] + s[1..];
      Insert(s[0], Sort(s[1..]))
  }

  /** std::unique: keeps the first of every group of equal neighbours. */
  function Unique(s: seq<PublicKeyIndex>): (r: seq<PublicKeyIndex>)
    requires Ascending(s)
    ensures StrictlyAscending(r) && (r == [] <==> s == [])
    ensures forall x :: x in r <==> x in s
  {
    if |s| <= 1 then s else
      var init := s[..|s|-1];
      assert s == init + [s[|s|-1]];
      var rest := Unique(init);
      var last := s[|s|-1];
      assert init[|init|-1] == s[|s|-2];
      if last == init[|init|-1] then rest else
        assert forall j :: 0 <= j < |init| ==> init[j].Less(last) by {
          assert forall j :: 0 <= j < |init| ==> init[j] == s[j] && (j == |init| - 1 || !init[|init|-1].Less(init[j]));
        }
        assert forall i :: 0 <= i < |rest| ==> rest[i] in init;
        rest + [last]
  }

  // ---------- the involved addresses ----------

  const MAX_PUBLIC_KEYS: nat := 9

  /** When getInvolvedAddresses does not throw. */
  ghost predicate HasInvolvedAddresses(tx: Tx) {
    && (forall s :: s in tx.SignatureKeys() ==> !AllZero(s.bytes))
    && |tx.accountBalances| + |tx.SignatureKeys()| + 3 < 9
    && tx.IsReadable()
  }

  /** The dictionary entries keys' extend keys by nothing but signature keys. */
  ghost predicate Grown(keys: seq<RawKey>, keys': seq<RawKey>, sigs: seq<RawKey>) {
    keys <= keys' && forall s :: s in keys' ==> s in keys || s in sigs
  }

  /** signers are the indices of the signature keys, in order. */
  ghost predicate AreSigners(tx: Tx, signers: seq<PublicKeyIndex>, sigs: seq<RawKey>, keys: seq<RawKey>) {
    && |signers| == |sigs|
    && (forall s :: s in sigs ==> s in keys)
    && forall j :: 0 <= j < |signers| ==> IsSigner(tx, signers[j], sigs[j], keys)
  }

  predicate IsSigner(tx: Tx, k: PublicKeyIndex, s: RawKey, keys: seq<RawKey>) {
    k.communityIdIndex == tx.txCommunityIdIndex && StandsFor(keys, k.publicKeyIndex, s)
  }

  lemma OneMoreSigner(tx: Tx, signers: seq<PublicKeyIndex>, sigs: seq<RawKey>, keys: seq<RawKey>, keys': seq<RawKey>,
                      i: nat, k: PublicKeyIndex)
    requires i < |sigs| && AreSigners(tx, signers, sigs[..i], keys) && keys <= keys' && IsSigner(tx, k, sigs[i], keys')
    ensures AreSigners(tx, signers + [k], sigs[..i+1], keys')
  {
    assert forall j :: 0 <= j < i ==> IsSigner(tx, signers[j], sigs[..i][j], keys);
    assert sigs[..i+1] == sigs[..i] + [sigs[i]];
    assert sigs[i] == keys'[k.publicKeyIndex - 1];
  }

  /** The loop over the signature map: places the index of every signer behind the account keys. */
  method CollectSigners(tx: Tx, dict: RuntimeDictionary<RawKey>, result: array<PublicKeyIndex>, start: nat)
    returns (cursor: nat, r: Result<(), TxError>)
    requires dict.Valid() && start <= 3 && result.Length == MAX_PUBLIC_KEYS
    modifies dict, result
    ensures dict.Valid() && Grown(old(dict.indexDataLookup), dict.indexDataLookup, tx.SignatureKeys())
    ensures r.Success? <==> start + |tx.SignatureKeys()| < MAX_PUBLIC_KEYS &&
                            forall s :: s in tx.SignatureKeys() ==> !AllZero(s.bytes)
    ensures r.Success? ==> cursor == start + |tx.SignatureKeys()|
    ensures r.Success? ==> AreSigners(tx, result[start..cursor], tx.SignatureKeys(), dict.indexDataLookup)
    ensures r.Success? ==> result[..start] == old(result[..start]) && result[cursor..] == old(result[..])[cursor..]
  {
    var sigs := tx.SignatureKeys();
    ghost var signers: seq<PublicKeyIndex> := [];
    ghost var before := result[..];
    cursor, r := start, Success(());
    for i := 0 to |sigs|
      invariant cursor == start + i < MAX_PUBLIC_KEYS && r.Success?
      invariant dict.Valid() && Grown(old(dict.indexDataLookup), dict.indexDataLookup, sigs)
      invariant forall j :: 0 <= j < i ==> !AllZero(sigs[j].bytes)
      invariant AreSigners(tx, signers, sigs[..i], dict.indexDataLookup)
      invariant result[..] == before[..start] + signers + before[cursor..]
    {
      var empty := IsEmpty(sigs[i].bytes);
      if empty {
        r := Failure(EmptyPublicKey);
        return;
      }
      ghost var keys := dict.indexDataLookup;
      var index := dict.GetOrAddIndexForData(sigs[i]);
      OneMoreSigner(tx, signers, sigs, keys, dict.indexDataLookup, i, tx.Own(index));
      Place(result[..], before, start, signers, tx.Own(index));
      result[cursor] := tx.Own(index);
      signers := signers + [tx.Own(index)];
      cursor := cursor + 1;
      if cursor >= MAX_PUBLIC_KEYS {
        r := Failure(TooManyKeys);
        return;
      }
    }
    assert sigs[..|sigs|] == sigs;
    assert result[..][start..cursor] == signers;
  }

  lemma Place(now: seq<PublicKeyIndex>, before: seq<PublicKeyIndex>, start: nat, signers: seq<PublicKeyIndex>, k: PublicKeyIndex)
    requires start + |signers| < |before| && now == before[..start] + signers + before[start + |signers|..]
    ensures now[start + |signers| := k] == before[..start] + (signers + [k]) + before[start + |signers| + 1..]
  {
  }

  /** The switch over the transaction type: places the keys of the body. */
  method PlaceBody(result: array<PublicKeyIndex>, start: nat, body: seq<PublicKeyIndex>) returns (cursor: nat)
    requires start + |body| <= result.Length
    modifies result
    ensures cursor == start + |body|
    ensures result[..] == old(result[..start]) + body + old(result[..])[cursor..]
  {
    ghost var before := result[..];
    cursor := start;
    for i := 0 to |body|
      invariant cursor == start + i && result[..] == before[..start] + body[..i] + before[cursor..]
    {
      Place(result[..], before, start, body[..i], body[i]);
      assert body[..i+1] == body[..i] + [body[i]];
      result[cursor] := body[i];
      cursor := cursor + 1;
    }
    assert body[..|body|] == body;
  }

  /** Signature keys that the dictionary does not know yet are added to it on the way. */
  method GetInvolvedAddresses(tx: Tx, dict: RuntimeDictionary<RawKey>)
    returns (r: Result<seq<PublicKeyIndex>, TxError>)
    requires tx.FitsLayout() && dict.Valid()
    modifies dict
    ensures dict.Valid() && Grown(old(dict.indexDataLookup), dict.indexDataLookup, tx.SignatureKeys())
    ensures r.Success? <==> HasInvolvedAddresses(tx)
    ensures r.Success? ==> forall s :: s in tx.SignatureKeys() ==> s in dict.indexDataLookup
    ensures r.Success? ==> StrictlyAscending(r.value)
    ensures r.Success? ==> forall k :: k in r.value <==> k != EMPTY && tx.Takes(k, dict.indexDataLookup)
  {
    var result := new PublicKeyIndex[MAX_PUBLIC_KEYS](_ => EMPTY);
    var cursor: nat := 0;
    for i := 0 to |tx.accountBalances|
      modifies result
      invariant cursor == i
      invariant forall j :: 0 <= j < i ==> result[j] == tx.Own(tx.accountBalances[j].publicKeyIndex)
      invariant forall j :: cursor <= j < result.Length ==> result[j] == EMPTY
    {
      result[cursor] := tx.Own(tx.accountBalances[i].publicKeyIndex);
      cursor := cursor + 1;
      if cursor >= MAX_PUBLIC_KEYS { return Failure(TooManyKeys); }
    }
    var signers;
    cursor, signers := CollectSigners(tx, dict, result, cursor);
    if signers.Failure? { return Failure(signers.error); }
    if cursor + 3 >= MAX_PUBLIC_KEYS { return Failure(TooManyKeys); }
    tx.BodyKeysAreNamed();
    var body :- tx.BodyKeys();
    ghost var taken, n := result[..cursor], |tx.accountBalances|;
    assert taken[n..] == result[n..cursor] && taken[..n] == result[..n];
    assert HoldsAccountsAndSigners(tx, taken, dict.indexDataLookup);
    cursor := PlaceBody(result, cursor, body);
    ghost var padding := result[cursor..];
    assert forall k :: k in padding ==> k == EMPTY;
    var addresses := SortedWithoutEmpty(result[..]);
    dict.EntriesAreDistinct();
    Assembled(tx, taken, body, padding, addresses, dict.indexDataLookup);
    r := Success(addresses);
  }

  /** sort, unique and the skipping of the leading empty key. */
  method SortedWithoutEmpty(all: seq<PublicKeyIndex>) returns (r: seq<PublicKeyIndex>)
    ensures StrictlyAscending(r) && forall k :: k in r <==> k != EMPTY && k in all
  {
    var unique := Unique(Sort(all));
    var begin := 0;
    while begin < |unique| && unique[begin] == EMPTY
      invariant 0 <= begin <= |unique|
      invariant forall j :: 0 <= j < begin ==> unique[j] == EMPTY
    {
      begin := begin + 1;
    }
    r := unique[begin..];
    NonEmptySuffix(unique, begin);
  }

  /** The keys collected are the keys that take part. */
  lemma Assembled(tx: Tx, taken: seq<PublicKeyIndex>, body: seq<PublicKeyIndex>, padding: seq<PublicKeyIndex>,
                  addresses: seq<PublicKeyIndex>, keys: seq<RawKey>)
    requires Distinct(keys) && HoldsAccountsAndSigners(tx, taken, keys)
    requires tx.BodyKeys() == Success(body)
    requires forall k :: k in padding ==> k == EMPTY
    requires forall k :: k in addresses <==> k != EMPTY && k in taken + body + padding
    ensures forall k :: k in addresses <==> k != EMPTY && tx.Takes(k, keys)
  {
    hide Tx.BodyKeys, Tx.IsReadable, Tx.Names;
    tx.BodyKeysAreNamed();
    forall k ensures k in addresses <==> k != EMPTY && tx.Takes(k, keys) {
      assert k in taken + body + padding <==> k in taken || k in body || k in padding;
      TakenKeys(tx, taken, keys, k);
    }
  }

  ghost predicate HoldsAccountsAndSigners(tx: Tx, taken: seq<PublicKeyIndex>, keys: seq<RawKey>) {
    var n, sigs := |tx.accountBalances|, tx.SignatureKeys();
    && |taken| == n + |sigs|
    && (forall j :: 0 <= j < n ==> taken[j] == tx.Own(tx.accountBalances[j].publicKeyIndex))
    && AreSigners(tx, taken[n..], sigs, keys)
  }

  lemma NonEmptySuffix(s: seq<PublicKeyIndex>, begin: nat)
    requires StrictlyAscending(s) && begin <= |s|
    requires forall j :: 0 <= j < begin ==> s[j] == EMPTY
    requires begin < |s| ==> s[begin] != EMPTY
    ensures StrictlyAscending(s[begin..])
    ensures forall k :: k in s[begin..] <==> k in s && k != EMPTY
  {
    assert s == s[..begin] + s[begin..];
    assert forall j :: begin < j < |s| ==> s[begin].Less(s[j]);
  }

  lemma TakenKeys(tx: Tx, taken: seq<PublicKeyIndex>, keys: seq<RawKey>, k: PublicKeyIndex)
    requires Distinct(keys) && HoldsAccountsAndSigners(tx, taken, keys)
    ensures k in taken <==> tx.IsBalanceUpdated(k) || tx.Signed(k, keys)
  {
    var n, sigs := |tx.accountBalances|, tx.SignatureKeys();
    if tx.IsBalanceUpdated(k) {
      var j :| 0 <= j < n && tx.accountBalances[j].publicKeyIndex == k.publicKeyIndex;
      assert taken[j] == k;
    }
    if tx.Signed(k, keys) {
      var j :| 0 <= j < |sigs| && StandsFor(keys, k.publicKeyIndex, sigs[j]);
      assert IsSigner(tx, taken[n..][j], sigs[j], keys);
      assert taken[n + j] == k;
    }
    if k in taken {
      var j :| 0 <= j < |taken| && taken[j] == k;
      if j >= n { assert IsSigner(tx, taken[n..][j - n], sigs[j - n], keys); }
    }
  }

  /** isInvolved throws for own keys that the dictionary lacks and nothing names; else it agrees with the involved addresses. */
  lemma InvolvedAddressesAgree(tx: Tx, k: PublicKeyIndex, keys: seq<RawKey>, addresses: seq<PublicKeyIndex>)
    requires Distinct(keys) && HasInvolvedAddresses(tx)
    requires forall s :: s in tx.SignatureKeys() ==> s in keys
    requires forall a :: a in addresses <==> a != EMPTY && tx.Takes(a, keys)
    ensures tx.IsInvolved(k, keys).Failure? <==>
      && k != EMPTY && k.communityIdIndex == tx.txCommunityIdIndex && !(1 <= k.publicKeyIndex <= |keys|)
      && tx.coldData.Some? && !tx.IsBalanceUpdated(k) && !tx.Names(k)
    ensures tx.IsInvolved(k, keys).Success? ==> (tx.IsInvolved(k, keys).value <==> k in addresses)
  {
    if k.communityIdIndex == tx.txCommunityIdIndex && 1 <= k.publicKeyIndex <= |keys| {
      assert StandsFor(keys, k.publicKeyIndex, keys[k.publicKeyIndex - 1]);
    }
  }

  /** Every role the roaring index tracks belongs to an involved address. */
  lemma RolesAreInvolved(tx: Tx, k: PublicKeyIndex, keys: seq<RawKey>)
    requires k != EMPTY && tx.IsReadable()
    ensures tx.IsOtherInvolved(k).Success?
    ensures tx.IsOtherInvolved(k).value ==> tx.Takes(k, keys)
  {
    hide Tx.Names, Tx.IsReadable, Tx.NamesOther, Tx.IsOtherInvolved;
    tx.OtherInvolvedAreNamed(k);
  }
}
