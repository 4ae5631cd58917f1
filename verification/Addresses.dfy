/** Per key: the type of the address, where it was given, and the last change of its balance. */
module Addresses {
  import opened Wrappers
  import opened ConfirmedTx

  const ADDRESS_COMMUNITY_GMW: nat := 2
  const ADDRESS_COMMUNITY_AUF: nat := 3
  const ADDRESS_DEFERRED_TRANSFER: nat := 7

  datatype AddressData = AddressData(addressType: nat, transactionNrs: seq<nat>, lastBalanceChangingTransactionNr: nat)

  /** A key together with the address type a transaction gives it. */
  datatype Registration = Registration(publicKeyIndex: nat, addressType: nat)

  function Registrations(tx: Tx): seq<Registration> {
    match tx.transactionType
    case CommunityRoot =>
      [Registration(tx.specific.auf, ADDRESS_COMMUNITY_AUF), Registration(tx.specific.gmw, ADDRESS_COMMUNITY_GMW)]
    case RegisterAddress =>
      [Registration(tx.specific.user, tx.specific.addressType), Registration(tx.specific.account, tx.specific.addressType)]
    case DeferredTransfer => [Registration(tx.specific.recipient, ADDRESS_DEFERRED_TRANSFER)]
    case _ => []
  }

  /**
   The transaction gives the key an address type: 3 and 2 to the keys of a community, 7 to the recipient of
   a deferred transfer, its own one to user and account.
   */
  ghost predicate Registers(tx: Tx, k: nat, addressType: nat) {
    || (tx.transactionType == CommunityRoot &&
        ((k == tx.specific.auf && addressType == 3) || (k == tx.specific.gmw && addressType == 2)))
    || (tx.transactionType == RegisterAddress && k in {tx.specific.user, tx.specific.account} &&
        addressType == tx.specific.addressType)
    || (tx.transactionType == DeferredTransfer && k == tx.specific.recipient && addressType == 7)
  }

  lemma RegistrationsHold(tx: Tx)
    ensures forall k, t :: Registers(tx, k, t) <==> Registration(k, t) in Registrations(tx)
  {
  }

  type AddressTable = map<nat, AddressData>

  predicate Fits(a: AddressTable, r: Registration) {
    r.publicKeyIndex in a ==> a[r.publicKeyIndex].addressType == r.addressType
  }

  /** No key has, or is given, two types. */
  ghost predicate AllFit(a: AddressTable, rs: seq<Registration>) {
    && (forall i :: 0 <= i < |rs| ==> Fits(a, rs[i]))
    && (forall i, j :: 0 <= i < j < |rs| && rs[i].publicKeyIndex == rs[j].publicKeyIndex ==> rs[i].addressType == rs[j].addressType)
  }

  /** No key the transaction gives a type has, or is given, another one. */
  ghost predicate CanRegister(a: AddressTable, tx: Tx) {
    forall k, t :: Registers(tx, k, t) ==>
      && (k in a ==> a[k].addressType == t)
      && forall t' :: Registers(tx, k, t') ==> t == t'
  }

  lemma AllFitMeansCanRegister(a: AddressTable, tx: Tx)
    ensures AllFit(a, Registrations(tx)) <==> CanRegister(a, tx)
  {
    hide Registers, Registrations;
    var rs := Registrations(tx);
    RegistrationsHold(tx);
    if CanRegister(a, tx) {
      forall i | 0 <= i < |rs| ensures Registers(tx, rs[i].publicKeyIndex, rs[i].addressType) {
        assert rs[i] in rs;
      }
    }
    if AllFit(a, rs) {
      forall k, t, t' | Registers(tx, k, t) && Registers(tx, k, t')
        ensures (k in a ==> a[k].addressType == t) && t == t'
      {
        var i :| 0 <= i < |rs| && rs[i] == Registration(k, t);
        var j :| 0 <= j < |rs| && rs[j] == Registration(k, t');
      }
    }
  }

  /** The transaction nr is noted once for the key; nothing else changes. */
  function Registered(a: AddressTable, r: Registration, nr: nat): AddressTable {
    var k := r.publicKeyIndex;
    if k !in a then a[k := AddressData(r.addressType, [nr], 0)]
    else if nr in a[k].transactionNrs then a
    else a[k := a[k].(transactionNrs := a[k].transactionNrs + [nr])]
  }

  function AllRegistered(a: AddressTable, rs: seq<Registration>, nr: nat): AddressTable {
    if rs == [] then a else Registered(AllRegistered(a, rs[..|rs|-1], nr), rs[|rs|-1], nr)
  }

  function LastChangeOf(a: AddressTable, k: nat): nat {
    if k in a then a[k].lastBalanceChangingTransactionNr else 0
  }

  lemma {:induction false} RegisteringKeepsLastChanges(a: AddressTable, rs: seq<Registration>, nr: nat, k: nat)
    ensures LastChangeOf(AllRegistered(a, rs, nr), k) == LastChangeOf(a, k)
    ensures k in AllRegistered(a, rs, nr) <==> k in a || exists i :: 0 <= i < |rs| && rs[i].publicKeyIndex == k
    ensures AllFit(a, rs) && k in AllRegistered(a, rs, nr) ==>
      if k in a then AllRegistered(a, rs, nr)[k].addressType == a[k].addressType
      else exists i :: 0 <= i < |rs| && rs[i] == Registration(k, AllRegistered(a, rs, nr)[k].addressType)
  {
    if rs != [] {
      var init, r := rs[..|rs|-1], rs[|rs|-1];
      assert rs == init + [r];
      RegisteringKeepsLastChanges(a, init, nr, k);
      var before := AllRegistered(a, init, nr);
      if i :| 0 <= i < |init| && init[i].publicKeyIndex == k { assert rs[i].publicKeyIndex == k; }
      if AllFit(a, rs) {
        assert AllFit(a, init);
        if k in before && k !in a {
          var i :| 0 <= i < |init| && init[i] == Registration(k, before[k].addressType);
          assert rs[i] == init[i];
        }
      }
    }
  }

  /** Key k is among the first n account balances. */
  ghost predicate HasAccount(tx: Tx, n: nat, k: nat)
    requires n <= |tx.accountBalances|
  {
    exists i :: 0 <= i < n && tx.accountBalances[i].publicKeyIndex == k
  }

  /** The same keys with the same types and transactions. */
  ghost predicate SameAddresses(a: AddressTable, b: AddressTable) {
    a.Keys == b.Keys && forall k :: k in a ==> a[k].addressType == b[k].addressType && a[k].transactionNrs == b[k].transactionNrs
  }

  ghost predicate IsRegistered(tx: Tx, k: nat) {
    exists t :: Registers(tx, k, t)
  }

  function NumbersOf(a: AddressTable, k: nat): seq<nat> {
    if k in a then a[k].transactionNrs else []
  }

  function NotedOnce(nrs: seq<nat>, nr: nat): seq<nat> {
    if nr in nrs then nrs else nrs + [nr]
  }

  /**
   The keys that get a type are in the table with it, and with the number of the transaction; those in the
   table that have a balance have its change noted.
   */
  ghost predicate Followed(a: AddressTable, tx: Tx, a': AddressTable) {
    && (forall k :: k in a' <==> k in a || IsRegistered(tx, k))
    && (forall k :: k in a' ==> if k in a then a'[k].addressType == a[k].addressType else Registers(tx, k, a'[k].addressType))
    && (forall k :: NumbersOf(a', k) == if IsRegistered(tx, k) then NotedOnce(NumbersOf(a, k), tx.txNr) else NumbersOf(a, k))
    && forall k ::
      (LastChangeOf(a', k) == if k in a' && HasAccount(tx, |tx.accountBalances|, k) then tx.txNr else LastChangeOf(a, k))
  }

  lemma {:induction false} RegisteringNotesNumbers(a: AddressTable, rs: seq<Registration>, nr: nat, k: nat)
    ensures NumbersOf(AllRegistered(a, rs, nr), k) ==
      if exists i :: 0 <= i < |rs| && rs[i].publicKeyIndex == k then NotedOnce(NumbersOf(a, k), nr) else NumbersOf(a, k)
  {
    if rs != [] {
      var init, r := rs[..|rs|-1], rs[|rs|-1];
      assert rs == init + [r];
      RegisteringNotesNumbers(a, init, nr, k);
      RegisteringKeepsLastChanges(a, init, nr, k);
      if i :| 0 <= i < |init| && init[i].publicKeyIndex == k { assert rs[i].publicKeyIndex == k; }
    }
  }

  /** After all registrations the table is that of the transaction. */
  lemma RegisteredIsFollowed(a: AddressTable, tx: Tx, a': AddressTable)
    requires AllFit(a, Registrations(tx)) && SameAddresses(a', AllRegistered(a, Registrations(tx), tx.txNr))
    requires forall k ::
      (LastChangeOf(a', k) == if k in a' && HasAccount(tx, |tx.accountBalances|, k) then tx.txNr else LastChangeOf(a, k))
    ensures Followed(a, tx, a')
  {
    hide Registers, Registrations, AllFit, HasAccount, NotedOnce;
    var rs := Registrations(tx);
    RegistrationsHold(tx);
    forall k
      ensures k in a' <==> k in a || IsRegistered(tx, k)
      ensures k in a' ==> if k in a then a'[k].addressType == a[k].addressType else Registers(tx, k, a'[k].addressType)
      ensures NumbersOf(a', k) == if IsRegistered(tx, k) then NotedOnce(NumbersOf(a, k), tx.txNr) else NumbersOf(a, k)
    {
      RegisteringKeepsLastChanges(a, rs, tx.txNr, k);
      RegisteringNotesNumbers(a, rs, tx.txNr, k);
      if i :| 0 <= i < |rs| && rs[i].publicKeyIndex == k {
        assert rs[i] in rs && rs[i] == Registration(k, rs[i].addressType);
      }
      if t :| Registers(tx, k, t) {
        var i :| 0 <= i < |rs| && rs[i] == Registration(k, t);
        assert rs[i].publicKeyIndex == k;
      }
    }
  }

  /** The first n registrations are entered, the next one does not fit. */
  ghost predicate StopsAt(a: AddressTable, tx: Tx, n: nat, a': AddressTable) {
    var rs := Registrations(tx);
    n < |rs| && a' == AllRegistered(a, rs[..n], tx.txNr) && !Fits(a', rs[n])
  }

  class AddressIndex {
    const communityIdIndex: nat
    var addresses: AddressTable

    constructor (communityIdIndex: nat)
      ensures this.communityIdIndex == communityIdIndex && addresses == map[]
    {
      this.communityIdIndex, addresses := communityIdIndex, map[];
    }

    /** A key keeps the type it got first. */
    method AddTransactionNrForIndex(r: Registration, transactionNr: nat) returns (added: Result<bool, TxError>)
      modifies this
      ensures added.Success? <==> old(Fits(addresses, r))
      ensures addresses == if added.Success? then Registered(old(addresses), r, transactionNr) else old(addresses)
      ensures added.Success? ==> (added.value <==> addresses != old(addresses))
    {
      var k := r.publicKeyIndex;
      if k !in addresses {
        addresses := addresses[k := AddressData(r.addressType, [transactionNr], 0)];
        return Success(true);
      }
      if addresses[k].addressType != r.addressType {
        return Failure(InvalidData);
      }
      var nrs := addresses[k].transactionNrs;
      for i := 0 to |nrs|
        invariant transactionNr !in nrs[..i] && addresses == old(addresses)
      {
        if nrs[i] == transactionNr {
          return Success(false);
        }
      }
      assert nrs[..|nrs|] == nrs;
      addresses := addresses[k := addresses[k].(transactionNrs := nrs + [transactionNr])];
      assert |addresses[k].transactionNrs| > |nrs|;
      return Success(true);
    }

    method UpdateLastBalanceChangingTransactionNr(k: nat, transactionNr: nat) returns (found: bool)
      modifies this
      ensures found <==> k in old(addresses)
      ensures addresses ==
        if found then old(addresses)[k := old(addresses)[k].(lastBalanceChangingTransactionNr := transactionNr)]
        else old(addresses)
    {
      found := k in addresses;
      if found {
        addresses := addresses[k := addresses[k].(lastBalanceChangingTransactionNr := transactionNr)];
      }
    }

    /** Only keys with an address type have their balance changes followed. */
    method AddTransaction(tx: Tx) returns (r: Result<(), TxError>)
      modifies this
      ensures r.Success? <==> CanRegister(old(addresses), tx)
      ensures r.Success? ==> Followed(old(addresses), tx, addresses)
      ensures r.Failure? ==> forall k :: LastChangeOf(addresses, k) == LastChangeOf(old(addresses), k)
      ensures r.Failure? ==> exists n :: StopsAt(old(addresses), tx, n, addresses)
    {
      var rs := Registrations(tx);
      AllFitMeansCanRegister(addresses, tx);
      for n := 0 to |rs|
        invariant AllFit(old(addresses), rs[..n])
        invariant addresses == AllRegistered(old(addresses), rs[..n], tx.txNr)
      {
        assert rs[..n+1] == rs[..n] + [rs[n]];
        RegisteringKeepsLastChanges(old(addresses), rs[..n], tx.txNr, rs[n].publicKeyIndex);
        FitsNext(old(addresses), rs, n, tx.txNr);
        assert !Fits(addresses, rs[n]) ==> StopsAt(old(addresses), tx, n, addresses);
        var _ :- AddTransactionNrForIndex(rs[n], tx.txNr);
      }
      assert rs[..|rs|] == rs;
      ghost var registered := addresses;
      forall k ensures LastChangeOf(registered, k) == LastChangeOf(old(addresses), k) {
        RegisteringKeepsLastChanges(old(addresses), rs, tx.txNr, k);
      }
      hide AllRegistered, AllFit, CanRegister;
      NoteBalances(tx);
      RegisteredIsFollowed(old(addresses), tx, addresses);
      return Success(());
    }

    /** The loop over the account balances. */
    method NoteBalances(tx: Tx)
      modifies this
      ensures SameAddresses(addresses, old(addresses))
      ensures forall k ::
        (LastChangeOf(addresses, k) ==
         if k in addresses && HasAccount(tx, |tx.accountBalances|, k) then tx.txNr else old(LastChangeOf(addresses, k)))
    {
      for n := 0 to |tx.accountBalances|
        invariant SameAddresses(addresses, old(addresses))
        invariant forall k ::
          (LastChangeOf(addresses, k) ==
           if k in addresses && HasAccount(tx, n, k) then tx.txNr else old(LastChangeOf(addresses, k)))
      {
        var found := UpdateLastBalanceChangingTransactionNr(tx.accountBalances[n].publicKeyIndex, tx.txNr);
      }
    }

    lemma FitsNext(a: AddressTable, rs: seq<Registration>, n: nat, nr: nat)
      requires n < |rs| && AllFit(a, rs[..n])
      ensures AllFit(a, rs[..n+1]) <==> Fits(AllRegistered(a, rs[..n], nr), rs[n])
      ensures AllFit(a, rs) ==> AllFit(a, rs[..n+1])
    {
      var k := rs[n].publicKeyIndex;
      RegisteringKeepsLastChanges(a, rs[..n], nr, k);
      var after := AllRegistered(a, rs[..n], nr);
      assert forall i :: 0 <= i <= n ==> rs[..n+1][i] == rs[i];
      assert forall i :: 0 <= i < n ==> rs[..n][i] == rs[i];
      if k in after && k !in a {
        var i :| 0 <= i < n && rs[..n][i] == Registration(k, after[k].addressType);
        assert rs[..n+1][i] == rs[..n][i];
      }
    }

    /** 0 if the key has no address type or no balance change since it got one. */
    method LastBalanceChanged(k: PublicKeyIndex) returns (r: Result<nat, TxError>)
      ensures r == if k.communityIdIndex == communityIdIndex then Success(LastChangeOf(addresses, k.publicKeyIndex))
                   else Failure(InvalidData)
    {
      if k.communityIdIndex != communityIdIndex {
        return Failure(InvalidData);
      }
      if k.publicKeyIndex !in addresses {
        return Success(0);
      }
      return Success(addresses[k.publicKeyIndex].lastBalanceChangingTransactionNr);
    }
  }
}
