/** Transaction bodies, their pairing, and the builder for local and cross-community transactions. */
module Builder {
  import opened Wrappers
  import opened Sequences
  import opened Signatures

  // ---------- bodies ----------

  datatype CrossGroup = Local | Outbound | Inbound

  datatype TransferAmount = TransferAmount(publicKey: Option<Bytes>, amount: int, coinCommunityIdIndex: nat) {
    predicate IsPairing(other: TransferAmount) {
      publicKey.Some? && publicKey == other.publicKey && amount == other.amount
    }

    /** operator==; an amount without a key is not even equal to itself. */
    predicate Equals(other: TransferAmount) {
      publicKey.Some? && publicKey == other.publicKey && amount == other.amount &&
      coinCommunityIdIndex == other.coinCommunityIdIndex
    }
  }

  datatype GradidoTransfer = GradidoTransfer(sender: TransferAmount, recipient: Option<Bytes>) {
    predicate IsPairing(other: GradidoTransfer) {
      sender.IsPairing(other.sender) && recipient.Some? && other.recipient.Some? && recipient == other.recipient
    }

    predicate Equals(other: GradidoTransfer) {
      sender.Equals(other.sender) && recipient.Some? && recipient == other.recipient
    }

    predicate HasKeys() { sender.publicKey.Some? && recipient.Some? }
  }

  datatype Specific =
    | NoSpecific
    | Transfer(transfer: GradidoTransfer)
    | Creation(recipient: TransferAmount, targetDate: int)
    | CommunityFriendsUpdate(colorFusion: bool)
    | RegisterAddress(addressType: nat, derivationIndex: nat, nameHashIndex: nat, userPublicKeyIndex: nat, accountPublicKeyIndex: nat)
    | DeferredTransfer(transfer: GradidoTransfer, timeoutDuration: int)
    | CommunityRoot(publicKeyIndex: nat, gmwPublicKeyIndex: nat, aufPublicKeyIndex: nat)
    | RedeemDeferredTransfer(deferredTransferTransactionNr: nat, transfer: GradidoTransfer)
    | TimeoutDeferredTransfer(deferredTransferTransactionNr: nat)

  datatype TransactionBody = TransactionBody(
    memos: seq<Bytes>, createdAt: int, crossGroup: CrossGroup, communityIdIndex: nat, otherCommunityIdIndex: Option<nat>,
    specific: Specific)
  {
    /** Memos and date must be the same, the other community must be different. */
    predicate IsPairing(other: TransactionBody) {
      if memos != other.memos || createdAt != other.createdAt || otherCommunityIdIndex == other.otherCommunityIdIndex then false
      else if specific.CommunityFriendsUpdate? && other.specific.CommunityFriendsUpdate? then specific == other.specific
      else if specific.RegisterAddress? && other.specific.RegisterAddress? then specific == other.specific
      else if specific.Transfer? && other.specific.Transfer? then specific.transfer.IsPairing(other.specific.transfer)
      else if specific.DeferredTransfer? && other.specific.DeferredTransfer? then
        specific.timeoutDuration == other.specific.timeoutDuration && specific.transfer.Equals(other.specific.transfer)
      else if specific.RedeemDeferredTransfer? && other.specific.RedeemDeferredTransfer? then
        specific.transfer.IsPairing(other.specific.transfer) &&
        specific.deferredTransferTransactionNr == other.specific.deferredTransferTransactionNr
      else if specific.TimeoutDeferredTransfer? && other.specific.TimeoutDeferredTransfer? then specific == other.specific
      else false
    }

    /** Types that have a pairing: with the keys of a transfer all set. */
    predicate CanPair() {
      match specific
      case CommunityFriendsUpdate(_) => true
      case RegisterAddress(_, _, _, _, _) => true
      case TimeoutDeferredTransfer(_) => true
      case Transfer(transfer) => transfer.HasKeys()
      case DeferredTransfer(transfer, _) => transfer.HasKeys()
      case RedeemDeferredTransfer(_, transfer) => transfer.HasKeys()
      case _ => false
    }

    predicate SameContent(other: TransactionBody) {
      specific == other.specific && memos == other.memos && createdAt == other.createdAt
    }

    function AsOutbound(sender: nat, recipient: nat): TransactionBody {
      this.(crossGroup := Outbound, communityIdIndex := sender, otherCommunityIdIndex := Some(recipient))
    }

    function AsInbound(sender: nat, recipient: nat): TransactionBody {
      this.(crossGroup := Inbound, communityIdIndex := recipient, otherCommunityIdIndex := Some(sender))
    }
  }

  /** Both transfers go from one key to one key, and have one amount. */
  ghost predicate SameMove(a: GradidoTransfer, b: GradidoTransfer) {
    && a.sender.publicKey.Some? && b.sender.publicKey.Some? && a.sender.publicKey.value == b.sender.publicKey.value
    && a.recipient.Some? && b.recipient.Some? && a.recipient.value == b.recipient.value
    && a.sender.amount == b.sender.amount
  }

  /** Both bodies are of one type and agree on what is specific to it; coins count in deferred transfers only. */
  ghost predicate SpecificsPair(a: Specific, b: Specific) {
    match a
    case CommunityFriendsUpdate(colorFusion) => b == CommunityFriendsUpdate(colorFusion)
    case RegisterAddress(addressType, derivation, name, user, account) =>
      b == RegisterAddress(addressType, derivation, name, user, account)
    case Transfer(transfer) => b.Transfer? && SameMove(transfer, b.transfer)
    case DeferredTransfer(transfer, timeout) =>
      && b.DeferredTransfer? && SameMove(transfer, b.transfer) && timeout == b.timeoutDuration
      && transfer.sender.coinCommunityIdIndex == b.transfer.sender.coinCommunityIdIndex
    case RedeemDeferredTransfer(nr, transfer) =>
      b.RedeemDeferredTransfer? && nr == b.deferredTransferTransactionNr && SameMove(transfer, b.transfer)
    case TimeoutDeferredTransfer(nr) => b == TimeoutDeferredTransfer(nr)
    case _ => false
  }

  /** Any two bodies pair exactly if memos and date are the same, the other community is not, and their specifics pair. */
  lemma PairingBodies(a: TransactionBody, b: TransactionBody)
    ensures a.IsPairing(b) <==>
      && a.memos == b.memos && a.createdAt == b.createdAt && a.otherCommunityIdIndex != b.otherCommunityIdIndex
      && SpecificsPair(a.specific, b.specific)
    ensures a.IsPairing(b) <==> b.IsPairing(a)
  {
  }

  /** The two sides of a cross-community transaction: each is sent by its own community and names the other one. */
  lemma SidesOfTransaction(body: TransactionBody, sender: nat, recipient: nat)
    ensures body.AsOutbound(sender, recipient) ==
      TransactionBody(body.memos, body.createdAt, Outbound, sender, Some(recipient), body.specific)
    ensures body.AsInbound(sender, recipient) ==
      TransactionBody(body.memos, body.createdAt, Inbound, recipient, Some(sender), body.specific)
  {
  }

  /** The two bodies of a cross-community transaction pair exactly when its type has a pairing. */
  lemma BodiesPair(body: TransactionBody, sender: nat, recipient: nat)
    requires sender != recipient
    ensures body.AsOutbound(sender, recipient).IsPairing(body.AsInbound(sender, recipient)) <==> body.CanPair()
    ensures body.AsInbound(sender, recipient).IsPairing(body.AsOutbound(sender, recipient)) <==> body.CanPair()
  {
  }

  // ---------- the builder ----------

  datatype KeyPair = KeyPair(publicKey: Bytes, privateKey: Bytes)

  datatype BuildingState = BuildingBody | LocalCommunity | CrossCommunity

  datatype BuilderError = WrongState | SpecificAlreadyChosen | MissingCommunity | MissingBodyBytes | KeyAlreadyExists | MissingLedgerAnchor

  datatype BodyBytesSignatureMap = BodyBytesSignatureMap(bodyBytes: Option<Bytes>, signatureMap: SignatureMap)

  datatype GradidoTransaction = GradidoTransaction(
    signatures: seq<SignaturePair>, bodyBytes: Option<Bytes>, communityIdIndex: nat, ledgerAnchor: Option<nat>)

  type Serializer = TransactionBody -> Bytes
  type Signer = (KeyPair, Bytes) -> Bytes

  /** The pairs that the key pairs give for one body, in their order. */
  ghost function SignedBy(signers: seq<KeyPair>, bytes: Bytes, sign: Signer): (pairs: seq<SignaturePair>)
    ensures |pairs| == |signers|
  {
    seq(|signers|, i requires 0 <= i < |signers| => SignaturePair(signers[i].publicKey, sign(signers[i], bytes)))
  }

  class GradidoTransactionBuilder {
    const serialize: Serializer
    const signWith: Signer
    var state: BuildingState
    var body: TransactionBody
    var sender: Option<nat>
    var recipient: Option<nat>
    var maps: seq<BodyBytesSignatureMap>
    var specificTransactionChosen: bool
    var ledgerAnchor: Option<nat>
    ghost var signers: seq<KeyPair>    // the key pairs whose signatures were accepted

    ghost function SignatureMaps(): set<SignatureMap>
      reads this`maps
    {
      set m | m in maps :: m.signatureMap
    }

    /** The map holds the signatures of all signers for its own bytes; without bytes there are none. */
    ghost predicate HoldsSignatures(m: BodyBytesSignatureMap, signers: seq<KeyPair>)
      reads m.signatureMap
    {
      && m.signatureMap.Valid()
      && m.signatureMap.pairs == (if m.bodyBytes.Some? then SignedBy(signers, m.bodyBytes.value, signWith) else [])
      && (m.bodyBytes.None? ==> signers == [])
    }

    /** Every map of its own holds the signatures of the signers. */
    ghost predicate AllHold(signers: seq<KeyPair>)
      reads this`maps, SignatureMaps()
    {
      && (forall i :: 0 <= i < |maps| ==> maps[i].signatureMap in SignatureMaps() && HoldsSignatures(maps[i], signers))
      && (forall i, j :: 0 <= i < j < |maps| ==> maps[i].signatureMap != maps[j].signatureMap)
    }

    /** The bytes are those of the body, for a cross-community transaction in its two forms. */
    ghost predicate HoldsBodies()
      reads this`state, this`maps, this`body, this`sender, this`recipient
    {
      match state
      case BuildingBody => maps == []
      case LocalCommunity =>
        && |maps| == 1
        && (maps[0].bodyBytes.Some? ==>
          && maps[0].bodyBytes == Some(serialize(body)) && body.crossGroup == Local
          && HomeCommunity() == Some(body.communityIdIndex))
      case CrossCommunity =>
        && |maps| == 2 && sender.Some? && recipient.Some? && sender != recipient
        && maps[0].bodyBytes == Some(serialize(body.AsOutbound(sender.value, recipient.value)))
        && maps[1].bodyBytes == Some(serialize(body.AsInbound(sender.value, recipient.value)))
    }

    ghost predicate Valid()
      reads this, SignatureMaps()
    {
      (forall b :: !AllZero(serialize(b))) && HoldsBodies() && AllHold(signers) && (state.BuildingBody? ==> signers == [])
    }

    /** A serialized body is never all zeros: it starts with the tag of a field. */
    constructor (serialize: Serializer, signWith: Signer, now: int)
      requires forall b :: !AllZero(serialize(b))
      ensures Valid() && IsBlank(now)
      ensures this.serialize == serialize && this.signWith == signWith
    {
      this.serialize, this.signWith := serialize, signWith;
      state, body := BuildingBody, TransactionBody([], now, Local, 0, None, NoSpecific);
      sender, recipient, maps, signers := None, None, [], [];
      specificTransactionChosen, ledgerAnchor := false, None;
    }

    /** Nothing is set up, signed or chosen. */
    ghost predicate IsBlank(now: int)
      reads this
    {
      && state == BuildingBody && signers == [] && sender == None && recipient == None && ledgerAnchor == None
      && body == TransactionBody([], now, Local, 0, None, NoSpecific) && !specificTransactionChosen
    }

    method Reset(now: int)
      requires forall b :: !AllZero(serialize(b))
      modifies this
      ensures Valid() && IsBlank(now)
    {
      state, body := BuildingBody, TransactionBody([], now, Local, 0, None, NoSpecific);
      sender, recipient, maps, signers := None, None, [], [];
      specificTransactionChosen, ledgerAnchor := false, None;
    }

    function CheckBuildState(expected: BuildingState): Result<(), BuilderError>
      reads this
    {
      if state != expected then Failure(WrongState) else Success(())
    }

    predicate IsCrossCommunityTransaction()
      reads this
    {
      sender.Some? && recipient.Some? && sender != recipient
    }

    /** Coins are created at their recipient, and sent from their sender. */
    ghost function HomeCommunity(): Option<nat>
      reads `body, `sender, `recipient
    {
      match body.specific
      case Creation(_, _) => recipient
      case _ => sender
    }

    ghost predicate GoesAbroad()
      reads `sender, `recipient
    {
      exists home, abroad :: sender == Some(home) && recipient == Some(abroad) && home != abroad
    }

    /** The community a local transaction belongs to. */
    function LocalCommunityIndex(): Option<nat>
      reads `body, `sender, `recipient
    {
      if body.specific.Creation? then recipient else sender
    }

    /** Fixes the bytes to sign. Without its community a local transaction stays without bytes for good. */
    method SwitchBuildState() returns (r: Result<(), BuilderError>)
      requires Valid()
      modifies this
      ensures Valid() && signers == old(signers) && ledgerAnchor == old(ledgerAnchor) && fresh(SignatureMaps() - old(SignatureMaps()))
      ensures r.Success? <==> old(state.BuildingBody? && (GoesAbroad() || HomeCommunity().Some?))
      ensures r.Success? ==> maps != [] && maps[0].bodyBytes.Some?
      ensures state == if !old(state).BuildingBody? then old(state)
                       else if old(GoesAbroad()) then CrossCommunity else LocalCommunity
      ensures sender == old(sender) && recipient == old(recipient)
      ensures old(state).BuildingBody? ==> body.SameContent(old(body))
    {
      var _ :- CheckBuildState(BuildingBody);
      var first := new SignatureMap();
      if IsCrossCommunityTransaction() {
        state := CrossCommunity;
        body := body.(crossGroup := Outbound, communityIdIndex := sender.value, otherCommunityIdIndex := recipient);
        var outboundBytes := serialize(body);
        body := body.(crossGroup := Inbound, communityIdIndex := recipient.value, otherCommunityIdIndex := sender);
        var second := new SignatureMap();
        maps := [BodyBytesSignatureMap(Some(outboundBytes), first), BodyBytesSignatureMap(Some(serialize(body)), second)];
      } else {
        state := LocalCommunity;
        body := body.(crossGroup := Local);
        maps := [BodyBytesSignatureMap(None, first)];
        var community := LocalCommunityIndex();
        if community.None? {
          return Failure(MissingCommunity);
        }
        body := body.(communityIdIndex := community.value);
        maps := [BodyBytesSignatureMap(Some(serialize(body)), first)];
      }
      return Success(());
    }

    ghost predicate HasSigned(key: Bytes)
      reads this
    {
      exists i :: 0 <= i < |signers| && signers[i].publicKey == key
    }

    /** One more signature for one of the bodies. */
    method SignOne(keyPair: KeyPair, i: nat, ghost before: seq<KeyPair>) returns (r: Result<(), BuilderError>)
      requires i < |maps| && HoldsSignatures(maps[i], before)
      modifies maps[i].signatureMap
      ensures r.Success? <==>
        maps[i].bodyBytes.Some? && !AllZero(maps[i].bodyBytes.value) &&
        forall j :: 0 <= j < |before| ==> before[j].publicKey != keyPair.publicKey
      ensures HoldsSignatures(maps[i], if r.Success? then before + [keyPair] else before)
    {
      var m := maps[i];
      var missing := m.bodyBytes.None?;
      if !missing {
        missing := IsEmpty(m.bodyBytes.value);
      }
      if missing {
        return Failure(MissingBodyBytes);
      }
      var signature := signWith(keyPair, m.bodyBytes.value);
      assert Keys(m.signatureMap.pairs) == seq(|before|, j requires 0 <= j < |before| => before[j].publicKey);
      assert forall j :: 0 <= j < |before| ==> Keys(m.signatureMap.pairs)[j] == before[j].publicKey;
      var pushed := m.signatureMap.Push(SignaturePair(keyPair.publicKey, signature));
      assert SignedBy(before + [keyPair], m.bodyBytes.value, signWith) ==
             SignedBy(before, m.bodyBytes.value, signWith) + [SignaturePair(keyPair.publicKey, signature)];
      return if pushed.Failure? then Failure(KeyAlreadyExists) else Success(());
    }

    /** The first body decides: if it takes the signature, so do the others. */
    method SignAll(keyPair: KeyPair, ghost before: seq<KeyPair>) returns (r: Result<(), BuilderError>)
      requires maps != [] && AllHold(before) && BytesAreReady()
      modifies SignatureMaps()
      ensures r.Success? <==> maps[0].bodyBytes.Some? && forall j :: 0 <= j < |before| ==> before[j].publicKey != keyPair.publicKey
      ensures AllHold(if r.Success? then before + [keyPair] else before)
    {
      hide HoldsSignatures;
      for i := 0 to |maps|
        invariant forall k :: 0 <= k < |maps| ==> HoldsSignatures(maps[k], if k < i then before + [keyPair] else before)
        invariant i > 0 ==> maps[0].bodyBytes.Some? && forall j :: 0 <= j < |before| ==> before[j].publicKey != keyPair.publicKey
      {
        assert maps[i].signatureMap in SignatureMaps();
        var signed := SignOne(keyPair, i, before);
        if signed.Failure? {
          assert i == 0;
          return Failure(signed.error);
        }
      }
      return Success(());
    }

    /**
     Signs every body. A key that has signed already is refused before anything changes, so the maps
     never come apart.
     */
    method Sign(keyPair: KeyPair) returns (r: Result<(), BuilderError>)
      requires Valid()
      modifies this, SignatureMaps()
      ensures Valid() && ledgerAnchor == old(ledgerAnchor) && fresh(SignatureMaps() - old(SignatureMaps()))
      ensures signers == if r.Success? then old(signers) + [keyPair] else old(signers)
      ensures old(state).BuildingBody? ==>
        (r.Success? <==> old(GoesAbroad() || HomeCommunity().Some?))
      ensures old(state).BuildingBody? ==>
        && state == (if old(GoesAbroad()) then CrossCommunity else LocalCommunity)
        && sender == old(sender) && recipient == old(recipient) && body.SameContent(old(body))
      ensures !old(state).BuildingBody? ==>
        && maps != [] && (r.Success? <==> maps[0].bodyBytes.Some? && !old(HasSigned(keyPair.publicKey)))
        && state == old(state) && body == old(body) && maps == old(maps) && sender == old(sender) && recipient == old(recipient)
      ensures !state.BuildingBody?
    {
      hide AllHold;
      if state.BuildingBody? {
        var _ :- SwitchBuildState();
      }
      r := SignBodies(keyPair);
    }

    /** The loop over the bodies, once their bytes are fixed. */
    method SignBodies(keyPair: KeyPair) returns (r: Result<(), BuilderError>)
      requires Valid() && !state.BuildingBody?
      modifies `signers, SignatureMaps()
      ensures Valid() && signers == if r.Success? then old(signers) + [keyPair] else old(signers)
      ensures maps != [] && (r.Success? <==> maps[0].bodyBytes.Some? && !old(HasSigned(keyPair.publicKey)))
    {
      BytesAreNotEmpty();
      hide AllHold, HoldsBodies, BytesAreReady, AllZero;
      r := SignAll(keyPair, signers);
      if r.Success? {
        signers := signers + [keyPair];
      }
    }

    lemma BytesAreNotEmpty()
      requires Valid() && !state.BuildingBody?
      ensures maps != [] && BytesAreReady()
    {
    }

    /** Only the first body can be without bytes. */
    ghost predicate BytesAreReady()
      reads this`maps
    {
      && (forall i :: 0 < i < |maps| ==> maps[i].bodyBytes.Some?)
      && (forall i :: 0 <= i < |maps| && maps[i].bodyBytes.Some? ==> !AllZero(maps[i].bodyBytes.value))
    }

    // ---------- setting up the body ----------

    method SetSenderCommunity(community: nat) returns (r: Result<(), BuilderError>)
      requires Valid()
      modifies `sender
      ensures Valid() && (r.Success? <==> state.BuildingBody?)
      ensures sender == if r.Success? then Some(community) else old(sender)
    {
      var _ :- CheckBuildState(BuildingBody);
      sender := Some(community);
      r := Success(());
    }

    method SetRecipientCommunity(community: nat) returns (r: Result<(), BuilderError>)
      requires Valid()
      modifies `recipient
      ensures Valid() && (r.Success? <==> state.BuildingBody?)
      ensures recipient == if r.Success? then Some(community) else old(recipient)
    {
      var _ :- CheckBuildState(BuildingBody);
      recipient := Some(community);
      r := Success(());
    }

    method AddMemo(memo: Bytes) returns (r: Result<(), BuilderError>)
      requires Valid()
      modifies `body
      ensures Valid() && (r.Success? <==> state.BuildingBody?)
      ensures body == if r.Success? then old(body).(memos := old(body).memos + [memo]) else old(body)
    {
      var _ :- CheckBuildState(BuildingBody);
      body := body.(memos := body.memos + [memo]);
      r := Success(());
    }

    /** A whole body, in place of what was set up before. */
    method SetTransactionBody(newBody: TransactionBody) returns (r: Result<(), BuilderError>)
      requires Valid()
      modifies `body
      ensures Valid() && (r.Success? <==> state.BuildingBody?)
      ensures body == if r.Success? then newBody else old(body)
    {
      var _ :- CheckBuildState(BuildingBody);
      body := newBody;
      r := Success(());
    }

    /** Any transaction type but the timeout; addresses and community roots need the sender community first. */
    method SetSpecific(specific: Specific) returns (r: Result<(), BuilderError>)
      requires Valid() && !specific.NoSpecific? && !specific.TimeoutDeferredTransfer?
      modifies `body, `specificTransactionChosen
      ensures Valid()
      ensures r.Success? <==> old(state.BuildingBody? && !specificTransactionChosen &&
        (specific.RegisterAddress? || specific.CommunityRoot? ==> sender.Some?))
      ensures body == (if r.Success? then old(body).(specific := specific) else old(body))
      ensures specificTransactionChosen == (r.Success? || old(specificTransactionChosen))
    {
      var _ :- CheckBuildState(BuildingBody);
      if specificTransactionChosen {
        return Failure(SpecificAlreadyChosen);
      }
      if (specific.RegisterAddress? || specific.CommunityRoot?) && sender.None? {
        return Failure(MissingCommunity);
      }
      body, specificTransactionChosen := body.(specific := specific), true;
      r := Success(());
    }

    /** A timeout needs no signatures: the body is fixed at once. */
    method SetTimeoutDeferredTransfer(nr: nat) returns (r: Result<(), BuilderError>)
      requires Valid()
      modifies this
      ensures Valid() && signers == old(signers) && ledgerAnchor == old(ledgerAnchor) && fresh(SignatureMaps() - old(SignatureMaps()))
      ensures r.Success? <==> old(state.BuildingBody? && !specificTransactionChosen && sender.Some?)
      ensures r.Success? ==>
        && body.SameContent(old(body).(specific := TimeoutDeferredTransfer(nr))) && specificTransactionChosen
        && sender == old(sender) && recipient == old(recipient)
        && state == (if old(GoesAbroad()) then CrossCommunity else LocalCommunity)
    {
      var _ :- CheckBuildState(BuildingBody);
      if specificTransactionChosen {
        return Failure(SpecificAlreadyChosen);
      }
      body := body.(specific := TimeoutDeferredTransfer(nr));
      hide AllHold;
      var _ :- SwitchBuildState();
      specificTransactionChosen := true;
      r := Success(());
    }

    // ---------- the finished transactions ----------

    /** The local transaction; the builder starts anew. */
    method Build(now: int) returns (r: Result<GradidoTransaction, BuilderError>)
      requires Valid()
      modifies this
      ensures Valid() && (r.Success? <==> old(state) == LocalCommunity)
      ensures r.Success? ==>
        && IsBlank(now) && r.value.bodyBytes == old(maps[0].bodyBytes) && r.value.ledgerAnchor == old(ledgerAnchor)
        && r.value.communityIdIndex == old(body).communityIdIndex
        && r.value.signatures == (if r.value.bodyBytes.Some? then SignedBy(old(signers), r.value.bodyBytes.value, signWith) else [])
    {
      var _ :- CheckBuildState(LocalCommunity);
      var result := GradidoTransaction(maps[0].signatureMap.pairs, maps[0].bodyBytes, body.communityIdIndex, ledgerAnchor);
      Reset(now);
      r := Success(result);
    }

    /** The outbound transaction; the builder goes on to the inbound one. */
    method BuildOutbound() returns (r: Result<GradidoTransaction, BuilderError>)
      requires Valid()
      ensures r.Success? <==> state == CrossCommunity
      ensures r.Success? ==> sender.Some? && recipient.Some? && r.value == CrossTransaction(true)
    {
      var _ :- CheckBuildState(CrossCommunity);
      r := Success(GradidoTransaction(maps[0].signatureMap.pairs, maps[0].bodyBytes, sender.value, ledgerAnchor));
    }

    /** The inbound transaction needs the anchor of the outbound one; the builder starts anew. */
    method BuildInbound(now: int) returns (r: Result<GradidoTransaction, BuilderError>)
      requires Valid()
      modifies this
      ensures Valid() && (r.Success? <==> old(state == CrossCommunity && ledgerAnchor.Some?))
      ensures r.Success? ==> old(sender.Some? && recipient.Some?) && r.value == old(CrossTransaction(false)) && IsBlank(now)
    {
      var _ :- CheckBuildState(CrossCommunity);
      if ledgerAnchor.None? {
        return Failure(MissingLedgerAnchor);
      }
      var result := GradidoTransaction(maps[1].signatureMap.pairs, maps[1].bodyBytes, recipient.value, ledgerAnchor);
      Reset(now);
      r := Success(result);
    }

    method SetParentLedgerAnchor(anchor: nat)
      requires Valid()
      modifies `ledgerAnchor
      ensures Valid() && ledgerAnchor == Some(anchor)
    {
      ledgerAnchor := Some(anchor);
    }

    /** What the two sides of a cross-community transaction have to be. */
    ghost function CrossTransaction(outbound: bool): GradidoTransaction
      requires sender.Some? && recipient.Some?
      reads this
    {
      var from, to := sender.value, recipient.value;
      var bytes := serialize(if outbound then body.AsOutbound(from, to) else body.AsInbound(from, to));
      GradidoTransaction(SignedBy(signers, bytes, signWith), Some(bytes), if outbound then from else to, ledgerAnchor)
    }
  }

  /**
   Once a builder is in the cross-community state, its two transactions have the same distinct keys
   in the same order, so their signature maps pair, and the bodies pair if their type does.
   */
  lemma CrossTransactionsPair(b: GradidoTransactionBuilder)
    requires b.Valid() && b.state.CrossCommunity?
    ensures b.sender.Some? && b.recipient.Some? && b.sender != b.recipient
    ensures var out, inb := b.CrossTransaction(true), b.CrossTransaction(false);
      && Keys(out.signatures) == Keys(inb.signatures) && Distinct(Keys(out.signatures))
      && |out.signatures| == |b.signers|
      && (forall i :: 0 <= i < |b.signers| ==>
        && out.signatures[i] == SignaturePair(b.signers[i].publicKey, b.signWith(b.signers[i], out.bodyBytes.value))
        && inb.signatures[i] == SignaturePair(b.signers[i].publicKey, b.signWith(b.signers[i], inb.bodyBytes.value)))
    ensures b.body.AsOutbound(b.sender.value, b.recipient.value).IsPairing(b.body.AsInbound(b.sender.value, b.recipient.value))
       <==> b.body.CanPair()
  {
    BodiesPair(b.body, b.sender.value, b.recipient.value);
    assert b.HoldsSignatures(b.maps[0], b.signers);
    assert Keys(b.CrossTransaction(true).signatures) == Keys(b.maps[0].signatureMap.pairs);
    assert Keys(b.CrossTransaction(true).signatures) == Keys(b.CrossTransaction(false).signatures);
  }
}
