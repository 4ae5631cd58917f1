/** Signature maps and their comparisons. */
module Signatures {
  import opened Wrappers
  import opened Sequences

  type Bytes = seq<nat>

  datatype SignaturePair = SignaturePair(publicKey: Bytes, signature: Bytes)

  datatype SignatureError = AlreadyExists

  function Keys(pairs: seq<SignaturePair>): (keys: seq<Bytes>)
    ensures |keys| == |pairs| && forall i :: 0 <= i < |pairs| ==> keys[i] == pairs[i].publicKey
  {
    seq(|pairs|, i requires 0 <= i < |pairs| => pairs[i].publicKey)
  }

  /** The first pair with the given hash. */
  ghost predicate IsFirstWithHash(pairs: seq<SignaturePair>, hash: SignaturePair -> int, i: int) {
    0 <= i < |pairs| && forall j :: 0 <= j < i ==> hash(pairs[j]) != hash(pairs[i])
  }

  /** The table has the first pair of every hash among the first n pairs. */
  ghost predicate ListsFirst(pairs: seq<SignaturePair>, hash: SignaturePair -> int, n: nat, table: map<int, SignaturePair>)
    requires n <= |pairs|
  {
    && (forall j :: 0 <= j < n ==> hash(pairs[j]) in table)
    && (forall h :: h in table ==>
      exists j :: j < n && IsFirstWithHash(pairs, hash, j) && table[h] == pairs[j] && hash(pairs[j]) == h)
  }

  /** What isTheSame computes for maps of any size but one. */
  ghost predicate FoundByHash(own: seq<SignaturePair>, hash: SignaturePair -> int, other: SignaturePair) {
    exists i :: IsFirstWithHash(own, hash, i) && own[i] == other
  }

  class SignatureMap {
    var pairs: seq<SignaturePair>

    ghost predicate Valid()
      reads this
    {
      Distinct(Keys(pairs))
    }

    constructor ()
      ensures Valid() && pairs == []
    {
      pairs := [];
    }

    /** A key that is in the map already is refused, and the map stays as it is. */
    method Push(pair: SignaturePair) returns (r: Result<(), SignatureError>)
      requires Valid()
      modifies this
      ensures Valid()
      ensures r.Success? <==> pair.publicKey !in Keys(old(pairs))
      ensures pairs == if r.Success? then old(pairs) + [pair] else old(pairs)
    {
      for i := 0 to |pairs|
        invariant pairs == old(pairs) && forall j :: 0 <= j < i ==> pairs[j].publicKey != pair.publicKey
      {
        if pair.publicKey == pairs[i].publicKey {
          assert Keys(pairs)[i] == pair.publicKey;
          return Failure(AlreadyExists);
        }
      }
      pairs := pairs + [pair];
      return Success(());
    }

    /** The maps have the same keys, in any order. */
    method IsPairing(other: SignatureMap) returns (r: bool)
      requires Valid() && other.Valid()
      ensures r <==> Elements(Keys(pairs)) == Elements(Keys(other.pairs))
    {
      SizeOfElements(Keys(pairs));
      SizeOfElements(Keys(other.pairs));
      if |pairs| != |other.pairs| {
        return false;
      }
      if |pairs| == 1 {
        assert Keys(pairs)[0] in Elements(Keys(pairs)) && Keys(other.pairs)[0] in Elements(Keys(other.pairs));
        assert Keys(pairs) == [pairs[0].publicKey] && Keys(other.pairs) == [other.pairs[0].publicKey];
        return pairs[0].publicKey == other.pairs[0].publicKey;
      }
      var pubkeys: set<Bytes> := {};
      for i := 0 to |pairs|
        invariant forall k :: k in pubkeys <==> k in Keys(pairs)[..i]
      {
        assert Keys(pairs)[..i+1] == Keys(pairs)[..i] + [pairs[i].publicKey];
        pubkeys := pubkeys + {pairs[i].publicKey};
      }
      assert pubkeys == Elements(Keys(pairs));
      for i := 0 to |other.pairs|
        invariant forall j :: 0 <= j < i ==> other.pairs[j].publicKey in pubkeys
      {
        if other.pairs[i].publicKey !in pubkeys {
          assert Keys(other.pairs)[i] in Elements(Keys(other.pairs));
          return false;
        }
      }
      SubsetOfSameSize(Elements(Keys(other.pairs)), pubkeys);
      return true;
    }

    /** Every pair of the other map is the first own pair with its hash. */
    method IsTheSame(other: SignatureMap, hash: SignaturePair -> int) returns (r: bool)
      ensures r <==>
        && |pairs| == |other.pairs|
        && if |pairs| == 1 then pairs[0] == other.pairs[0] else forall p :: p in other.pairs ==> FoundByHash(pairs, hash, p)
    {
      if |pairs| != |other.pairs| {
        return false;
      }
      if |pairs| == 1 {
        return pairs[0] == other.pairs[0];
      }
      var ownHashes: map<int, SignaturePair> := map[];
      for i := 0 to |pairs|
        invariant ListsFirst(pairs, hash, i, ownHashes)
      {
        if hash(pairs[i]) !in ownHashes {
          assert IsFirstWithHash(pairs, hash, i);
          ownHashes := ownHashes[hash(pairs[i]) := pairs[i]];
        }
      }
      for i := 0 to |other.pairs|
        invariant forall j :: 0 <= j < i ==> FoundByHash(pairs, hash, other.pairs[j])
      {
        FirstIsUnique(pairs, hash, ownHashes, other.pairs[i]);
        if hash(other.pairs[i]) !in ownHashes {
          assert other.pairs[i] in other.pairs;
          return false;
        }
        if ownHashes[hash(other.pairs[i])] != other.pairs[i] {
          assert other.pairs[i] in other.pairs;
          return false;
        }
      }
      return true;
    }
  }

  lemma FirstIsUnique(pairs: seq<SignaturePair>, hash: SignaturePair -> int, table: map<int, SignaturePair>, p: SignaturePair)
    requires ListsFirst(pairs, hash, |pairs|, table)
    ensures FoundByHash(pairs, hash, p) <==> hash(p) in table && table[hash(p)] == p
  {
    if hash(p) in table {
      var j :| j < |pairs| && IsFirstWithHash(pairs, hash, j) && table[hash(p)] == pairs[j] && hash(pairs[j]) == hash(p);
      forall i | IsFirstWithHash(pairs, hash, i) && pairs[i] == p ensures i == j {
        assert hash(pairs[i]) == hash(pairs[j]);
      }
    }
  }

  /** A map of several pairs is the same as itself exactly when no two of its pairs have one hash. */
  lemma SameAsItself(pairs: seq<SignaturePair>, hash: SignaturePair -> int)
    requires Distinct(pairs)
    ensures (forall p :: p in pairs ==> FoundByHash(pairs, hash, p)) <==>
            forall i, j :: 0 <= i < j < |pairs| ==> hash(pairs[i]) != hash(pairs[j])
  {
    if forall p :: p in pairs ==> FoundByHash(pairs, hash, p) {
      forall i, j | 0 <= i < j < |pairs| ensures hash(pairs[i]) != hash(pairs[j]) {
        assert pairs[j] in pairs;
        var k :| IsFirstWithHash(pairs, hash, k) && pairs[k] == pairs[j];
        assert k == j;
      }
    } else {
      var p :| p in pairs && !FoundByHash(pairs, hash, p);
      var j :| 0 <= j < |pairs| && pairs[j] == p;
      assert !IsFirstWithHash(pairs, hash, j);
    }
  }

  /** Without equal hashes the comparison is the comparison of the pairs, in any order. */
  lemma SamePairs(own: seq<SignaturePair>, other: seq<SignaturePair>, hash: SignaturePair -> int)
    requires Distinct(own) && Distinct(other) && |own| == |other|
    requires forall i, j :: 0 <= i < j < |own| ==> hash(own[i]) != hash(own[j])
    ensures (forall p :: p in other ==> FoundByHash(own, hash, p)) <==> Elements(own) == Elements(other)
  {
    assert forall i :: 0 <= i < |own| ==> IsFirstWithHash(own, hash, i);
    if forall p :: p in other ==> FoundByHash(own, hash, p) {
      SizeOfElements(own);
      SizeOfElements(other);
      assert Elements(other) <= Elements(own);
      SubsetOfSameSize(Elements(other), Elements(own));
    }
    if Elements(own) == Elements(other) {
      forall p | p in other ensures FoundByHash(own, hash, p) {
        assert p in Elements(own);
      }
    }
  }
}
