/** The sorted hash list with binary search. */
module HashList {
  /** An address; 0 is the null pointer. */
  type Pointer = nat

  datatype Item = Item(hashValue: nat, data: Pointer)

  const GROWTH: nat := 32

  ghost predicate Sorted(s: seq<Item>) {
    forall i, j :: 0 <= i < j < |s| ==> s[i].hashValue < s[j].hashValue
  }

  /** The plain map that the list stands for. */
  ghost function AsMap(s: seq<Item>): map<nat, Pointer> {
    if s == [] then map[] else AsMap(s[..|s|-1])[s[|s|-1].hashValue := s[|s|-1].data]
  }

  /** Below k are the smaller hashes, from k on the others. */
  ghost predicate IsPlaceFor(s: seq<Item>, hash: nat, k: nat) {
    && k <= |s|
    && (forall i :: 0 <= i < k ==> s[i].hashValue < hash)
    && (forall i :: k <= i < |s| ==> hash <= s[i].hashValue)
  }

  lemma PlaceIsUnique(s: seq<Item>, hash: nat, k: nat, k': nat)
    requires IsPlaceFor(s, hash, k) && IsPlaceFor(s, hash, k')
    ensures k == k'
  {
    assert k < |s| ==> (k < k' <==> s[k].hashValue < hash);
    assert k' < |s| ==> (k' < k <==> s[k'].hashValue < hash);
  }

  ghost predicate HoldsAt(s: seq<Item>, k: int, hash: nat) {
    0 <= k < |s| && s[k].hashValue == hash
  }

  lemma {:induction false} AsMapHolds(s: seq<Item>, hash: nat)
    requires Sorted(s)
    ensures hash in AsMap(s) <==> exists i :: HoldsAt(s, i, hash)
    ensures forall i :: HoldsAt(s, i, hash) ==> hash in AsMap(s) && AsMap(s)[hash] == s[i].data
  {
    if s != [] {
      var init := s[..|s|-1];
      AsMapHolds(init, hash);
      if i :| HoldsAt(init, i, hash) {
        assert HoldsAt(s, i, hash);
      }
      forall i | HoldsAt(s, i, hash) ensures hash in AsMap(s) && AsMap(s)[hash] == s[i].data {
        if i < |s| - 1 {
          assert HoldsAt(init, i, hash);
        }
      }
      if s[|s|-1].hashValue == hash {
        assert HoldsAt(s, |s|-1, hash);
      }
    }
  }

  /** At its place, and only there, a hash is found. */
  lemma FoundAtPlace(s: seq<Item>, hash: nat, k: nat)
    requires Sorted(s) && IsPlaceFor(s, hash, k)
    ensures hash in AsMap(s) <==> HoldsAt(s, k, hash)
    ensures HoldsAt(s, k, hash) ==> AsMap(s)[hash] == s[k].data
  {
    AsMapHolds(s, hash);
    if i :| HoldsAt(s, i, hash) {
      assert k <= i;
      assert s[k].hashValue <= s[i].hashValue;
    }
  }

  lemma Inserted(s: seq<Item>, k: nat, x: Item)
    requires Sorted(s) && IsPlaceFor(s, x.hashValue, k) && !HoldsAt(s, k, x.hashValue)
    ensures Sorted(s[..k] + [x] + s[k..])
    ensures AsMap(s[..k] + [x] + s[k..]) == AsMap(s)[x.hashValue := x.data]
  {
    hide AsMap;
    var s' := s[..k] + [x] + s[k..];
    assert k < |s| ==> s[k].hashValue != x.hashValue;
    assert forall i :: k < i < |s| ==> s[k].hashValue < s[i].hashValue;
    assert Sorted(s');
    forall h ensures h in AsMap(s') <==> h in AsMap(s)[x.hashValue := x.data]
      ensures h in AsMap(s') ==> AsMap(s')[h] == AsMap(s)[x.hashValue := x.data][h]
    {
      AsMapHolds(s, h);
      AsMapHolds(s', h);
      if i :| HoldsAt(s, i, h) {
        assert HoldsAt(s', if i < k then i else i + 1, h);
      }
      assert HoldsAt(s', k, x.hashValue);
      if j :| HoldsAt(s', j, h) {
        assert j == k || HoldsAt(s, if j < k then j else j - 1, h);
      }
    }
  }

  lemma Removed(s: seq<Item>, k: nat)
    requires Sorted(s) && k < |s|
    ensures Sorted(s[..k] + s[k+1..])
    ensures AsMap(s[..k] + s[k+1..]) == AsMap(s) - {s[k].hashValue}
  {
    hide AsMap;
    var s', hash := s[..k] + s[k+1..], s[k].hashValue;
    forall h ensures h in AsMap(s') <==> h in AsMap(s) - {hash}
      ensures h in AsMap(s') ==> AsMap(s')[h] == AsMap(s)[h]
    {
      AsMapHolds(s, h);
      AsMapHolds(s', h);
      if i :| HoldsAt(s, i, h) {
        assert i == k || HoldsAt(s', if i < k then i else i - 1, h);
        assert i != k ==> h != hash;
      }
      if j :| HoldsAt(s', j, h) {
        assert HoldsAt(s, if j < k then j else j + 1, h);
      }
    }
  }

  class HashList {
    var nItems: nat
    var maxItems: nat
    var items: array<Item>

    ghost predicate Valid()
      reads this, items
    {
      nItems <= maxItems == items.Length && Sorted(items[..nItems])
    }

    ghost function View(): map<nat, Pointer>
      requires Valid()
      reads this, items
    {
      AsMap(items[..nItems])
    }

    constructor ()
      ensures Valid() && View() == map[] && maxItems == 0 && fresh(items)
    {
      nItems, maxItems, items := 0, 0, new Item[0];
    }

    method ItemExists(hash: nat) returns (found: bool, index: nat)
      requires Valid()
      ensures found <==> hash in View()
      ensures found ==> HoldsAt(items[..nItems], index, hash)
    {
      ghost var s := items[..nItems];
      AsMapHolds(s, hash);
      var low, high: int := 0, nItems - 1;
      index := 0;
      while low <= high
        invariant 0 <= low <= high + 1 <= nItems
        invariant forall i :: 0 <= i < low ==> s[i].hashValue < hash
        invariant forall i :: high < i < nItems ==> hash < s[i].hashValue
      {
        var middle := (low + high) / 2;
        if items[middle].hashValue == hash {
          assert HoldsAt(s, middle, hash);
          return true, middle;
        }
        if items[middle].hashValue < hash {
          low := middle + 1;
        } else {
          high := middle - 1;
        }
      }
      found := false;
    }

    /** The data, or the null pointer. */
    method FindByHash(hash: nat) returns (data: Pointer)
      requires Valid()
      ensures data == if hash in View() then View()[hash] else 0
    {
      var found, index := ItemExists(hash);
      AsMapHolds(items[..nItems], hash);
      data := if found then items[index].data else 0;
    }

    /** The place of a hash follows from the position probed last. */
    method FindIndexForHash(hash: nat) returns (index: nat)
      requires Valid()
      ensures IsPlaceFor(items[..nItems], hash, index)
    {
      if nItems == 0 {
        return 0;
      }
      ghost var s := items[..nItems];
      var low, high: int := 0, nItems - 1;
      index := 0;
      while low <= high
        invariant 0 <= low <= high + 1 <= nItems
        invariant forall i :: 0 <= i < low ==> s[i].hashValue < hash
        invariant forall i :: high < i < nItems ==> hash < s[i].hashValue
        invariant (low == 0 && high == nItems - 1) || (index == low - 1 && s[index].hashValue < hash) ||
                  (index == high + 1 && index < nItems && hash < s[index].hashValue)
      {
        index := (low + high) / 2;
        if items[index].hashValue == hash {
          return;
        }
        if items[index].hashValue < hash {
          low := index + 1;
        } else {
          high := index - 1;
        }
      }
      if items[index].hashValue < hash {
        index := index + 1;
      }
    }

    /** Room for at least newSize items; the list stays as it is. */
    method Resize(newSize: nat)
      requires Valid()
      modifies this
      ensures Valid() && View() == old(View()) && items[..nItems] == old(items[..nItems])
      ensures maxItems == if newSize > old(maxItems) then newSize else old(maxItems)
      ensures items == old(items) || fresh(items)
    {
      if newSize > maxItems {
        maxItems := newSize;
        Reallocate();
      }
    }

    /** realloc keeps the items and gives the array the length maxItems. */
    method Reallocate()
      requires nItems <= items.Length <= maxItems
      modifies `items
      ensures items.Length == maxItems && fresh(items) && items[..nItems] == old(items[..nItems])
    {
      var grown := new Item[maxItems](_ => Item(0, 0));
      forall i | 0 <= i < nItems { grown[i] := items[i]; }
      items := grown;
    }

    /** false, and nothing changed, if the hash is there already. */
    method AddByHash(hash: nat, data: Pointer) returns (added: bool)
      requires Valid()
      modifies this, items
      ensures Valid() && (items == old(items) || fresh(items))
      ensures added <==> hash !in old(View())
      ensures View() == if added then old(View())[hash := data] else old(View())
      ensures maxItems == if added && old(nItems) == old(maxItems) then old(maxItems) + 32 else old(maxItems)
    {
      hide AsMap;
      var toIndex := FindIndexForHash(hash);
      ghost var s := items[..nItems];
      FoundAtPlace(s, hash, toIndex);
      if toIndex != nItems && items[toIndex].hashValue == hash {
        return false;
      }
      if nItems == maxItems {
        maxItems := maxItems + GROWTH;
        Reallocate();
      }
      Inserted(s, toIndex, Item(hash, data));
      if toIndex != nItems {
        forall i | toIndex < i <= nItems { items[i] := items[i-1]; }
      }
      items[toIndex] := Item(hash, data);
      nItems := nItems + 1;
      assert items[..nItems] == s[..toIndex] + [Item(hash, data)] + s[toIndex..];
      return true;
    }

    method RemoveByHash(hash: nat) returns (removed: bool)
      requires Valid()
      modifies this, items
      ensures Valid() && items == old(items) && maxItems == old(maxItems)
      ensures removed <==> hash in old(View())
      ensures View() == old(View()) - {hash}
    {
      hide AsMap;
      var toIndex := FindIndexForHash(hash);
      ghost var s := items[..nItems];
      FoundAtPlace(s, hash, toIndex);
      if toIndex == nItems || items[toIndex].hashValue != hash {
        return false;
      }
      Removed(s, toIndex);
      nItems := nItems - 1;
      if toIndex != nItems {
        forall i | toIndex <= i < nItems { items[i] := items[i+1]; }
      }
      assert items[..nItems] == s[..toIndex] + s[toIndex+1..];
      return true;
    }

    /** The memory stays for later items unless it is to be freed. */
    method Clear(freeMemory: bool)
      requires Valid()
      modifies this
      ensures Valid() && View() == map[]
      ensures maxItems == (if freeMemory then 0 else old(maxItems)) && (items == old(items) || fresh(items))
    {
      nItems := 0;
      if freeMemory {
        maxItems := 0;
        items := new Item[0];
      }
    }
  }
}
