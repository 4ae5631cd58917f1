/** The run-time dictionary: data to indices starting at 1, and back. */
module Dictionary {
  import opened Wrappers
  import opened Sequences

  /** In a dictionary with the entries s, index stands for d. */
  predicate StandsFor<T(==)>(s: seq<T>, index: nat, d: T) {
    1 <= index <= |s| && s[index - 1] == d
  }

  /** The lookup gives each of the first n entries its index, counted from 1. */
  ghost predicate Inverts<T>(lookup: map<T, nat>, entries: seq<T>, n: nat)
    requires n <= |entries|
  {
    n != 0 ==> Inverts(lookup, entries, n - 1) && entries[n-1] in lookup && lookup[entries[n-1]] == n
  }

  lemma {:induction false} InvertsAll<T>(lookup: map<T, nat>, entries: seq<T>, n: nat)
    requires n <= |entries|
    ensures Inverts(lookup, entries, n) <==>
            forall i :: 0 <= i < n ==> entries[i] in lookup && lookup[entries[i]] == i + 1
  {
    if n != 0 {
      InvertsAll(lookup, entries, n - 1);
    }
  }

  class RuntimeDictionary<T(==, !new)> {
    var dataIndexLookup: map<T, nat>
    var indexDataLookup: seq<T>

    ghost predicate Valid()
      reads this
    {
      && Inverts(dataIndexLookup, indexDataLookup, |indexDataLookup|)
      && dataIndexLookup.Keys == set d | d in indexDataLookup
    }

    lemma EntriesAreDistinct()
      requires Valid()
      ensures Distinct(indexDataLookup)
    {
      InvertsAll(dataIndexLookup, indexDataLookup, |indexDataLookup|);
    }

    constructor ()
      ensures Valid() && indexDataLookup == []
    {
      dataIndexLookup, indexDataLookup := map[], [];
    }

    function GetIndexForData(d: T): (index: nat)
      requires Valid()
      reads this
      ensures index == 0 <==> d !in indexDataLookup
      ensures index != 0 ==> StandsFor(indexDataLookup, index, d)
    {
      InvertsAll(dataIndexLookup, indexDataLookup, |indexDataLookup|);
      if d in dataIndexLookup then dataIndexLookup[d] else 0
    }

    function GetDataForIndex(index: nat): (r: Option<T>)
      requires Valid()
      reads this
      ensures r.Some? <==> 1 <= index <= |indexDataLookup|
      ensures r.Some? ==> GetIndexForData(r.value) == index
    {
      InvertsAll(dataIndexLookup, indexDataLookup, |indexDataLookup|);
      if index == 0 || index - 1 >= |indexDataLookup| then None else Some(indexDataLookup[index - 1])
    }

    /** An index, once given, never changes: entries are only appended. */
    method GetOrAddIndexForData(d: T) returns (index: nat)
      requires Valid()
      modifies this
      ensures Valid()
      ensures d in old(indexDataLookup) ==> indexDataLookup == old(indexDataLookup)
      ensures d !in old(indexDataLookup) ==> indexDataLookup == old(indexDataLookup) + [d]
      ensures old(indexDataLookup) <= indexDataLookup
      ensures StandsFor(indexDataLookup, index, d)
    {
      index := |indexDataLookup| + 1;
      InvertsAll(dataIndexLookup, indexDataLookup, |indexDataLookup|);
      if d in dataIndexLookup {
        index := dataIndexLookup[d];
      } else {
        dataIndexLookup := dataIndexLookup[d := index];
        indexDataLookup := indexDataLookup + [d];
        InvertsAll(dataIndexLookup, indexDataLookup, |indexDataLookup|);
      }
    }
  }
}
