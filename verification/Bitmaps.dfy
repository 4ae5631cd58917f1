/** A Roaring64Map as the set of the numbers it holds. */
module Bitmaps {
  import opened Wrappers

  type Bitmap = set<nat>

  const UINT64_MAX: nat := 0xFFFF_FFFF_FFFF_FFFF

  ghost predicate StrictlyAscending(s: seq<nat>) {
    forall i, j :: 0 <= i < j < |s| ==> s[i] < s[j]
  }

  ghost predicate IsSmallest(s: Bitmap, m: nat) {
    m in s && forall x :: x in s ==> m <= x
  }

  lemma {:induction false} SmallestUpTo(s: Bitmap, a: nat)
    requires a in s
    ensures exists m :: IsSmallest(s, m)
    decreases a
  {
    if x :| x in s && x < a {
      SmallestUpTo(s, x);
    } else {
      assert IsSmallest(s, a);
    }
  }

  lemma SmallestExists(s: Bitmap)
    requires s != {}
    ensures exists m :: m in s && forall x :: x in s ==> m <= x
  {
    var a :| a in s;
    SmallestUpTo(s, a);
    var m :| IsSmallest(s, m);
  }

  function Smallest(s: Bitmap): (m: nat)
    requires s != {}
    ensures m in s && forall x :: x in s ==> m <= x
  {
    SmallestExists(s);
    var m :| m in s && forall x :: x in s ==> m <= x;
    m
  }

  ghost predicate Lists(r: seq<nat>, s: Bitmap) {
    StrictlyAscending(r) && |r| == |s| && forall x :: x in r <==> x in s
  }

  lemma {:induction false} ListingExists(s: Bitmap) returns (r: seq<nat>)
    ensures Lists(r, s)
  {
    if s == {} {
      r := [];
    } else {
      var m := Smallest(s);
      var rest := ListingExists(s - {m});
      assert forall i :: 0 <= i < |rest| ==> rest[i] in s - {m};
      r := [m] + rest;
    }
  }

  /** There is only one strictly ascending listing of a set. */
  lemma {:induction false} ListingIsUnique(r: seq<nat>, r': seq<nat>)
    requires StrictlyAscending(r) && StrictlyAscending(r') && forall x :: x in r <==> x in r'
    ensures r == r'
  {
    if r != [] && r' != [] {
      assert r[0] in r' && r'[0] in r;
      assert r == [r[0]] + r[1..] && r' == [r'[0]] + r'[1..];
      assert forall x :: x in r[1..] <==> x in r && x != r[0];
      assert forall x :: x in r'[1..] <==> x in r' && x != r'[0];
      ListingIsUnique(r[1..], r'[1..]);
    } else if r != [] {
      Absent(r[0], r');
    } else if r' != [] {
      Absent(r'[0], r);
    }
  }

  lemma Absent(x: nat, r: seq<nat>)
    ensures r == [] ==> x !in r
  {
  }

  lemma AListingExists(s: Bitmap)
    ensures exists r :: Lists(r, s)
  {
    var r := ListingExists(s);
  }

  /** The elements in ascending order. */
  ghost function ToArray(s: Bitmap): (r: seq<nat>)
    ensures Lists(r, s)
  {
    AListingExists(s);
    var r :| Lists(r, s);
    r
  }

  method ToUint64Array(s: Bitmap) returns (r: seq<nat>)
    ensures r == ToArray(s)
  {
    r := [];
    var rest := s;
    while rest != {}
      invariant rest <= s && StrictlyAscending(r) && |r| + |rest| == |s|
      invariant forall x :: x in r <==> x in s - rest
      invariant forall x, y :: x in r && y in rest ==> x < y
      decreases rest
    {
      var m := Smallest(rest);
      assert forall i :: 0 <= i < |r| ==> r[i] in r;
      r, rest := r + [m], rest - {m};
    }
    ListingIsUnique(r, ToArray(s));
  }

  /** select: the element with the given rank, if there is one. */
  method Select(s: Bitmap, rank: nat) returns (r: Option<nat>)
    ensures r == if rank < |s| then Some(ToArray(s)[rank]) else None
  {
    var a := ToUint64Array(s);
    r := if rank < |a| then Some(a[rank]) else None;
  }

  method Minimum(s: Bitmap) returns (m: nat)
    ensures if s == {} then m == UINT64_MAX else m == ToArray(s)[0] && m in s && forall x :: x in s ==> m <= x
  {
    if s == {} {
      return UINT64_MAX;
    }
    m := Smallest(s);
    ghost var a := ToArray(s);
    assert a[0] in s;
    ghost var i :| 0 <= i < |a| && a[i] == m;
  }

  method Maximum(s: Bitmap) returns (m: nat)
    ensures if s == {} then m == 0 else m == ToArray(s)[|s| - 1] && m in s && forall x :: x in s ==> x <= m
  {
    if s == {} {
      return 0;
    }
    var a := ToUint64Array(s);
    m := a[|a| - 1];
    assert m in a;
    forall x | x in s ensures x <= m {
      var i :| 0 <= i < |a| && a[i] == x;
    }
  }

  /** A fresh map after addRangeClosed. */
  function RangeClosed(first: nat, last: nat): (r: Bitmap)
    ensures forall x :: x in r <==> first <= x <= last
  {
    if last < first then {} else if last == 0 then {0} else RangeClosed(first, last - 1) + {last}
  }

  lemma SliceMembers(a: seq<nat>, i: nat, j: nat, x: nat)
    requires StrictlyAscending(a) && i <= j < |a|
    ensures x in a[i..j+1] <==> x in a && a[i] <= x <= a[j]
  {
    if x in a && a[i] <= x <= a[j] {
      var k :| 0 <= k < |a| && a[k] == x;
      assert a[i..j+1][k - i] == x;
    }
  }

  /** Intersecting with the closed range between two elements cuts a slice out of the listing. */
  lemma SliceOfArray(s: Bitmap, a: seq<nat>, i: nat, j: nat)
    requires a == ToArray(s) && i <= j < |a|
    ensures ToArray(s * RangeClosed(a[i], a[j])) == a[i..j+1]
  {
    forall x ensures x in a[i..j+1] <==> x in s * RangeClosed(a[i], a[j]) {
      SliceMembers(a, i, j, x);
    }
    ListingIsUnique(a[i..j+1], ToArray(s * RangeClosed(a[i], a[j])));
  }

  // ---------- intersections ----------

  ghost predicate InAll(maps: seq<Bitmap>, nr: nat) {
    forall m :: m in maps ==> nr in m
  }

  lemma InAllConcat(a: seq<Bitmap>, b: seq<Bitmap>, nr: nat)
    ensures InAll(a + b, nr) <==> InAll(a, nr) && InAll(b, nr)
  {
    assert forall m :: m in a + b <==> m in a || m in b;
  }

  /** The intersection does not depend on the order of the maps. */
  method IntersectAll(maps: seq<Bitmap>) returns (r: Bitmap)
    requires maps != []
    ensures forall nr :: nr in r <==> InAll(maps, nr)
  {
    // sorting by cardinality picks some permutation; which one is irrelevant
    var sorted: seq<Bitmap> :| multiset(sorted) == multiset(maps);
    assert |sorted| == |multiset(sorted)| == |maps|;
    assert forall m :: m in sorted <==> m in multiset(sorted);
    assert forall m :: m in maps <==> m in multiset(maps);
    r := sorted[0];
    for i := 1 to |sorted|
      invariant forall nr :: nr in r <==> InAll(sorted[..i], nr)
    {
      assert sorted[..i+1] == sorted[..i] + [sorted[i]];
      forall nr { InAllConcat(sorted[..i], [sorted[i]], nr); }
      r := r * sorted[i];
    }
    assert sorted[..|sorted|] == sorted;
  }

  ghost predicate IsClosedRange(b: Bitmap) {
    b == {} || exists first, last :: b == RangeClosed(first, last)
  }

  lemma ClosedRangeFromBounds(b: Bitmap, first: nat, last: nat)
    requires IsClosedRange(b)
    requires if b == {} then first == UINT64_MAX && last == 0
             else first in b && last in b && forall x :: x in b ==> first <= x <= last
    ensures b == RangeClosed(first, last)
  {
    if b != {} {
      var f, l :| b == RangeClosed(f, l);
    }
  }
}
