/** Filter results, and the iteration over a range that collects what a filter function picks. */
module RangeUtils {
  import opened Filters
  import opened Sequences

  /** The flags USE and STOP of a filter result; DISMISS has neither. */
  datatype FilterResult = FilterResult(use: bool, stop: bool)

  const USE := FilterResult(true, false)
  const DISMISS := FilterResult(false, false)
  const STOP := FilterResult(false, true)

  /** What a filter function says about an element, and the entity it makes of it. */
  type FilterFunction<!T, E> = T -> (FilterResult, E)

  /** The entities of all elements to be used. */
  ghost function Used<T, E>(range: seq<T>, filter: FilterFunction<T, E>): seq<E> {
    if range == [] then [] else UsedOne(range[0], filter) + Used(range[1..], filter)
  }

  ghost function UsedOne<T, E>(x: T, filter: FilterFunction<T, E>): seq<E> {
    if filter(x).0.use then [filter(x).1] else []
  }

  /** The same, up to the first element with STOP. */
  ghost function UsedUntilStop<T, E>(range: seq<T>, filter: FilterFunction<T, E>): seq<E> {
    if range == [] then []
    else UsedOne(range[0], filter) + if filter(range[0]).0.stop then [] else UsedUntilStop(range[1..], filter)
  }

  lemma Associative<T>(a: seq<T>, b: seq<T>, c: seq<T>)
    ensures a + (b + c) == (a + b) + c
  {
  }

  ghost function Rest<T, E>(range: seq<T>, filter: FilterFunction<T, E>, i: nat): seq<E>
    requires i <= |range|
  {
    UsedUntilStop(range[i..], filter)
  }

  lemma OneElementFurther<T, E>(range: seq<T>, filter: FilterFunction<T, E>, i: nat, used: seq<E>)
    requires i < |range|
    ensures used + Rest(range, filter, i) ==
      (used + UsedOne(range[i], filter)) + if filter(range[i]).0.stop then [] else Rest(range, filter, i + 1)
  {
    assert range[i..][1..] == range[i+1..];
    Associative(used, UsedOne(range[i], filter), if filter(range[i]).0.stop then [] else Rest(range, filter, i + 1));
  }

  lemma {:induction false} UsedConcat<T, E>(a: seq<T>, b: seq<T>, filter: FilterFunction<T, E>)
    ensures Used(a + b, filter) == Used(a, filter) + Used(b, filter)
  {
    if a == [] {
      assert a + b == b;
    } else {
      var head, ab := UsedOne(a[0], filter), a + b;
      assert ab[0] == a[0] && ab[1..] == a[1..] + b;
      UsedConcat(a[1..], b, filter);
      calc {
        Used(ab, filter);
        head + Used(a[1..] + b, filter);
        head + (Used(a[1..], filter) + Used(b, filter));
        (head + Used(a[1..], filter)) + Used(b, filter);
        Used(a, filter) + Used(b, filter);
      }
    }
  }

  lemma UsedSingle<T, E>(x: T, filter: FilterFunction<T, E>)
    ensures Used([x], filter) == UsedOne(x, filter)
  {
    assert [x][1..] == [];
  }

  lemma ReverseConcat<T>(a: seq<T>, b: seq<T>)
    ensures Reverse(a + b) == Reverse(b) + Reverse(a)
  {
  }

  lemma {:induction false} UsedReverse<T, E>(s: seq<T>, filter: FilterFunction<T, E>)
    ensures Used(Reverse(s), filter) == Reverse(Used(s, filter))
  {
    if s != [] {
      assert s == [s[0]] + s[1..] && Reverse(s) == Reverse(s[1..]) + [s[0]];
      UsedReverse(s[1..], filter);
      UsedConcat(Reverse(s[1..]), [s[0]], filter);
      UsedSingle(s[0], filter);
    }
  }

  lemma {:induction false} NothingUsed<T, E>(s: seq<T>, filter: FilterFunction<T, E>)
    requires forall x :: x in s ==> !filter(x).0.use
    ensures Used(s, filter) == []
  {
    if s != [] {
      assert s[0] in s;
      NothingUsed(s[1..], filter);
    }
  }

  lemma {:induction false} AllUsed<T, E>(s: seq<T>, filter: FilterFunction<T, E>)
    requires forall x :: x in s ==> filter(x).0.use
    ensures |Used(s, filter)| == |s|
  {
    if s != [] {
      assert s[0] in s;
      AllUsed(s[1..], filter);
    }
  }

  /** Stopping loses nothing when nothing is used behind an element with STOP. */
  lemma {:induction false} StopIsSafe<T, E>(s: seq<T>, filter: FilterFunction<T, E>)
    requires forall i, j :: 0 <= i < j < |s| && filter(s[i]).0.stop ==> !filter(s[j]).0.use
    ensures UsedUntilStop(s, filter) == Used(s, filter)
  {
    if s != [] {
      if filter(s[0]).0.stop {
        NothingUsed(s[1..], filter);
      } else {
        StopIsSafe(s[1..], filter);
      }
    }
  }

  // ---------- pages that fill up ----------

  /** A full page does not change when the list goes on. */
  lemma FullPage<T>(a: seq<T>, b: seq<T>, skip: nat, size: nat)
    requires size > 0 && |Page(a, skip, size)| == size
    ensures Page(a + b, skip, size) == Page(a, skip, size)
  {
  }

  lemma PageGrows<T>(a: seq<T>, x: T, skip: nat, size: nat)
    requires size == 0 || |Page(a, skip, size)| < size
    ensures Page(a + [x], skip, size) == if |a| >= skip then Page(a, skip, size) + [x] else Page(a, skip, size)
  {
  }

  /**
   When the page of a list n is also the page of a longer list x + n + y: nothing is on it, or
   nothing comes before n and what comes behind does not reach the page.
   */
  lemma PageOfInfix<T(!new)>(x: seq<T>, n: seq<T>, y: seq<T>, skip: nat, size: nat)
    requires Distinct(x + n + y)
    ensures Page(n, skip, size) == Page(x + n + y, skip, size) <==>
      |x| + |n| + |y| <= skip || (x == [] && (y == [] || (size > 0 && |n| >= skip + size)))
  {
    var all := x + n + y;
    if x == [] {
      assert all == n + y;
    } else if skip < |all| {
      assert Page(all, skip, size)[0] == all[skip];
      if skip < |n| {
        assert Page(n, skip, size)[0] == n[skip] == all[|x| + skip];
      }
    }
  }

  /** iterateRangeInOrder with the callback of iterateRangeInOrderCollectFiltered, front to back. */
  method CollectFiltered<T, E>(range: seq<T>, p: Pagination, filter: FilterFunction<T, E>) returns (results: seq<E>)
    ensures results == Page(UsedUntilStop(range, filter), p.SkipEntriesCount(), p.size)
  {
    results := [];
    var paginationCursor := 0;
    var skip := p.SkipEntriesCount();
    ghost var used := [];
    assert range[0..] == range;
    for i := 0 to |range|
      invariant UsedUntilStop(range, filter) == used + Rest(range, filter, i)
      invariant results == Page(used, skip, p.size) && paginationCursor == |used|
      invariant p.HasCapacityLeft(|results|)
    {
      var filterResult, entity := filter(range[i]).0, filter(range[i]).1;
      ghost var rest := if filterResult.stop then [] else Rest(range, filter, i + 1);
      OneElementFurther(range, filter, i, used);
      if filterResult.use {
        PageGrows(used, entity, skip, p.size);
        used := used + [entity];
        if paginationCursor >= skip {
          results := results + [entity];
          if !p.HasCapacityLeft(|results|) {
            FullPage(used, rest, skip, p.size);
            return;
          }
        }
        paginationCursor := paginationCursor + 1;
      } else {
        assert used + UsedOne(range[i], filter) == used;
      }
      if filterResult.stop {
        assert used + rest == used;
        return;
      }
    }
    assert used + Rest(range, filter, |range|) == used;
  }

  /** A descending search runs over the range with reverse iterators. */
  method IterateRangeInOrderCollectFiltered<T, E>(range: seq<T>, direction: SearchDirection, p: Pagination,
                                                  filter: FilterFunction<T, E>)
    returns (results: seq<E>)
    ensures results == Page(UsedUntilStop(Directed(direction, range), filter), p.SkipEntriesCount(), p.size)
  {
    results := CollectFiltered(Directed(direction, range), p, filter);
  }
}
