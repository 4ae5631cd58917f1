/** When the page of one selection from a list is the page of another. */
module Pages {
  import opened Filters

  /** How many elements have the property. */
  ghost function CountOf<T>(s: seq<T>, p: T -> bool): nat {
    if s == [] then 0 else CountOf(s[..|s|-1], p) + if p(s[|s|-1]) then 1 else 0
  }

  /** The numbers of the elements with the property, in the order of the list. */
  ghost function NumbersOf<T>(s: seq<T>, nr: T -> nat, p: T -> bool): seq<nat> {
    if s == [] then [] else NumbersOf(s[..|s|-1], nr, p) + if p(s[|s|-1]) then [nr(s[|s|-1])] else []
  }

  ghost predicate HaveDistinctNumbers<T>(s: seq<T>, nr: T -> nat) {
    forall i, j :: 0 <= i < j < |s| ==> nr(s[i]) != nr(s[j])
  }

  lemma {:induction false} NumbersAreCounted<T>(s: seq<T>, nr: T -> nat, p: T -> bool)
    ensures |NumbersOf(s, nr, p)| == CountOf(s, p) <= |s|
  {
    if s != [] { NumbersAreCounted(s[..|s|-1], nr, p); }
  }

  lemma {:induction false} NumbersConcat<T>(a: seq<T>, b: seq<T>, nr: T -> nat, p: T -> bool)
    ensures NumbersOf(a + b, nr, p) == NumbersOf(a, nr, p) + NumbersOf(b, nr, p)
    ensures CountOf(a + b, p) == CountOf(a, p) + CountOf(b, p)
  {
    if b == [] {
      assert a + b == a;
    } else {
      assert (a + b)[..|a + b|-1] == a + b[..|b|-1];
      NumbersConcat(a, b[..|b|-1], nr, p);
    }
  }

  /** The element at position k, and what comes before and behind it. */
  lemma SplitAt<T>(s: seq<T>, nr: T -> nat, p: T -> bool, k: nat)
    requires k < |s|
    ensures NumbersOf(s, nr, p) == NumbersOf(s[..k], nr, p) + (if p(s[k]) then [nr(s[k])] else []) + NumbersOf(s[k+1..], nr, p)
    ensures |NumbersOf(s[..k], nr, p)| == CountOf(s[..k], p)
  {
    assert s == s[..k+1] + s[k+1..] && s[..k+1][..k] == s[..k];
    NumbersConcat(s[..k+1], s[k+1..], nr, p);
    NumbersAreCounted(s[..k], nr, p);
  }

  lemma {:induction false} NumbersHold<T>(s: seq<T>, nr: T -> nat, p: T -> bool, x: nat)
    ensures x in NumbersOf(s, nr, p) <==> exists k :: 0 <= k < |s| && p(s[k]) && nr(s[k]) == x
  {
    if s != [] {
      var init := s[..|s|-1];
      NumbersHold(init, nr, p, x);
      if k :| 0 <= k < |init| && p(init[k]) && nr(init[k]) == x { assert s[k] == init[k]; }
      if k :| 0 <= k < |s| && p(s[k]) && nr(s[k]) == x { assert k < |init| ==> init[k] == s[k]; }
    }
  }

  /** The element with the given number of predecessors. */
  lemma {:induction false} PositionOf<T>(s: seq<T>, p: T -> bool, n: nat) returns (j: nat)
    requires n < CountOf(s, p)
    ensures j < |s| && p(s[j]) && CountOf(s[..j], p) == n
  {
    var init := s[..|s|-1];
    if n < CountOf(init, p) {
      j := PositionOf(init, p, n);
      assert s[..j] == init[..j];
    } else {
      j := |s| - 1;
    }
  }

  /** The number of an element stands where its predecessors end. */
  lemma NumberAt<T>(s: seq<T>, nr: T -> nat, p: T -> bool, j: nat, n: nat)
    requires HaveDistinctNumbers(s, nr) && j < |s|
    ensures n < |NumbersOf(s, nr, p)| && NumbersOf(s, nr, p)[n] == nr(s[j]) <==> p(s[j]) && CountOf(s[..j], p) == n
  {
    SplitAt(s, nr, p, j);
    var all := NumbersOf(s, nr, p);
    if n < |all| && all[n] == nr(s[j]) {
      NumbersAreCounted(s, nr, p);
      var i := PositionOf(s, p, n);
      SplitAt(s, nr, p, i);
      assert all[n] == nr(s[i]);
    }
  }

  /** The first m elements, all of them if there are fewer. */
  function Head(s: seq<nat>, m: nat): seq<nat> {
    if |s| <= m then s else s[..m]
  }

  /** Two selections have the same first m numbers exactly when they agree until m are selected. */
  lemma {:induction false} HeadsAgree<T>(s: seq<T>, nr: T -> nat, p: T -> bool, q: T -> bool, m: nat)
    requires HaveDistinctNumbers(s, nr)
    ensures Head(NumbersOf(s, nr, p), m) == Head(NumbersOf(s, nr, q), m) <==> AgreeUntil(s, p, q, m)
  {
    if s != [] {
      var init, last := s[..|s|-1], s[|s|-1];
      HeadsAgree(init, nr, p, q, m);
      NumbersAreCounted(init, nr, p);
      LastIsNew(s, nr, p);
      LastIsNew(s, nr, q);
      LastDecides(NumbersOf(init, nr, p), NumbersOf(init, nr, q), p(last), q(last), nr(last), m);
      AgreeOnLast(s, p, q, m);
      hide AgreeUntil, Head, CountOf;
    }
  }

  ghost predicate AgreeUntil<T>(s: seq<T>, p: T -> bool, q: T -> bool, m: nat) {
    forall k :: 0 <= k < |s| && CountOf(s[..k], p) < m ==> (p(s[k]) <==> q(s[k]))
  }

  lemma AgreeOnLast<T>(s: seq<T>, p: T -> bool, q: T -> bool, m: nat)
    requires s != []
    ensures AgreeUntil(s, p, q, m) <==>
            AgreeUntil(s[..|s|-1], p, q, m) && (CountOf(s[..|s|-1], p) < m ==> (p(s[|s|-1]) <==> q(s[|s|-1])))
  {
    var init := s[..|s|-1];
    assert forall k :: 0 <= k < |init| ==> init[..k] == s[..k] && init[k] == s[k];
    hide CountOf;
  }

  lemma LastIsNew<T>(s: seq<T>, nr: T -> nat, p: T -> bool)
    requires HaveDistinctNumbers(s, nr) && s != []
    ensures nr(s[|s|-1]) !in NumbersOf(s[..|s|-1], nr, p)
  {
    NumbersHold(s[..|s|-1], nr, p, nr(s[|s|-1]));
  }

  /** One more number at the end of two lists that do not have it yet. */
  lemma LastDecides(a: seq<nat>, b: seq<nat>, inA: bool, inB: bool, x: nat, m: nat)
    requires x !in a && x !in b
    ensures Head(a + (if inA then [x] else []), m) == Head(b + (if inB then [x] else []), m) <==>
            Head(a, m) == Head(b, m) && (|a| < m ==> (inA <==> inB))
  {
    var a', b' := a + (if inA then [x] else []), b + (if inB then [x] else []);
    if |a| >= m && |b| >= m {
      assert a'[..m] == a[..m] && b'[..m] == b[..m];
    } else if |a| < m && |b| >= m {
      assert b'[..m] == b[..m];
      assert |a'| == m ==> a'[m-1] == x;
      assert b[m-1] in b;
    } else if |a| >= m && |b| < m {
      assert a'[..m] == a[..m];
      assert |b'| == m ==> b'[m-1] == x;
      assert a[m-1] in a;
    } else {
      assert Head(a', m) == a' && Head(b', m) == b';
      assert inA ==> a'[|a|] == x;
      assert inB ==> b'[|b|] == x;
      assert (x in a' <==> inA) && (x in b' <==> inB);
      assert a == a'[..|a|] && b == b'[..|b|];
    }
  }

  // ---------- pages ----------

  ghost predicate BeginsPage<T>(s: seq<T>, given: T -> bool, skip: nat, j: nat) {
    j < |s| && given(s[j]) && CountOf(s[..j], given) == skip
  }

  /** Position k is reached before the page is full. */
  ghost predicate OnPage<T>(s: seq<T>, given: T -> bool, skip: nat, size: nat, k: nat)
    requires k < |s|
  {
    CountOf(s[..k], given) >= skip && (size == 0 || CountOf(s[..k], given) < skip + size)
  }

  /**
   When the page of what is given, behind skip entries, is the page of what is asked for, behind before
   entries. Extra elements are given but not asked for, lost ones are asked for but not given: the first
   one on the page is no extra, as many are lost as are extra before it, up to the difference of the two
   counts, and none is on the page. If nothing is given on the page, nothing may be asked for on it.
   */
  ghost predicate PageIsRight<T>(s: seq<T>, given: T -> bool, asked: T -> bool, skip: nat, before: nat, size: nat) {
    if CountOf(s, given) <= skip then CountOf(s, asked) <= before
    else exists j: nat ::
      && BeginsPage(s, given, skip, j) && BeginsRight(s, given, asked, skip, before, j)
      && NoDepartureBehind(s, given, asked, skip, size, j)
  }

  ghost predicate BeginsRight<T>(s: seq<T>, given: T -> bool, asked: T -> bool, skip: nat, before: nat, j: nat)
    requires j < |s|
  {
    asked(s[j]) && skip + CountOf(s[..j], Lost(given, asked)) == before + CountOf(s[..j], Extra(given, asked))
  }

  ghost predicate NoDepartureBehind<T>(s: seq<T>, given: T -> bool, asked: T -> bool, skip: nat, size: nat, j: nat) {
    forall k :: j < k < |s| && OnPage(s, given, skip, size, k) ==> !Extra(given, asked)(s[k]) && !Lost(given, asked)(s[k])
  }

  ghost function Extra<T>(given: T -> bool, asked: T -> bool): T -> bool { (x: T) => given(x) && !asked(x) }

  ghost function Lost<T>(given: T -> bool, asked: T -> bool): T -> bool { (x: T) => asked(x) && !given(x) }

  lemma {:induction false} DeparturesBalance<T>(s: seq<T>, given: T -> bool, asked: T -> bool)
    ensures CountOf(s, asked) + CountOf(s, Extra(given, asked)) == CountOf(s, given) + CountOf(s, Lost(given, asked))
  {
    if s != [] { DeparturesBalance(s[..|s|-1], given, asked); }
  }

  /** The theorem behind all comparisons of answers with what is asked for. */
  lemma PagesAgree<T>(s: seq<T>, nr: T -> nat, given: T -> bool, asked: T -> bool, skip: nat, before: nat, size: nat)
    requires HaveDistinctNumbers(s, nr)
    ensures Page(NumbersOf(s, nr, given), skip, size) == Page(NumbersOf(s, nr, asked), before, size) <==>
            PageIsRight(s, given, asked, skip, before, size)
  {
    var a, b := NumbersOf(s, nr, given), NumbersOf(s, nr, asked);
    NumbersAreCounted(s, nr, given);
    NumbersAreCounted(s, nr, asked);
    if CountOf(s, given) > skip {
      var j := PositionOf(s, given, skip);
      NumberAt(s, nr, given, j, skip);
      NumberAt(s, nr, asked, j, before);
      OnlyOneBegins(s, given, skip, j);
      DeparturesBalance(s[..j], given, asked);
      if asked(s[j]) && CountOf(s[..j], asked) == before {
        SamePage(s, nr, given, asked, skip, before, size, j);
      } else {
        DifferentPage(a, b, skip, before, size);
      }
    }
  }

  lemma DifferentPage(a: seq<nat>, b: seq<nat>, skip: nat, before: nat, size: nat)
    requires skip < |a| && !(before < |b| && b[before] == a[skip])
    ensures Page(a, skip, size) != Page(b, before, size)
  {
    OtherPage(a, skip, b, before, size);
  }

  lemma {:induction false} CountGrows<T>(s: seq<T>, p: T -> bool, i: nat, k: nat)
    requires i <= k <= |s|
    ensures CountOf(s[..i], p) <= CountOf(s[..k], p)
    ensures i < k && p(s[i]) ==> CountOf(s[..i], p) < CountOf(s[..k], p)
  {
    if i < k {
      assert s[..k][..k-1] == s[..k-1];
      CountGrows(s, p, i, k - 1);
    }
  }

  lemma OnlyOneBegins<T>(s: seq<T>, given: T -> bool, skip: nat, j: nat)
    requires BeginsPage(s, given, skip, j)
    ensures forall i: nat :: BeginsPage(s, given, skip, i) ==> i == j
  {
    forall i: nat | BeginsPage(s, given, skip, i) ensures i == j {
      if i < j { CountGrows(s, given, i, j); } else { CountGrows(s, given, j, i); }
    }
  }

  /** Both pages begin at position j. */
  lemma SamePage<T>(s: seq<T>, nr: T -> nat, given: T -> bool, asked: T -> bool, skip: nat, before: nat, size: nat, j: nat)
    requires HaveDistinctNumbers(s, nr) && BeginsPage(s, given, skip, j) && asked(s[j]) && CountOf(s[..j], asked) == before
    ensures Page(NumbersOf(s, nr, given), skip, size) == Page(NumbersOf(s, nr, asked), before, size) <==>
            forall k :: j < k < |s| && OnPage(s, given, skip, size, k) ==> (given(s[k]) <==> asked(s[k]))
  {
    hide Page, NumbersOf, CountOf, Head, OnPage, AgreeUntil;
    var rest := s[j+1..];
    var m := if size == 0 then |rest| else size - 1;
    SplitAt(s, nr, given, j);
    SplitAt(s, nr, asked, j);
    NumbersAreCounted(rest, nr, given);
    NumbersAreCounted(rest, nr, asked);
    PageFrom(NumbersOf(s[..j], nr, given), nr(s[j]), NumbersOf(rest, nr, given), size, m);
    PageFrom(NumbersOf(s[..j], nr, asked), nr(s[j]), NumbersOf(rest, nr, asked), size, m);
    SameBehind(nr(s[j]), Head(NumbersOf(rest, nr, given), m), Head(NumbersOf(rest, nr, asked), m));
    HeadsAgree(rest, nr, given, asked, m);
    RestOnPage(s, given, asked, skip, size, j, m);
  }

  lemma SameBehind(x: nat, a: seq<nat>, b: seq<nat>)
    ensures [x] + a == [x] + b <==> a == b
  {
    assert a == ([x] + a)[1..] && b == ([x] + b)[1..];
  }

  lemma PageFrom(front: seq<nat>, x: nat, rest: seq<nat>, size: nat, m: nat)
    requires if size == 0 then |rest| <= m else m == size - 1
    ensures Page(front + [x] + rest, |front|, size) == [x] + Head(rest, m)
  {
    var all := front + [x] + rest;
    assert all[|front|..] == [x] + rest;
    if size > 0 && |rest| > m {
      assert all[|front|..|front| + size] == [x] + rest[..m];
    }
  }

  lemma RestOnPage<T>(s: seq<T>, given: T -> bool, asked: T -> bool, skip: nat, size: nat, j: nat, m: nat)
    requires BeginsPage(s, given, skip, j) && m == if size == 0 then |s[j+1..]| else size - 1
    ensures AgreeUntil(s[j+1..], given, asked, m) <==>
            forall k :: j < k < |s| && OnPage(s, given, skip, size, k) ==> (given(s[k]) <==> asked(s[k]))
  {
    var rest := s[j+1..];
    forall k | j < k < |s| ensures OnPage(s, given, skip, size, k) <==> CountOf(rest[..k - j - 1], given) < m {
      BehindFirst(s, given, j, k);
      CountIsSmall(rest[..k - j - 1], given);
    }
    if AgreeUntil(rest, given, asked, m) {
      forall k | j < k < |s| && OnPage(s, given, skip, size, k) ensures given(s[k]) <==> asked(s[k]) {
        assert rest[k - j - 1] == s[k];
      }
    } else {
      var i :| 0 <= i < |rest| && CountOf(rest[..i], given) < m && !(given(rest[i]) <==> asked(rest[i]));
      assert OnPage(s, given, skip, size, i + j + 1) && s[i + j + 1] == rest[i];
    }
  }

  lemma {:induction false} CountIsSmall<T>(s: seq<T>, p: T -> bool)
    ensures CountOf(s, p) <= |s|
  {
    if s != [] { CountIsSmall(s[..|s|-1], p); }
  }

  lemma BehindFirst<T>(s: seq<T>, p: T -> bool, j: nat, k: nat)
    requires j < k <= |s| && p(s[j])
    ensures CountOf(s[..k], p) == CountOf(s[..j], p) + 1 + CountOf(s[j+1..][..k - j - 1], p)
  {
    assert s[..k] == s[..j+1] + s[j+1..][..k - j - 1] && s[..j+1][..j] == s[..j];
    NumbersConcat(s[..j+1], s[j+1..][..k - j - 1], (x: T) => 0, p);
  }

  // ---------- simple cases ----------

  /** Without departures only the skip count matters. */
  lemma WithoutDepartures<T>(s: seq<T>, given: T -> bool, asked: T -> bool, skip: nat, before: nat, size: nat)
    requires skip <= before && forall x :: x in s ==> (given(x) <==> asked(x))
    ensures PageIsRight(s, given, asked, skip, before, size) <==> skip == before || CountOf(s, given) <= skip
  {
    Counted(s, Extra(given, asked));
    Counted(s, Lost(given, asked));
    DeparturesBalance(s, given, asked);
    forall j | 0 <= j < |s| ensures CountOf(s[..j], Extra(given, asked)) == CountOf(s[..j], Lost(given, asked)) == 0 {
      Counted(s[..j], Extra(given, asked));
      Counted(s[..j], Lost(given, asked));
    }
    if CountOf(s, given) > skip {
      var j := PositionOf(s, given, skip);
      assert BeginsPage(s, given, skip, j);
    }
  }

  lemma {:induction false} Counted<T>(s: seq<T>, p: T -> bool)
    ensures CountOf(s, p) == 0 <==> forall x :: x in s ==> !p(x)
  {
    if s != [] { Counted(s[..|s|-1], p); }
  }

  /** No extra comes up before the end of the page. */
  ghost predicate NoExtraBeforeEnd<T>(s: seq<T>, given: T -> bool, asked: T -> bool, skip: nat, size: nat) {
    forall k :: 0 <= k < |s| && (size == 0 || CountOf(s[..k], given) < skip + size) ==> !Extra(given, asked)(s[k])
  }

  /** If nothing is lost, the page is right exactly when no extra comes up before its end, or nothing is left for it. */
  lemma WithExtrasOnly<T>(s: seq<T>, given: T -> bool, asked: T -> bool, skip: nat, size: nat)
    requires forall x :: x in s && asked(x) ==> given(x)
    ensures PageIsRight(s, given, asked, skip, skip, size) <==>
      CountOf(s, given) <= skip || NoExtraBeforeEnd(s, given, asked, skip, size)
  {
    hide CountOf, NoDepartureBehind, NoExtraBeforeEnd;
    Counted(s, Lost(given, asked));
    DeparturesBalance(s, given, asked);
    if CountOf(s, given) > skip {
      var j := PositionOf(s, given, skip);
      OnlyOneBegins(s, given, skip, j);
      Counted(s[..j], Lost(given, asked));
      ExtrasBeforeAndBehind(s, given, asked, skip, size, j);
    }
  }

  lemma ExtrasBeforeAndBehind<T>(s: seq<T>, given: T -> bool, asked: T -> bool, skip: nat, size: nat, j: nat)
    requires BeginsPage(s, given, skip, j) && forall x :: x in s && asked(x) ==> given(x)
    ensures NoExtraBeforeEnd(s, given, asked, skip, size) <==>
      asked(s[j]) && CountOf(s[..j], Extra(given, asked)) == 0 && NoDepartureBehind(s, given, asked, skip, size, j)
  {
    hide CountOf;
    Counted(s[..j], Extra(given, asked));
    forall k | 0 <= k < |s|
      ensures k < j ==> CountOf(s[..k], given) <= skip
      ensures j <= k ==> skip <= CountOf(s[..k], given)
      ensures k < j && Extra(given, asked)(s[k]) ==> CountOf(s[..k], given) < skip
    {
      if k < j { CountGrows(s, given, k, j); } else { CountGrows(s, given, j, k); }
    }
    assert forall k :: 0 <= k < j ==> s[..j][k] == s[k];
    assert NoExtraBeforeEnd(s, given, asked, skip, size) ==> forall x :: x in s[..j] ==> !Extra(given, asked)(x);
  }

  lemma {:induction false} NumbersReversed<T>(s: seq<T>, nr: T -> nat, p: T -> bool)
    ensures NumbersOf(Reverse(s), nr, p) == Reverse(NumbersOf(s, nr, p))
  {
    if s == [] {
      assert Reverse(s) == [];
    } else {
      var init, last := s[..|s|-1], [s[|s|-1]];
      assert Reverse(s) == last + Reverse(init);
      NumbersConcat(last, Reverse(init), nr, p);
      NumbersReversed(init, nr, p);
      assert last[..0] == [];
      assert NumbersOf(last, nr, p) == if p(last[0]) then [nr(last[0])] else [];
    }
  }

  /** Both directions at once. */
  lemma DirectedPagesAgree<T>(s: seq<T>, nr: T -> nat, given: T -> bool, asked: T -> bool, d: SearchDirection,
                              skip: nat, before: nat, size: nat)
    requires HaveDistinctNumbers(s, nr)
    ensures Page(Directed(d, NumbersOf(s, nr, given)), skip, size) == Page(Directed(d, NumbersOf(s, nr, asked)), before, size)
       <==> PageIsRight(Directed(d, s), given, asked, skip, before, size)
  {
    hide Page, NumbersOf, PageIsRight;
    NumbersReversed(s, nr, given);
    NumbersReversed(s, nr, asked);
    assert forall i :: 0 <= i < |s| ==> Reverse(s)[i] == s[|s| - 1 - i];
    assert HaveDistinctNumbers(Directed(d, s), nr);
    PagesAgree(Directed(d, s), nr, given, asked, skip, before, size);
  }
}
