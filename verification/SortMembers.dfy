/**
  What sort_list computes, as a function on the members of an object: a merge
  sort whose already-sorted test honours the case flag but whose merge step
  always compares case-insensitively and takes the second list on ties.
 */
module SortMembers {
  import opened CStrings
  import opened Json

  predicate StrictlyAscending(ms: seq<Member>, cs: bool) {
    forall i :: 0 <= i < |ms| - 1 ==> Order(Key(ms[i].key, cs), Key(ms[i + 1].key, cs)) < 0
  }

  function Merge(a: seq<Member>, b: seq<Member>): (r: seq<Member>)
    ensures |r| == |a| + |b|
  {
    if a == [] then b
    else if b == [] then a
    else if Order(Fold(a[0].key), Fold(b[0].key)) < 0 then [a[0]] + Merge(a[1..], b)
    else [b[0]] + Merge(a, b[1..])
  }

  // The walk of two pointers, one twice as fast, stops here.
  function Middle(n: nat): nat {
    (n + 1) / 2
  }

  function Sort(ms: seq<Member>, cs: bool): (r: seq<Member>)
    ensures |r| == |ms|
    decreases |ms|
  {
    if |ms| <= 1 || StrictlyAscending(ms, cs) then ms
    else Merge(Sort(ms[..Middle(|ms|)], cs), Sort(ms[Middle(|ms|)..], cs))
  }

  // The sort keeps the first member, and no other is equal to it.
  predicate KeepsHead(ms: seq<Member>, cs: bool) {
    ms != [] ==> Sort(ms, cs)[0] == ms[0] && ms[0] !in ms[1..]
  }

  // ----- Sorting permutes

  lemma {:induction false} UnconsMultiset(s: seq<Member>)
    requires s != []
    ensures multiset(s) == multiset{s[0]} + multiset(s[1..])
  {
    assert s == [s[0]] + s[1..];
  }

  lemma {:induction false} MergePermutes(a: seq<Member>, b: seq<Member>)
    ensures multiset(Merge(a, b)) == multiset(a) + multiset(b)
  {
    if a != [] && b != [] {
      if Order(Fold(a[0].key), Fold(b[0].key)) < 0 {
        MergePermutes(a[1..], b);
        UnconsMultiset(a);
        UnconsMultiset(Merge(a, b));
      } else {
        MergePermutes(a, b[1..]);
        UnconsMultiset(b);
        UnconsMultiset(Merge(a, b));
      }
    }
  }

  lemma {:induction false} SortPermutes(ms: seq<Member>, cs: bool)
    ensures multiset(Sort(ms, cs)) == multiset(ms)
    decreases |ms|
  {
    hide StrictlyAscending, Merge;
    if |ms| > 1 && !StrictlyAscending(ms, cs) {
      var a, b := ms[..Middle(|ms|)], ms[Middle(|ms|)..];
      SortPermutes(a, cs);
      SortPermutes(b, cs);
      MergePermutes(Sort(a, cs), Sort(b, cs));
      assert ms == a + b;
    }
  }

  // Sorting changes nothing that an item means.
  lemma {:induction false} SortKeepsMeaning(ms: seq<Member>, sortCs: bool, cs: bool)
    requires Distinct(ms, cs)
    ensures Distinct(Sort(ms, sortCs), cs)
    ensures MembersMeaning(Sort(ms, sortCs), cs) == MembersMeaning(ms, cs)
    ensures TidyMembers(ms, cs) ==> TidyMembers(Sort(ms, sortCs), cs)
  {
    SortPermutes(ms, sortCs);
    MeaningOfPermutation(ms, Sort(ms, sortCs), cs);
  }

  lemma {:induction false} SortedElement(ms: seq<Member>, cs: bool, i: nat)
    requires i < |ms|
    ensures Sort(ms, cs)[i] in ms
  {
    SortPermutes(ms, cs);
    assert Sort(ms, cs)[i] in multiset(ms);
  }

  lemma {:induction false} ElementSorted(ms: seq<Member>, cs: bool, i: nat) returns (k: nat)
    requires i < |ms|
    ensures k < |Sort(ms, cs)| && Sort(ms, cs)[k] == ms[i]
  {
    SortPermutes(ms, cs);
    assert ms[i] in multiset(Sort(ms, cs));
    k :| 0 <= k < |Sort(ms, cs)| && Sort(ms, cs)[k] == ms[i];
  }

  // ----- Sorting sorts

  // a comes no later than every key of ms
  ghost predicate BeforeAll(key: string, ms: seq<Member>) {
    forall i :: 0 <= i < |ms| ==> Order(Fold(key), Fold(ms[i].key)) <= 0
  }

  ghost predicate Ascending(ms: seq<Member>) {
    forall i, j :: 0 <= i < j < |ms| ==> Order(Fold(ms[i].key), Fold(ms[j].key)) <= 0
  }

  // The same without ties.
  ghost predicate Ranked(ms: seq<Member>) {
    forall i, j :: 0 <= i < j < |ms| ==> Order(Fold(ms[i].key), Fold(ms[j].key)) < 0
  }

  lemma {:induction false} StrictlyAscendingIsRanked(ms: seq<Member>)
    requires StrictlyAscending(ms, false)
    ensures Ranked(ms)
  {
    if ms != [] {
      var t := ms[1..];
      forall i | 0 <= i < |t| - 1
        ensures Order(Key(t[i].key, false), Key(t[i + 1].key, false)) < 0
      {
        assert Order(Key(ms[i + 1].key, false), Key(ms[i + 1 + 1].key, false)) < 0;
      }
      StrictlyAscendingIsRanked(t);
      forall j | 0 < j < |ms|
        ensures Order(Fold(ms[0].key), Fold(ms[j].key)) < 0
      {
        assert Order(Key(ms[0].key, false), Key(ms[0 + 1].key, false)) < 0;
        if j > 1 {
          assert Order(Fold(t[0].key), Fold(t[j - 1].key)) < 0;
          OrderTrans(Fold(ms[0].key), Fold(ms[1].key), Fold(ms[j].key));
        }
      }
      forall i, j | 0 <= i < j < |ms|
        ensures Order(Fold(ms[i].key), Fold(ms[j].key)) < 0
      {
        if i > 0 {
          assert Order(Fold(t[i - 1].key), Fold(t[j - 1].key)) < 0;
        }
      }
    }
  }

  lemma {:induction false} MergeBefore(key: string, a: seq<Member>, b: seq<Member>)
    requires BeforeAll(key, a) && BeforeAll(key, b)
    ensures BeforeAll(key, Merge(a, b))
  {
    MergePermutes(a, b);
    var r := Merge(a, b);
    forall i | 0 <= i < |r|
      ensures Order(Fold(key), Fold(r[i].key)) <= 0
    {
      assert r[i] in multiset(a) + multiset(b);
      assert r[i] in a || r[i] in b;
    }
  }

  lemma {:induction false} HeadBefore(key: string, ms: seq<Member>)
    requires Ascending(ms)
    requires ms != [] ==> Order(Fold(key), Fold(ms[0].key)) <= 0
    ensures BeforeAll(key, ms)
  {
    forall i | 0 <= i < |ms|
      ensures Order(Fold(key), Fold(ms[i].key)) <= 0
    {
      if i > 0 {
        OrderTrans(Fold(key), Fold(ms[0].key), Fold(ms[i].key));
      }
    }
  }

  lemma {:induction false} MergeAscends(a: seq<Member>, b: seq<Member>)
    requires Ascending(a) && Ascending(b)
    ensures Ascending(Merge(a, b))
  {
    if a != [] && b != [] {
      var h, t;
      if Order(Fold(a[0].key), Fold(b[0].key)) < 0 {
        MergeAscends(a[1..], b);
        HeadBefore(a[0].key, a[1..]);
        HeadBefore(a[0].key, b);
        MergeBefore(a[0].key, a[1..], b);
        h, t := a[0], Merge(a[1..], b);
      } else {
        MergeAscends(a, b[1..]);
        OrderFlip(Fold(a[0].key), Fold(b[0].key));
        HeadBefore(b[0].key, a);
        HeadBefore(b[0].key, b[1..]);
        MergeBefore(b[0].key, a, b[1..]);
        h, t := b[0], Merge(a, b[1..]);
      }
      assert Merge(a, b) == [h] + t;
    }
  }

  lemma {:induction false} SortAscends(ms: seq<Member>)
    ensures Ascending(Sort(ms, false))
    decreases |ms|
  {
    if |ms| > 1 {
      if StrictlyAscending(ms, false) {
        StrictlyAscendingIsRanked(ms);
      } else {
        var a, b := ms[..Middle(|ms|)], ms[Middle(|ms|)..];
        SortAscends(a);
        SortAscends(b);
        MergeAscends(Sort(a, false), Sort(b, false));
      }
    }
  }

  lemma {:induction false} SortRanks(ms: seq<Member>)
    requires Distinct(ms, false)
    ensures Ranked(Sort(ms, false))
  {
    SortAscends(ms);
    SortKeepsMeaning(ms, false, false);
    var r := Sort(ms, false);
    forall i, j | 0 <= i < j < |r|
      ensures Order(Fold(r[i].key), Fold(r[j].key)) < 0
    {
      OrderZero(Fold(r[i].key), Fold(r[j].key));
    }
  }

  // ----- When the case-sensitive sort is canonical

  // strcmp and the order of the sort rank two keys alike.
  ghost predicate SameOrder(a: string, b: string) {
    Order(a, b) == Order(Fold(a), Fold(b))
  }

  ghost predicate OrdersAgree(ms: seq<Member>) {
    forall i, j :: 0 <= i < |ms| && 0 <= j < |ms| ==> SameOrder(ms[i].key, ms[j].key)
  }

  // All orders of the members sort to the same list.
  ghost predicate SortsToOneList(ms: seq<Member>, cs: bool) {
    forall p: seq<Member>, q: seq<Member> {:induction false} ::
      multiset(p) == multiset(ms) && multiset(q) == multiset(ms) ==> Sort(p, cs) == Sort(q, cs)
  }

  // Two members whose keys differ in case alone.
  ghost predicate Twins(ms: seq<Member>) {
    |ms| == 2 && Fold(ms[0].key) == Fold(ms[1].key)
  }

  // With the case flag set the sort is canonical exactly if byte order and folded
  // order rank every pair of keys alike, or if it sorts two keys that differ in case
  // alone and nothing else.
  lemma {:induction false} CaseSensitiveSortIsCanonicalIff(ms: seq<Member>)
    requires Distinct(ms, true)
    ensures SortsToOneList(ms, true) <==> OrdersAgree(ms) || Twins(ms)
  {
    hide Sort, OrdersAgree;
    if OrdersAgree(ms) {
      AgreeingIsCanonical(ms);
    }
    if Twins(ms) {
      TwinsAreCanonical(ms);
    }
    if SortsToOneList(ms, true) && !Twins(ms) {
      if Distinct(ms, false) {
        CanonicalAgrees(ms);
      } else {
        ThirdMember(ms);
      }
    }
  }

  lemma {:induction false} AgreeingIsCanonical(ms: seq<Member>)
    requires Distinct(ms, true) && OrdersAgree(ms)
    ensures SortsToOneList(ms, true)
  {
    forall i, j | 0 <= i < j < |ms|
      ensures Key(ms[i].key, false) != Key(ms[j].key, false)
    {
      assert SameOrder(ms[i].key, ms[j].key);
      OrderZero(ms[i].key, ms[j].key);
      OrderZero(Fold(ms[i].key), Fold(ms[j].key));
    }
    forall p: seq<Member>, q: seq<Member> | multiset(p) == multiset(ms) && multiset(q) == multiset(ms)
      ensures Sort(p, true) == Sort(q, true)
    {
      AgreeingSort(ms, p);
      AgreeingSort(ms, q);
    }
  }

  lemma {:induction false} CanonicalAgrees(ms: seq<Member>)
    requires Distinct(ms, false) && SortsToOneList(ms, true)
    ensures OrdersAgree(ms)
  {
    var p, q := Sort(ms, false), ByteSort(ms);
    SortPermutes(ms, false);
    SortRanks(ms);
    RankedSortsToItself(p);
    DistinctAnyway(ms);
    ByteSortPermutes(ms);
    ByteSortAscends(ms);
    AscendingSortsToItself(q);
    assert p == q;
    BothOrders(p);
    SameMembersAgree(p, ms);
  }

  lemma {:induction false} DistinctAnyway(ms: seq<Member>)
    requires Distinct(ms, false)
    ensures Distinct(ms, true)
  {
    forall i, j | 0 <= i < j < |ms|
      ensures Key(ms[i].key, true) != Key(ms[j].key, true)
    {
      assert Key(ms[i].key, false) != Key(ms[j].key, false);
    }
  }

  // Either order of the two ends with the smaller one in front.
  lemma {:induction false} TwinsAreCanonical(ms: seq<Member>)
    requires Distinct(ms, true) && Twins(ms)
    ensures SortsToOneList(ms, true)
  {
    var x, y := ms[0], ms[1];
    assert ms == [x, y];
    OrderFlip(x.key, y.key);
    OrderZero(x.key, y.key);
    var l, g := if Order(x.key, y.key) < 0 then x else y, if Order(x.key, y.key) < 0 then y else x;
    forall p: seq<Member> | multiset(p) == multiset(ms)
      ensures Sort(p, true) == [l, g]
    {
      assert |p| == |multiset(p)| == |multiset(ms)| == 2;
      assert p == [p[0], p[1]];
      assert p[0] in multiset(ms) && p[1] in multiset(ms) && x in multiset(p) && y in multiset(p);
      TwoSorted(l, g);
    }
  }

  lemma {:induction false} TwoSorted(l: Member, g: Member)
    requires Order(l.key, g.key) < 0 && Fold(l.key) == Fold(g.key)
    ensures Sort([l, g], true) == [l, g] && Sort([g, l], true) == [l, g]
  {
    var p := [g, l];
    OrderFlip(l.key, g.key);
    OrderZero(Fold(l.key), Fold(g.key));
    assert Order(Key(p[0].key, true), Key(p[0 + 1].key, true)) > 0;
    assert p[..1] == [g] && p[1..] == [l];
    assert Merge([g], [l]) == [l] + Merge([g], [l][1..]);
  }

  // Byte order never contradicts folded order, but may decide where that is silent.
  ghost predicate OrdersCompatible(ms: seq<Member>) {
    forall i, j :: 0 <= i < |ms| && 0 <= j < |ms| && Order(ms[i].key, ms[j].key) < 0 ==>
                     Order(Fold(ms[i].key), Fold(ms[j].key)) <= 0
  }

  lemma {:induction false} AscentIsKept(p: seq<Member>)
    requires Ascending(p)
    ensures Ascending(Sort(p, true))
    decreases |p|
  {
    if |p| > 1 && !StrictlyAscending(p, true) {
      AscentIsKept(p[..Middle(|p|)]);
      AscentIsKept(p[Middle(|p|)..]);
      MergeAscends(Sort(p[..Middle(|p|)], true), Sort(p[Middle(|p|)..], true));
    }
  }

  lemma {:induction false} StrictlyAscendingIsByteRanked(ms: seq<Member>)
    requires StrictlyAscending(ms, true)
    ensures ByteRanked(ms)
  {
    if ms != [] {
      var t := ms[1..];
      forall i | 0 <= i < |t| - 1
        ensures Order(Key(t[i].key, true), Key(t[i + 1].key, true)) < 0
      {
        assert Order(Key(ms[i + 1].key, true), Key(ms[i + 1 + 1].key, true)) < 0;
      }
      StrictlyAscendingIsByteRanked(t);
      forall j | 0 < j < |ms|
        ensures Order(ms[0].key, ms[j].key) < 0
      {
        assert Order(Key(ms[0].key, true), Key(ms[0 + 1].key, true)) < 0;
        if j > 1 {
          assert Order(t[0].key, t[j - 1].key) < 0;
          OrderTrans(ms[0].key, ms[1].key, ms[j].key);
        }
      }
      forall i, j | 0 < i < j < |ms|
        ensures Order(ms[i].key, ms[j].key) < 0
      {
        assert Order(t[i - 1].key, t[j - 1].key) < 0;
      }
    }
  }

  lemma {:induction false} CompatibleSortAscends(p: seq<Member>)
    requires OrdersCompatible(p)
    ensures Ascending(Sort(p, true))
    decreases |p|
  {
    if |p| > 1 {
      if StrictlyAscending(p, true) {
        StrictlyAscendingIsByteRanked(p);
      } else {
        CompatibleSortAscends(p[..Middle(|p|)]);
        CompatibleSortAscends(p[Middle(|p|)..]);
        MergeAscends(Sort(p[..Middle(|p|)], true), Sort(p[Middle(|p|)..], true));
      }
    }
  }

  lemma {:induction false} HeadAtMost(ms: seq<Member>, m: Member)
    requires Ascending(ms) && m in ms
    ensures Order(Fold(ms[0].key), Fold(m.key)) <= 0
  {
    OrderZero(Fold(m.key), Fold(m.key));
  }

  // On a tie the merge takes the member of the second list first.
  lemma {:induction false} TieGoesSecond(l: seq<Member>, r: seq<Member>, x: Member, y: Member)
    returns (i: nat, j: nat)
    requires Ascending(l) && Ascending(r) && x in l && y in r && Fold(x.key) == Fold(y.key)
    ensures i < j < |l| + |r| && Merge(l, r)[i] == y && Merge(l, r)[j] == x
  {
    hide Fold, Order;
    if Order(Fold(l[0].key), Fold(r[0].key)) < 0 {
      HeadAtMost(r, y);
      OrderFlip(Fold(l[0].key), Fold(r[0].key));
      assert l[0] != x;
      i, j := TieGoesSecond(l[1..], r, x, y);
      i, j := i + 1, j + 1;
    } else if r[0] == y {
      MergePermutes(l, r[1..]);
      assert x in multiset(l) + multiset(r[1..]);
      assert x in Merge(l, r[1..]);
      var k :| 0 <= k < |Merge(l, r[1..])| && Merge(l, r[1..])[k] == x;
      i, j := 0, k + 1;
    } else {
      i, j := TieGoesSecond(l, r[1..], x, y);
      i, j := i + 1, j + 1;
    }
  }

  // An order of the members that is merged with y in front of x.
  lemma {:induction false} MergedSwapped(p: seq<Member>, x: Member, y: Member)
    requires OrdersCompatible(p) && !StrictlyAscending(p, true) && |p| > 2 && Fold(x.key) == Fold(y.key)
    requires x in p[..2] && p[|p| - 1] == y
    ensures exists i, j :: 0 <= i < j < |p| && Sort(p, true)[i] == y && Sort(p, true)[j] == x
  {
    hide OrdersCompatible, Ascending, Fold, Order, Merge, StrictlyAscending;
    var m := Middle(|p|);
    var l, r := p[..m], p[m..];
    var a, b := Sort(l, true), Sort(r, true);
    assert p[..2] == l[..2] && r[|r| - 1] == y;
    CompatibleParts(p, m);
    CompatibleSortAscends(l);
    CompatibleSortAscends(r);
    SortPermutes(l, true);
    SortPermutes(r, true);
    assert x in multiset(a) && y in multiset(b);
    var i, j := TieGoesSecond(a, b, x, y);
    assert Sort(p, true) == Merge(a, b);
  }

  // With a third member beside x and y there is one.
  lemma {:induction false} TwinsSwapped(x: Member, y: Member, z: Member, s: seq<Member>) returns (p: seq<Member>)
    requires Fold(x.key) == Fold(y.key) && z.key != x.key
    requires OrdersCompatible([x, z] + s + [y])
    ensures multiset(p) == multiset([x, z] + s + [y])
    ensures exists i, j :: 0 <= i < j < |p| && Sort(p, true)[i] == y && Sort(p, true)[j] == x
  {
    hide OrdersCompatible, Fold, Order, Sort;
    var was := [x, z] + s + [y];
    p := was;
    if StrictlyAscending(was, true) {
      p := [z, x] + s + [y];
      Exchanged(x, z, s + [y]);
      assert was == [x, z] + (s + [y]) && p == [z, x] + (s + [y]);
      OtherwiseOrdered(x, z, s + [y]);
      CompatiblePermutation(was, p);
    }
    assert x in p[..2] && p[|p| - 1] == y by {
      assert p[0] == x || p[1] == x;
    }
    MergedSwapped(p, x, y);
  }

  lemma {:induction false} Exchanged(x: Member, z: Member, t: seq<Member>)
    ensures multiset([x, z] + t) == multiset([z, x] + t)
  {
    assert multiset([x, z]) == multiset([z, x]);
  }

  lemma {:induction false} OtherwiseOrdered(x: Member, z: Member, t: seq<Member>)
    requires StrictlyAscending([x, z] + t, true)
    ensures !StrictlyAscending([z, x] + t, true)
  {
    var p, q := [x, z] + t, [z, x] + t;
    assert Order(Key(p[0].key, true), Key(p[0 + 1].key, true)) < 0;
    OrderFlip(x.key, z.key);
    assert Order(Key(q[0].key, true), Key(q[0 + 1].key, true)) > 0;
  }

  lemma {:induction false} CompatibleParts(p: seq<Member>, k: nat)
    requires OrdersCompatible(p) && k <= |p|
    ensures OrdersCompatible(p[..k]) && OrdersCompatible(p[k..])
  {
  }

  lemma {:induction false} CompatiblePermutation(a: seq<Member>, b: seq<Member>)
    requires multiset(a) == multiset(b) && OrdersCompatible(a)
    ensures OrdersCompatible(b)
  {
    forall i, j | 0 <= i < |b| && 0 <= j < |b| && Order(b[i].key, b[j].key) < 0
      ensures Order(Fold(b[i].key), Fold(b[j].key)) <= 0
    {
      assert b[i] in multiset(a) && b[j] in multiset(a);
      var k :| 0 <= k < |a| && a[k] == b[i];
      var l :| 0 <= l < |a| && a[l] == b[j];
    }
  }

  // If the sort is canonical, its result is in byte order and in folded order.
  lemma {:induction false} CanonicalIsCompatible(ms: seq<Member>)
    requires Distinct(ms, true) && SortsToOneList(ms, true)
    ensures OrdersCompatible(ms)
  {
    hide Sort;
    var p, q := Sort(ms, false), ByteSort(ms);
    SortPermutes(ms, false);
    SortAscends(ms);
    AscentIsKept(p);
    ByteSortPermutes(ms);
    ByteSortAscends(ms);
    AscendingSortsToItself(q);
    assert Ascending(q);
    forall i, j | 0 <= i < |q| && 0 <= j < |q| && Order(q[i].key, q[j].key) < 0
      ensures Order(Fold(q[i].key), Fold(q[j].key)) <= 0
    {
      OrderFlip(q[i].key, q[j].key);
      OrderZero(q[i].key, q[j].key);
    }
    CompatiblePermutation(q, ms);
  }

  // Of three members or more, two that differ in case alone prevent a canonical order.
  lemma {:induction false} ThirdMember(ms: seq<Member>)
    requires Distinct(ms, true) && !Distinct(ms, false) && !Twins(ms)
    ensures !SortsToOneList(ms, true)
  {
    hide Sort, OrdersCompatible;
    if SortsToOneList(ms, true) {
      CanonicalIsCompatible(ms);
      var i, j :| 0 <= i < j < |ms| && Key(ms[i].key, false) == Key(ms[j].key, false);
      assert Key(ms[i].key, true) != Key(ms[j].key, true);
      OrderZero(ms[i].key, ms[j].key);
      OrderFlip(ms[i].key, ms[j].key);
      var x, y := if Order(ms[i].key, ms[j].key) < 0 then ms[i] else ms[j],
          if Order(ms[i].key, ms[j].key) < 0 then ms[j] else ms[i];
      var rest := Without(Without(ms, j), i);
      var z, s := rest[0], rest[1..];
      OthersThan(ms, i, j, x, y);
      CompatiblePermutation(ms, [x, z] + s + [y]);
      var p := TwinsSwapped(x, y, z, s);
      InByteOrder(ms, p, x, y);
    }
  }

  // The others, put between two members.
  lemma {:induction false} OthersThan(ms: seq<Member>, i: nat, j: nat, x: Member, y: Member)
    requires Distinct(ms, true) && i < j < |ms| && |ms| > 2
    requires (x == ms[i] && y == ms[j]) || (x == ms[j] && y == ms[i])
    ensures var rest := Without(Without(ms, j), i);
            && rest != [] && rest[0].key != x.key
            && multiset([x, rest[0]] + rest[1..] + [y]) == multiset(ms)
  {
    var rest := Without(Without(ms, j), i);
    TakenOut(ms, i, j);
    FirstOther(ms, i, j);
    hide Without, Distinct;
    assert [x, rest[0]] + rest[1..] + [y] == [x] + rest + [y];
    Ends(rest, x, y);
  }

  lemma {:induction false} TakenOut(ms: seq<Member>, i: nat, j: nat)
    requires i < j < |ms|
    ensures multiset(Without(Without(ms, j), i)) + multiset{ms[i], ms[j]} == multiset(ms)
    ensures |Without(Without(ms, j), i)| == |ms| - 2
  {
    var a, b, c := ms[..i], ms[i + 1..j], ms[j + 1..];
    assert Without(Without(ms, j), i) == a + b + c;
    assert ms == a + ([ms[i]] + (b + ([ms[j]] + c)));
    Around(a, b, c, ms[i], ms[j]);
  }

  lemma {:induction false} FirstOther(ms: seq<Member>, i: nat, j: nat)
    requires Distinct(ms, true) && i < j < |ms| && |ms| > 2
    ensures Without(Without(ms, j), i)[0].key != ms[i].key && Without(Without(ms, j), i)[0].key != ms[j].key
  {
    var k := if i > 0 then 0 else if j > 1 then 1 else 2;
    assert Without(Without(ms, j), i)[0] == ms[k];
    assert Key(ms[k].key, true) != Key(ms[i].key, true) && Key(ms[k].key, true) != Key(ms[j].key, true);
  }

  lemma {:induction false} Around(a: seq<Member>, b: seq<Member>, c: seq<Member>, x: Member, y: Member)
    ensures multiset(a + ([x] + (b + ([y] + c)))) == multiset(a + b + c) + multiset{x, y}
  {
  }

  lemma {:induction false} Ends(s: seq<Member>, x: Member, y: Member)
    ensures multiset([x] + s + [y]) == multiset(s) + multiset{x, y}
  {
  }

  lemma {:induction false} InByteOrder(ms: seq<Member>, p: seq<Member>, x: Member, y: Member)
    requires Distinct(ms, true) && SortsToOneList(ms, true) && multiset(p) == multiset(ms)
    requires Order(x.key, y.key) < 0
    ensures forall i, j :: 0 <= i < j < |p| ==> !(Sort(p, true)[i] == y && Sort(p, true)[j] == x)
  {
    hide Sort;
    var q := ByteSort(ms);
    ByteSortPermutes(ms);
    ByteSortAscends(ms);
    AscendingSortsToItself(q);
    assert Sort(p, true) == q;
    OrderFlip(x.key, y.key);
  }

  // Where the orders agree, the case flag makes no difference.
  lemma {:induction false} SortFlagIrrelevant(ms: seq<Member>)
    requires OrdersAgree(ms)
    ensures Sort(ms, true) == Sort(ms, false)
    decreases |ms|
  {
    forall i | 0 <= i < |ms| - 1
      ensures Order(Key(ms[i].key, true), Key(ms[i + 1].key, true))
              == Order(Key(ms[i].key, false), Key(ms[i + 1].key, false))
    {
      assert SameOrder(ms[i].key, ms[i + 1].key);
    }
    assert StrictlyAscending(ms, true) <==> StrictlyAscending(ms, false);
    if |ms| > 1 {
      SortFlagIrrelevant(ms[..Middle(|ms|)]);
      SortFlagIrrelevant(ms[Middle(|ms|)..]);
    }
  }

  // They do when no key has an upper-case letter.
  ghost predicate LowercaseKeys(ms: seq<Member>) {
    forall i :: 0 <= i < |ms| ==> Lowercase(ms[i].key)
  }

  lemma {:induction false} LowercaseOrdersAgree(ms: seq<Member>)
    requires LowercaseKeys(ms)
    ensures OrdersAgree(ms)
  {
    forall i | 0 <= i < |ms|
      ensures Fold(ms[i].key) == ms[i].key
    {
      FoldIdempotent(ms[i].key);
    }
  }

  // One order of the members, sorted with the flag, is the list sorted without it.
  lemma {:induction false} AgreeingSort(ms: seq<Member>, p: seq<Member>)
    requires Distinct(ms, false) && OrdersAgree(ms) && multiset(p) == multiset(ms)
    ensures Sort(p, true) == Sort(ms, false)
  {
    SameMembersAgree(ms, p);
    SortFlagIrrelevant(p);
    MeaningOfPermutation(ms, p, false);
    SortRanks(ms);
    SortRanks(p);
    SortPermutes(ms, false);
    SortPermutes(p, false);
    RankedPermutation(Sort(p, false), Sort(ms, false));
  }

  lemma {:induction false} SameMembersAgree(a: seq<Member>, b: seq<Member>)
    requires multiset(a) == multiset(b) && OrdersAgree(a)
    ensures OrdersAgree(b)
  {
    forall i, j | 0 <= i < |b| && 0 <= j < |b|
      ensures SameOrder(b[i].key, b[j].key)
    {
      assert b[i] in multiset(a) && b[j] in multiset(a);
      var k :| 0 <= k < |a| && a[k] == b[i];
      var l :| 0 <= l < |a| && a[l] == b[j];
    }
  }

  // Strictly ranked lists of the same members are the same.
  lemma {:induction false} RankedPermutation(a: seq<Member>, b: seq<Member>)
    requires Ranked(a) && Ranked(b) && multiset(a) == multiset(b)
    ensures a == b
    decreases |a|
  {
    hide Ranked;
    assert |a| == |multiset(a)| && |b| == |multiset(b)|;
    if a != [] {
      SameHead(a, b);
      SameTails(a, b);
      RankedTails(a, b);
      RankedPermutation(a[1..], b[1..]);
      assert a == [a[0]] + a[1..] && b == [b[0]] + b[1..];
    }
  }

  lemma {:induction false} RankedTails(a: seq<Member>, b: seq<Member>)
    requires Ranked(a) && Ranked(b) && a != [] && b != []
    ensures Ranked(a[1..]) && Ranked(b[1..])
  {
  }

  lemma {:induction false} SameTails(a: seq<Member>, b: seq<Member>)
    requires multiset(a) == multiset(b) && a != [] && b != [] && a[0] == b[0]
    ensures multiset(a[1..]) == multiset(b[1..])
  {
    UnconsMultiset(a);
    UnconsMultiset(b);
    assert multiset(a[1..]) == multiset(a) - multiset{a[0]};
  }

  lemma {:induction false} SameHead(a: seq<Member>, b: seq<Member>)
    requires Ranked(a) && Ranked(b) && multiset(a) == multiset(b) && a != [] && b != []
    ensures a[0] == b[0]
  {
    hide Order, Fold;
    assert a[0] in multiset(b) && b[0] in multiset(a);
    var i :| 0 <= i < |b| && b[i] == a[0];
    var j :| 0 <= j < |a| && a[j] == b[0];
    OrderFlip(Fold(a[0].key), Fold(b[0].key));
  }

  // Merging what is already in order.
  lemma {:induction false} MergeRanked(a: seq<Member>, b: seq<Member>)
    requires Ranked(a + b)
    ensures Merge(a, b) == a + b
  {
    if a != [] && b != [] {
      assert (a + b)[0] == a[0] && (a + b)[|a|] == b[0];
      assert (a + b)[1..] == a[1..] + b;
      MergeRanked(a[1..], b);
      assert [a[0]] + (a[1..] + b) == a + b;
    }
  }

  lemma {:induction false} RankedSortsToItself(ms: seq<Member>)
    requires Ranked(ms)
    ensures Sort(ms, true) == ms
    decreases |ms|
  {
    if |ms| > 1 && !StrictlyAscending(ms, true) {
      var a, b := ms[..Middle(|ms|)], ms[Middle(|ms|)..];
      RankedSortsToItself(a);
      RankedSortsToItself(b);
      assert ms == a + b;
      MergeRanked(a, b);
    }
  }

  lemma {:induction false} AscendingSortsToItself(ms: seq<Member>)
    requires StrictlyAscending(ms, true)
    ensures Sort(ms, true) == ms
  {
  }

  // The members in byte order, by insertion.
  ghost function ByteInserted(m: Member, ms: seq<Member>): (r: seq<Member>)
    ensures |r| == |ms| + 1
  {
    if ms == [] || Order(m.key, ms[0].key) < 0 then [m] + ms else [ms[0]] + ByteInserted(m, ms[1..])
  }

  ghost function ByteSort(ms: seq<Member>): (r: seq<Member>)
    ensures |r| == |ms|
  {
    if ms == [] then [] else ByteInserted(ms[0], ByteSort(ms[1..]))
  }

  lemma {:induction false} ByteInsertedPermutes(m: Member, ms: seq<Member>)
    ensures multiset(ByteInserted(m, ms)) == multiset{m} + multiset(ms)
  {
    if ms != [] && Order(m.key, ms[0].key) >= 0 {
      ByteInsertedPermutes(m, ms[1..]);
      UnconsMultiset(ms);
    }
  }

  lemma {:induction false} ByteSortPermutes(ms: seq<Member>)
    ensures multiset(ByteSort(ms)) == multiset(ms)
  {
    if ms != [] {
      ByteSortPermutes(ms[1..]);
      ByteInsertedPermutes(ms[0], ByteSort(ms[1..]));
      UnconsMultiset(ms);
    }
  }

  // Different keys, in byte order.
  ghost predicate ByteRanked(ms: seq<Member>) {
    forall i, j :: 0 <= i < j < |ms| ==> Order(ms[i].key, ms[j].key) < 0
  }

  lemma {:induction false} ByteInsertedRanks(m: Member, ms: seq<Member>)
    requires ByteRanked(ms) && forall i :: 0 <= i < |ms| ==> ms[i].key != m.key
    ensures ByteRanked(ByteInserted(m, ms))
  {
    hide Fold;
    if ms != [] {
      var r := ByteInserted(m, ms);
      if Order(m.key, ms[0].key) < 0 {
        forall j | 0 < j < |r|
          ensures Order(r[0].key, r[j].key) < 0
        {
          if j > 1 {
            OrderTrans(m.key, ms[0].key, ms[j - 1].key);
          }
        }
      } else {
        OrderZero(m.key, ms[0].key);
        OrderFlip(m.key, ms[0].key);
        ByteInsertedRanks(m, ms[1..]);
        ByteInsertedPermutes(m, ms[1..]);
        var t := ByteInserted(m, ms[1..]);
        forall j | 0 < j < |r|
          ensures Order(r[0].key, r[j].key) < 0
        {
          assert t[j - 1] in multiset{m} + multiset(ms[1..]);
        }
      }
    }
  }

  lemma {:induction false} ByteSortAscends(ms: seq<Member>)
    requires Distinct(ms, true)
    ensures ByteRanked(ByteSort(ms)) && StrictlyAscending(ByteSort(ms), true)
  {
    if ms != [] {
      var t := ByteSort(ms[1..]);
      ByteSortAscends(ms[1..]);
      ByteSortPermutes(ms[1..]);
      forall i | 0 <= i < |t|
        ensures t[i].key != ms[0].key
      {
        assert t[i] in multiset(ms[1..]);
        var j :| 0 <= j < |ms[1..]| && ms[1..][j] == t[i];
        assert Key(ms[0].key, true) != Key(ms[j + 1].key, true);
      }
      ByteInsertedRanks(ms[0], t);
    }
  }

  // A list in both orders ranks all its keys alike in both.
  lemma {:induction false} BothOrders(ms: seq<Member>)
    requires Ranked(ms) && ByteRanked(ms)
    ensures OrdersAgree(ms)
  {
    forall i, j | 0 <= i < |ms| && 0 <= j < |ms|
      ensures SameOrder(ms[i].key, ms[j].key)
    {
      OrderFlip(ms[i].key, ms[j].key);
      OrderFlip(Fold(ms[i].key), Fold(ms[j].key));
      OrderZero(ms[i].key, ms[j].key);
      OrderZero(Fold(ms[i].key), Fold(ms[j].key));
    }
  }

  // With upper-case letters the case-sensitive sort is not canonical: one list is
  // left as it is in byte order, the other is merged into alphabetical order.
  lemma {:induction false} CaseSensitiveSortIsNotCanonical()
    ensures var b, a := Member("B", Null), Member("a", Null);
            Sort([b, a], true) == [b, a] && Sort([a, b], true) == [a, b]
  {
    var b, a := Member("B", Null), Member("a", Null);
    var ba, ab := [b, a], [a, b];
    assert Order(Key(ba[0].key, true), Key(ba[0 + 1].key, true)) < 0;
    assert Order(Key(ab[0].key, true), Key(ab[0 + 1].key, true)) > 0;
    assert !StrictlyAscending(ab, true);
    assert ab[..1] == [a] && ab[1..] == [b];
    assert Fold("a") == "a" && Fold("B") == "b";
    assert Order("a", "b") < 0;
    assert Sort(ab, true) == Merge([a], [b]) == [a] + Merge([a][1..], [b]);
  }

  // ----- One canonical order

  // Two ranked lists that mean the same agree position by position.
  lemma {:induction false} RankedIsCanonical(a: seq<Member>, b: seq<Member>)
    requires Ranked(a) && Ranked(b)
    requires MembersMeaning(a, false) == MembersMeaning(b, false)
    ensures |a| == |b|
    ensures forall i :: 0 <= i < |a| ==>
              Fold(a[i].key) == Fold(b[i].key) && Meaning(a[i].value, false) == Meaning(b[i].value, false)
  {
    RankedIsDistinct(a);
    RankedIsDistinct(b);
    NonemptyMeaning(a);
    NonemptyMeaning(b);
    if a != [] {
      HeadsAgree(a, b);
      MeaningTail(a);
      MeaningTail(b);
      RankedIsCanonical(a[1..], b[1..]);
      assert a == [a[0]] + a[1..] && b == [b[0]] + b[1..];
    }
  }

  lemma {:induction false} HeadsAgree(a: seq<Member>, b: seq<Member>)
    requires Ranked(a) && Ranked(b) && a != [] && b != []
    requires MembersMeaning(a, false) == MembersMeaning(b, false)
    ensures Fold(a[0].key) == Fold(b[0].key)
    ensures Meaning(a[0].value, false) == Meaning(b[0].value, false)
  {
    HeadIsLeast(a, Fold(b[0].key));
    HeadIsLeast(b, Fold(a[0].key));
    OrderFlip(Fold(a[0].key), Fold(b[0].key));
    OrderZero(Fold(a[0].key), Fold(b[0].key));
  }

  lemma {:induction false} MeaningTail(ms: seq<Member>)
    requires Ranked(ms) && ms != []
    ensures MembersMeaning(ms[1..], false) == MembersMeaning(ms, false) - {Fold(ms[0].key)}
  {
    RankedIsDistinct(ms);
    MeaningWithout(ms, false, 0);
    assert Without(ms, 0) == ms[1..];
  }

  lemma {:induction false} NonemptyMeaning(ms: seq<Member>)
    ensures ms == [] <==> MembersMeaning(ms, false) == map[]
  {
    if ms != [] {
      assert Key(ms[0].key, false) in MembersMeaning(ms, false);
    }
  }

  lemma {:induction false} RankedIsDistinct(ms: seq<Member>)
    requires Ranked(ms)
    ensures Distinct(ms, false)
  {
    forall i, j | 0 <= i < j < |ms|
      ensures Key(ms[i].key, false) != Key(ms[j].key, false)
    {
      OrderZero(Fold(ms[i].key), Fold(ms[j].key));
    }
  }

  lemma {:induction false} HeadIsLeast(ms: seq<Member>, k: string)
    requires Ranked(ms) && ms != [] && k in MembersMeaning(ms, false)
    ensures Order(Fold(ms[0].key), k) <= 0
  {
    MeaningKeys(ms, false, k);
    var i :| 0 <= i < |ms| && Key(ms[i].key, false) == k;
    OrderZero(k, k);
  }
}
