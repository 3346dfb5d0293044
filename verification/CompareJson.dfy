/**
  compare_json: equality of two items by sorting the members of both objects and
  comparing them position by position. The objects it visits stay sorted.
 */
module CompareJson {
  import opened CStrings
  import opened Json
  import opened SortMembers

  function Alike(a: Json, b: Json, cs: bool): bool
    decreases Height(a), 0, 0
  {
    match (a, b)
    case (Invalid, Invalid) => true
    case (False, False) => true
    case (True, True) => true
    case (Null, Null) => true
    case (Number(x), Number(y)) => x == y
    case (String(x), String(y)) => x == y
    case (Array(x), Array(y)) => AlikeItems(x, y, cs)
    case (Object(x), Object(y)) =>
      SortedHeight(x, cs);
      AlikeMembers(Sort(x, cs), Sort(y, cs), cs)
    case _ => false
  }

  function AlikeItems(a: seq<Json>, b: seq<Json>, cs: bool): bool
    decreases ItemsHeight(a), 1, |a|
  {
    if a == [] || b == [] then a == b
    else Alike(a[0], b[0], cs) && AlikeItems(a[1..], b[1..], cs)
  }

  function AlikeMembers(a: seq<Member>, b: seq<Member>, cs: bool): bool
    decreases MembersHeight(a), 1, |a|
  {
    if a == [] || b == [] then a == b
    else
      && Order(Key(a[0].key, cs), Key(b[0].key, cs)) == 0
      && Alike(a[0].value, b[0].value, cs)
      && AlikeMembers(a[1..], b[1..], cs)
  }

  lemma {:induction false} SortedHeight(ms: seq<Member>, cs: bool)
    ensures MembersHeight(Sort(ms, cs)) <= MembersHeight(ms)
  {
    var s := Sort(ms, cs);
    forall i | 0 <= i < |s|
      ensures Height(s[i].value) <= MembersHeight(ms)
    {
      SortedElement(ms, cs, i);
      var j :| 0 <= j < |ms| && ms[j] == s[i];
      MemberHeight(ms, j);
    }
    MembersHeightBound(s, MembersHeight(ms));
  }

  // ----- What the comparison leaves behind

  // The first item after it has been compared with the second.
  function Compared(a: Json, b: Json, cs: bool): Json
    decreases Height(a), 0, 0
  {
    match (a, b)
    case (Array(x), Array(y)) => Array(ComparedItems(x, y, cs))
    case (Object(x), Object(y)) =>
      SortedHeight(x, cs);
      Object(ComparedMembers(Sort(x, cs), Sort(y, cs), cs))
    case _ => a
  }

  // Up to the first difference.
  function ComparedItems(a: seq<Json>, b: seq<Json>, cs: bool): seq<Json>
    decreases ItemsHeight(a), 1, |a|
  {
    if a == [] || b == [] then a
    else
      [Compared(a[0], b[0], cs)] + if Alike(a[0], b[0], cs) then ComparedItems(a[1..], b[1..], cs) else a[1..]
  }

  function ComparedMembers(a: seq<Member>, b: seq<Member>, cs: bool): seq<Member>
    decreases MembersHeight(a), 1, |a|
  {
    if a == [] || b == [] || Order(Key(a[0].key, cs), Key(b[0].key, cs)) != 0 then a
    else
      [Member(a[0].key, Compared(a[0].value, b[0].value, cs))]
      + if Alike(a[0].value, b[0].value, cs) then ComparedMembers(a[1..], b[1..], cs) else a[1..]
  }

  // No object of the first item gets another head by being sorted.
  predicate HeadsStay(a: Json, b: Json, cs: bool)
    decreases Height(a), 0, 0
  {
    match (a, b)
    case (Array(x), Array(y)) => ItemHeadsStay(x, y, cs)
    case (Object(x), Object(y)) =>
      SortedHeight(x, cs);
      KeepsHead(x, cs) && MemberHeadsStay(Sort(x, cs), Sort(y, cs), cs)
    case _ => true
  }

  predicate ItemHeadsStay(a: seq<Json>, b: seq<Json>, cs: bool)
    decreases ItemsHeight(a), 1, |a|
  {
    a == [] || b == []
    || (HeadsStay(a[0], b[0], cs) && (Alike(a[0], b[0], cs) ==> ItemHeadsStay(a[1..], b[1..], cs)))
  }

  predicate MemberHeadsStay(a: seq<Member>, b: seq<Member>, cs: bool)
    decreases MembersHeight(a), 1, |a|
  {
    a == [] || b == [] || Order(Key(a[0].key, cs), Key(b[0].key, cs)) != 0
    || (&& HeadsStay(a[0].value, b[0].value, cs)
        && (Alike(a[0].value, b[0].value, cs) ==> MemberHeadsStay(a[1..], b[1..], cs)))
  }

  // Both roles are the same.
  lemma {:induction false} AlikeSymmetric(a: Json, b: Json, cs: bool)
    ensures Alike(a, b, cs) == Alike(b, a, cs)
    decreases Height(a), 0, 0
  {
    match (a, b)
    case (Array(x), Array(y)) =>
      AlikeItemsSymmetric(x, y, cs);
    case (Object(x), Object(y)) =>
      SortedHeight(x, cs);
      AlikeMembersSymmetric(Sort(x, cs), Sort(y, cs), cs);
    case _ =>
  }

  lemma {:induction false} AlikeItemsSymmetric(a: seq<Json>, b: seq<Json>, cs: bool)
    ensures AlikeItems(a, b, cs) == AlikeItems(b, a, cs)
    decreases ItemsHeight(a), 1, |a|
  {
    if a != [] && b != [] {
      AlikeSymmetric(a[0], b[0], cs);
      AlikeItemsSymmetric(a[1..], b[1..], cs);
    }
  }

  lemma {:induction false} AlikeMembersSymmetric(a: seq<Member>, b: seq<Member>, cs: bool)
    ensures AlikeMembers(a, b, cs) == AlikeMembers(b, a, cs)
    decreases MembersHeight(a), 1, |a|
  {
    if a != [] && b != [] {
      OrderFlip(Key(a[0].key, cs), Key(b[0].key, cs));
      AlikeSymmetric(a[0].value, b[0].value, cs);
      AlikeMembersSymmetric(a[1..], b[1..], cs);
    }
  }

  // compare_json: the verdict, and both items as it leaves them.
  method CompareJson(a: Json, b: Json, cs: bool) returns (identical: bool, left: Json, right: Json)
    ensures identical == Alike(a, b, cs)
    ensures left == Compared(a, b, cs) && right == Compared(b, a, cs)
    decreases Height(a), 1
  {
    match (a, b) {
      case (Number(x), Number(y)) =>
        return x == y, a, b;
      case (String(x), String(y)) =>
        return x == y, a, b;
      case (Array(x), Array(y)) =>
        var l, r;
        identical, l, r := CompareItems(x, y, cs);
        return identical, Array(l), Array(r);
      case (Object(x), Object(y)) =>
        SortedHeight(x, cs);
        var l, r;
        identical, l, r := CompareMembers(Sort(x, cs), Sort(y, cs), cs);
        return identical, Object(l), Object(r);
      case _ =>
        return a == b, a, b;
    }
  }

  // The loop over the elements of two arrays.
  method CompareItems(x: seq<Json>, y: seq<Json>, cs: bool)
    returns (identical: bool, left: seq<Json>, right: seq<Json>)
    ensures identical == AlikeItems(x, y, cs)
    ensures left == ComparedItems(x, y, cs) && right == ComparedItems(y, x, cs)
    decreases ItemsHeight(x), 2
  {
    hide Alike, Compared;
    var l, r, i := [], [], 0;
    while i < |x| && i < |y|
      invariant 0 <= i <= |x| && i <= |y|
      invariant AlikeItems(x, y, cs) == AlikeItems(x[i..], y[i..], cs)
      invariant ComparedItems(x, y, cs) == l + ComparedItems(x[i..], y[i..], cs)
      invariant ComparedItems(y, x, cs) == r + ComparedItems(y[i..], x[i..], cs)
    {
      ghost var f, g := x[i..], y[i..];
      assert f[1..] == x[i + 1..] && g[1..] == y[i + 1..];
      ItemHeight(x, i);
      AlikeSymmetric(x[i], y[i], cs);
      var a, b;
      identical, a, b := CompareJson(x[i], y[i], cs);
      if !identical {
        return false, l + ([a] + x[i + 1..]), r + ([b] + y[i + 1..]);
      }
      Regroup(l, [a], ComparedItems(f[1..], g[1..], cs));
      Regroup(r, [b], ComparedItems(g[1..], f[1..], cs));
      l, r, i := l + [a], r + [b], i + 1;
    }
    return i == |x| && i == |y|, l + x[i..], r + y[i..];
  }

  // The loop over the members of two sorted objects.
  method CompareMembers(x: seq<Member>, y: seq<Member>, cs: bool)
    returns (identical: bool, left: seq<Member>, right: seq<Member>)
    ensures identical == AlikeMembers(x, y, cs)
    ensures left == ComparedMembers(x, y, cs) && right == ComparedMembers(y, x, cs)
    decreases MembersHeight(x), 2
  {
    hide AlikeMembers, ComparedMembers, Alike, Compared, Key;
    var l, r, i := [], [], 0;
    while i < |x| && i < |y|
      invariant 0 <= i <= |x| && i <= |y|
      invariant AlikeMembers(x, y, cs) == AlikeMembers(x[i..], y[i..], cs)
      invariant ComparedMembers(x, y, cs) == l + ComparedMembers(x[i..], y[i..], cs)
      invariant ComparedMembers(y, x, cs) == r + ComparedMembers(y[i..], x[i..], cs)
    {
      ghost var f, g := x[i..], y[i..];
      assert f[1..] == x[i + 1..] && g[1..] == y[i + 1..];
      OrderFlip(Key(x[i].key, cs), Key(y[i].key, cs));
      ComparedStep(f, g, cs);
      ComparedStep(g, f, cs);
      var diff := CompareStrings(x[i].key, y[i].key, cs);
      if diff != 0 {
        return false, l + x[i..], r + y[i..];
      }
      MemberHeight(x, i);
      AlikeSymmetric(x[i].value, y[i].value, cs);
      var a, b;
      identical, a, b := CompareJson(x[i].value, y[i].value, cs);
      var m, n := Member(x[i].key, a), Member(y[i].key, b);
      if !identical {
        return false, l + ([m] + x[i + 1..]), r + ([n] + y[i + 1..]);
      }
      Regroup(l, [m], ComparedMembers(f[1..], g[1..], cs));
      Regroup(r, [n], ComparedMembers(g[1..], f[1..], cs));
      l, r, i := l + [m], r + [n], i + 1;
    }
    ComparedEnd(x[i..], y[i..], cs);
    ComparedEnd(y[i..], x[i..], cs);
    return i == |x| && i == |y|, l + x[i..], r + y[i..];
  }

  lemma {:induction false} ComparedStep(a: seq<Member>, b: seq<Member>, cs: bool)
    requires a != [] && b != []
    ensures var same := Order(Key(a[0].key, cs), Key(b[0].key, cs)) == 0;
            var equal := Alike(a[0].value, b[0].value, cs);
            && AlikeMembers(a, b, cs) == (same && equal && AlikeMembers(a[1..], b[1..], cs))
            && ComparedMembers(a, b, cs)
               == if !same then a
                  else [Member(a[0].key, Compared(a[0].value, b[0].value, cs))]
                       + if equal then ComparedMembers(a[1..], b[1..], cs) else a[1..]
  {
    hide Alike, Compared, Key, Order;
  }

  lemma {:induction false} ComparedEnd(a: seq<Member>, b: seq<Member>, cs: bool)
    requires a == [] || b == []
    ensures AlikeMembers(a, b, cs) == (a == b) && ComparedMembers(a, b, cs) == a
  {
  }

  // Being compared changes nothing that an item means.
  lemma {:induction false} ComparedKeepsMeaning(a: Json, b: Json, cs: bool, mode: bool)
    requires Tidy(a, mode)
    ensures Tidy(Compared(a, b, cs), mode) && Meaning(Compared(a, b, cs), mode) == Meaning(a, mode)
    decreases Height(a), 0, 0
  {
    match (a, b)
    case (Array(x), Array(y)) =>
      ComparedItemsKeepMeaning(x, y, cs, mode);
    case (Object(x), Object(y)) =>
      SortedHeight(x, cs);
      SortKeepsMeaning(x, cs, mode);
      ComparedMembersKeepMeaning(Sort(x, cs), Sort(y, cs), cs, mode);
    case _ =>
  }

  lemma {:induction false} ComparedItemsKeepMeaning(a: seq<Json>, b: seq<Json>, cs: bool, mode: bool)
    requires Tidy(Array(a), mode)
    ensures Tidy(Array(ComparedItems(a, b, cs)), mode)
    ensures Meaning(Array(ComparedItems(a, b, cs)), mode) == Meaning(Array(a), mode)
    decreases ItemsHeight(a), 1, |a|
  {
    if a != [] && b != [] {
      ComparedKeepsMeaning(a[0], b[0], cs, mode);
      if Alike(a[0], b[0], cs) {
        ComparedItemsKeepMeaning(a[1..], b[1..], cs, mode);
      }
      var head := Compared(a[0], b[0], cs);
      var tail := if Alike(a[0], b[0], cs) then ComparedItems(a[1..], b[1..], cs) else a[1..];
      ConsItems(head, tail, mode);
      ConsItems(a[0], a[1..], mode);
      assert a == [a[0]] + a[1..];
    }
  }

  lemma {:induction false} ConsItems(head: Json, tail: seq<Json>, mode: bool)
    ensures Tidy(Array([head] + tail), mode) <==> Tidy(head, mode) && Tidy(Array(tail), mode)
    ensures Meaning(Array([head] + tail), mode).VArray?
    ensures Meaning(Array([head] + tail), mode).items == [Meaning(head, mode)] + Meaning(Array(tail), mode).items
  {
    var all := [head] + tail;
    assert all[0] == head && all[1..] == tail;
    if Tidy(Array(all), mode) {
      forall i | 0 <= i < |tail|
        ensures Tidy(tail[i], mode)
      {
        assert tail[i] == all[i + 1];
      }
    }
  }

  lemma {:induction false} ComparedMembersKeepMeaning(a: seq<Member>, b: seq<Member>, cs: bool, mode: bool)
    requires TidyMembers(a, mode)
    ensures var r := ComparedMembers(a, b, cs);
            && |r| == |a| && (forall i :: 0 <= i < |a| ==> r[i].key == a[i].key)
            && TidyMembers(r, mode) && MembersMeaning(r, mode) == MembersMeaning(a, mode)
    decreases MembersHeight(a), 1, |a|
  {
    hide Compared, Alike, Meaning, Tidy, Order, Key;
    if a != [] && b != [] && Order(Key(a[0].key, cs), Key(b[0].key, cs)) == 0 {
      ComparedKeepsMeaning(a[0].value, b[0].value, cs, mode);
      if Alike(a[0].value, b[0].value, cs) {
        ComparedMembersKeepMeaning(a[1..], b[1..], cs, mode);
      }
      assert forall i :: 0 < i < |a| ==> a[1..][i - 1] == a[i];
      var tail := if Alike(a[0].value, b[0].value, cs) then ComparedMembers(a[1..], b[1..], cs) else a[1..];
      SameKeysTidy(a, Compared(a[0].value, b[0].value, cs), tail, mode);
    }
  }

  // Another value in front, and another tail with the same keys and meaning.
  lemma {:induction false} SameKeysTidy(a: seq<Member>, v: Json, tail: seq<Member>, mode: bool)
    requires a != [] && TidyMembers(a, mode)
    requires Tidy(v, mode) && Meaning(v, mode) == Meaning(a[0].value, mode)
    requires |tail| == |a| - 1 && forall i :: 0 <= i < |tail| ==> tail[i].key == a[i + 1].key
    requires TidyMembers(tail, mode) && MembersMeaning(tail, mode) == MembersMeaning(a[1..], mode)
    ensures var r := [Member(a[0].key, v)] + tail;
            && (forall i :: 0 <= i < |a| ==> r[i].key == a[i].key)
            && TidyMembers(r, mode) && MembersMeaning(r, mode) == MembersMeaning(a, mode)
  {
    var r := [Member(a[0].key, v)] + tail;
    assert forall i :: 0 <= i < |a| ==> r[i].key == a[i].key;
    assert forall i :: 0 < i < |a| ==> r[i] == tail[i - 1];
    assert r[1..] == tail;
  }

  // ----- compare_json decides equality up to member order and key case

  lemma {:induction false} AlikeIsEqualMeaning(a: Json, b: Json)
    requires Tidy(a, false) && Tidy(b, false)
    ensures Alike(a, b, false) <==> Meaning(a, false) == Meaning(b, false)
    decreases Height(a), 0, 0
  {
    match (a, b)
    case (Array(x), Array(y)) =>
      AlikeItemsIsEqualMeaning(x, y);
      var ma, mb := Meaning(a, false).items, Meaning(b, false).items;
      assert forall i :: 0 <= i < |x| ==> ma[i] == Meaning(x[i], false);
      assert forall i :: 0 <= i < |y| ==> mb[i] == Meaning(y[i], false);
      if ma == mb {
        forall i | 0 <= i < |x|
          ensures Meaning(x[i], false) == Meaning(y[i], false)
        {
          assert ma[i] == mb[i];
        }
      }
    case (Object(x), Object(y)) =>
      SortedHeight(x, false);
      SortKeepsMeaning(x, false, false);
      SortKeepsMeaning(y, false, false);
      SortRanks(x);
      SortRanks(y);
      var s, t := Sort(x, false), Sort(y, false);
      AlikeMembersIsPointwise(s, t);
      if MembersMeaning(s, false) == MembersMeaning(t, false) {
        RankedIsCanonical(s, t);
      }
      if Alike(a, b, false) {
        PointwiseMeaning(s, t);
      }
    case _ =>
  }

  lemma {:induction false} AlikeItemsIsEqualMeaning(a: seq<Json>, b: seq<Json>)
    requires forall i :: 0 <= i < |a| ==> Tidy(a[i], false)
    requires forall i :: 0 <= i < |b| ==> Tidy(b[i], false)
    ensures AlikeItems(a, b, false) <==>
            |a| == |b| && forall i :: 0 <= i < |a| ==> Meaning(a[i], false) == Meaning(b[i], false)
    decreases ItemsHeight(a), 1, |a|
  {
    hide Alike, Meaning, Tidy;
    if a != [] && b != [] {
      AlikeIsEqualMeaning(a[0], b[0]);
      AlikeItemsIsEqualMeaning(a[1..], b[1..]);
      assert a == [a[0]] + a[1..] && b == [b[0]] + b[1..];
    }
  }

  lemma {:induction false} AlikeMembersIsPointwise(a: seq<Member>, b: seq<Member>)
    requires TidyMembers(a, false) && TidyMembers(b, false)
    ensures AlikeMembers(a, b, false) <==>
            && |a| == |b|
            && forall i :: 0 <= i < |a| ==>
                 Fold(a[i].key) == Fold(b[i].key) && Meaning(a[i].value, false) == Meaning(b[i].value, false)
    decreases MembersHeight(a), 1, |a|
  {
    hide Alike, Meaning, Order, Fold;
    if a != [] && b != [] {
      OrderZero(Fold(a[0].key), Fold(b[0].key));
      AlikeIsEqualMeaning(a[0].value, b[0].value);
      AlikeMembersIsPointwise(a[1..], b[1..]);
      assert a == [a[0]] + a[1..] && b == [b[0]] + b[1..];
    }
  }

  lemma {:induction false} PointwiseMeaning(a: seq<Member>, b: seq<Member>)
    requires |a| == |b|
    requires forall i :: 0 <= i < |a| ==>
               Fold(a[i].key) == Fold(b[i].key) && Meaning(a[i].value, false) == Meaning(b[i].value, false)
    ensures MembersMeaning(a, false) == MembersMeaning(b, false)
  {
    if a != [] {
      PointwiseMeaning(a[1..], b[1..]);
    }
  }

  // ----- What is left of what has been compared

  ghost predicate AlikeBefore(a: seq<Json>, b: seq<Json>, cs: bool, i: nat)
    requires i <= |a|
  {
    i <= |b| && forall j :: 0 <= j < i ==> Alike(a[j], b[j], cs)
  }

  // Elements up to the first difference have been compared, the others are as they were.
  lemma {:induction false} ComparedItemsAre(a: seq<Json>, b: seq<Json>, cs: bool, i: nat)
    requires i < |a|
    ensures |ComparedItems(a, b, cs)| == |a|
    ensures ComparedItems(a, b, cs)[i]
         == if i < |b| && AlikeBefore(a, b, cs, i) then Compared(a[i], b[i], cs) else a[i]
    decreases i
  {
    hide Alike, Compared;
    ComparedItemsLength(a, b, cs);
    if b != [] && i > 0 {
      ComparedItemsAre(a[1..], b[1..], cs, i - 1);
      AlikeBeforeTail(a, b, cs, i);
    }
  }

  lemma {:induction false} ComparedItemsLength(a: seq<Json>, b: seq<Json>, cs: bool)
    ensures |ComparedItems(a, b, cs)| == |a|
  {
    if a != [] && b != [] {
      ComparedItemsLength(a[1..], b[1..], cs);
    }
  }

  lemma {:induction false} AlikeBeforeTail(a: seq<Json>, b: seq<Json>, cs: bool, i: nat)
    requires 0 < i <= |a| && b != []
    ensures AlikeBefore(a, b, cs, i) <==> Alike(a[0], b[0], cs) && AlikeBefore(a[1..], b[1..], cs, i - 1)
  {
    hide Alike;
    if Alike(a[0], b[0], cs) && AlikeBefore(a[1..], b[1..], cs, i - 1) {
      forall j | 0 <= j < i
        ensures Alike(a[j], b[j], cs)
      {
        assert j > 0 ==> a[j] == a[1..][j - 1] && b[j] == b[1..][j - 1];
      }
    }
    if AlikeBefore(a, b, cs, i) {
      forall j | 0 <= j < i - 1
        ensures Alike(a[1..][j], b[1..][j], cs)
      {
        assert a[1..][j] == a[j + 1] && b[1..][j] == b[j + 1];
      }
    }
  }

  // An object is left with the keys of its sorted members, whatever it was compared with.
  lemma {:induction false} ComparedObjectIsSorted(x: seq<Member>, y: seq<Member>, cs: bool)
    ensures var r := Compared(Object(x), Object(y), cs);
            && r.Object? && |r.members| == |x|
            && forall i :: 0 <= i < |x| ==> r.members[i].key == Sort(x, cs)[i].key
  {
    ComparedKeys(Sort(x, cs), Sort(y, cs), cs);
  }

  lemma {:induction false} ComparedKeys(a: seq<Member>, b: seq<Member>, cs: bool)
    ensures |ComparedMembers(a, b, cs)| == |a|
    ensures forall i :: 0 <= i < |a| ==> ComparedMembers(a, b, cs)[i].key == a[i].key
    decreases |a|
  {
    hide Alike, Compared;
    if a != [] && b != [] {
      ComparedKeys(a[1..], b[1..], cs);
    }
  }

  // If the heads stay, that of the item itself does.
  lemma {:induction false} HeadStays(x: seq<Member>, y: seq<Member>, cs: bool)
    requires x != [] && HeadsStay(Object(x), Object(y), cs)
    ensures var r := Compared(Object(x), Object(y), cs); r.Object? && r.members != [] && r.members[0].key == x[0].key
  {
    ComparedObjectIsSorted(x, y, cs);
  }

  // ----- In either mode only equals compare equal

  lemma {:induction false} AlikeMeansEqual(a: Json, b: Json, cs: bool)
    requires Tidy(a, cs) && Tidy(b, cs) && Alike(a, b, cs)
    ensures Meaning(a, cs) == Meaning(b, cs)
    decreases Height(a), 0, 0
  {
    match (a, b)
    case (Array(x), Array(y)) =>
      AlikeItemsMeanEqual(x, y, cs);
      assert Meaning(a, cs).items == Meaning(b, cs).items;
    case (Object(x), Object(y)) =>
      SortedHeight(x, cs);
      SortKeepsMeaning(x, cs, cs);
      SortKeepsMeaning(y, cs, cs);
      AlikeMembersMeanEqual(Sort(x, cs), Sort(y, cs), cs);
    case _ =>
  }

  lemma {:induction false} AlikeItemsMeanEqual(a: seq<Json>, b: seq<Json>, cs: bool)
    requires Tidy(Array(a), cs) && Tidy(Array(b), cs) && AlikeItems(a, b, cs)
    ensures |a| == |b| && forall i :: 0 <= i < |a| ==> Meaning(a[i], cs) == Meaning(b[i], cs)
    decreases ItemsHeight(a), 1, |a|
  {
    if a != [] && b != [] {
      AlikeMeansEqual(a[0], b[0], cs);
      AlikeItemsMeanEqual(a[1..], b[1..], cs);
      assert a == [a[0]] + a[1..] && b == [b[0]] + b[1..];
    }
  }

  lemma {:induction false} AlikeMembersMeanEqual(a: seq<Member>, b: seq<Member>, cs: bool)
    requires TidyMembers(a, cs) && TidyMembers(b, cs) && AlikeMembers(a, b, cs)
    ensures MembersMeaning(a, cs) == MembersMeaning(b, cs)
    decreases MembersHeight(a), 1, |a|
  {
    if a != [] && b != [] {
      OrderZero(Key(a[0].key, cs), Key(b[0].key, cs));
      AlikeMeansEqual(a[0].value, b[0].value, cs);
      AlikeMembersMeanEqual(a[1..], b[1..], cs);
    }
  }
}
