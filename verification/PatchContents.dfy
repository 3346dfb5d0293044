/**
  What the generator of patches puts into the list, level by level, in both case modes.
 */
module PatchContents {
  import opened CStrings
  import opened Json
  import opened SortMembers
  import opened Pointers
  import opened PointerSearch
  import opened PatchDiff

  // Each key comes before the next in the order of the mode.
  ghost predicate Ranks(ms: seq<Member>, cs: bool) {
    forall i, j :: 0 <= i < j < |ms| ==> Order(Key(ms[i].key, cs), Key(ms[j].key, cs)) < 0
  }

  ghost predicate Lacks(ms: seq<Member>, key: string, cs: bool) {
    forall m :: m in ms ==> Key(m.key, cs) != Key(key, cs)
  }

  // A patch for two members of one name,
  ghost predicate OfBoth(path: string, from: seq<Member>, to: seq<Member>, cs: bool, p: Json)
    requires SlashFreeMembers(from) && SlashFreeMembers(to)
  {
    exists m, n :: m in from && n in to && Key(m.key, cs) == Key(n.key, cs)
                   && p in Diff(path + "/" + Encoded(m.key), m.value, n.value, cs)
  }

  // for a member that has gone,
  ghost predicate OfFirst(path: string, from: seq<Member>, to: seq<Member>, cs: bool, p: Json)
    requires SlashFreeMembers(from) && SlashFreeMembers(to)
  {
    exists m :: m in from && Lacks(to, m.key, cs) && p == Patch("remove", path + "/" + Encoded(m.key), None)
  }

  // and for one that is new.
  ghost predicate OfSecond(path: string, from: seq<Member>, to: seq<Member>, cs: bool, p: Json)
    requires SlashFreeMembers(from) && SlashFreeMembers(to)
  {
    exists n :: n in to && Lacks(from, n.key, cs) && p == Patch("add", path + "/" + Encoded(n.key), Some(n.value))
  }

  ghost predicate OfMembers(path: string, from: seq<Member>, to: seq<Member>, cs: bool, p: Json)
    requires SlashFreeMembers(from) && SlashFreeMembers(to)
  {
    OfBoth(path, from, to, cs, p) || OfFirst(path, from, to, cs, p) || OfSecond(path, from, to, cs, p)
  }

  // The list for two objects holds exactly the patches between members of one name, a
  // removal for each name that only the first has and an addition for each that only the
  // second has.
  lemma {:induction false} ObjectPatches(path: string, x: seq<Member>, y: seq<Member>, cs: bool, p: Json)
    requires SlashFreeMembers(x) && SlashFreeMembers(y)
    requires Ranks(Sort(x, cs), cs) && Ranks(Sort(y, cs), cs)
    ensures p in Diff(path, Object(x), Object(y), cs) <==> OfMembers(path, x, y, cs, p)
  {
    hide Sort, Ranks, OfMembers, DiffMembers;
    SortedSlashFree(x, cs);
    SortedSlashFree(y, cs);
    MemberPatches(path, Sort(x, cs), Sort(y, cs), cs, p);
    SortPermutes(x, cs);
    SortPermutes(y, cs);
    SameContents(path, x, y, Sort(x, cs), Sort(y, cs), cs, p);
  }

  lemma {:induction false} FoldedRanks(x: seq<Member>)
    requires Distinct(x, false)
    ensures Ranks(Sort(x, false), false)
  {
    SortRanks(x);
  }

  lemma {:induction false} SameContents(path: string, x: seq<Member>, y: seq<Member>, s: seq<Member>, t: seq<Member>,
                                        cs: bool, p: Json)
    requires SlashFreeMembers(x) && SlashFreeMembers(y) && SlashFreeMembers(s) && SlashFreeMembers(t)
    requires multiset(x) == multiset(s) && multiset(y) == multiset(t)
    ensures OfMembers(path, x, y, cs, p) <==> OfMembers(path, s, t, cs, p)
  {
    hide Diff, Patch, Key, Encoded, Lacks, SlashFreeMembers;
    SameMembers(x, s, cs);
    SameMembers(y, t, cs);
  }

  lemma {:induction false} SameMembers(x: seq<Member>, s: seq<Member>, cs: bool)
    requires multiset(x) == multiset(s)
    ensures forall m :: m in x <==> m in s
    ensures forall key :: Lacks(x, key, cs) <==> Lacks(s, key, cs)
  {
    hide Key;
    assert forall m :: m in x <==> m in multiset(x);
    assert forall m :: m in s <==> m in multiset(s);
  }

  lemma {:induction false} MemberPatches(path: string, from: seq<Member>, to: seq<Member>, cs: bool, p: Json)
    requires SlashFreeMembers(from) && SlashFreeMembers(to) && Ranks(from, cs) && Ranks(to, cs)
    ensures p in DiffMembers(path, from, to, cs) <==> OfMembers(path, from, to, cs, p)
    decreases |from| + |to|
  {
    hide Diff, Patch, Key, Encoded, Order, OfMembers, Ranks;
    if from == [] && to == [] {
      NothingToPatch(path, cs, p);
    } else {
      SlashFreeTail(from);
      SlashFreeTail(to);
      var diff := MergeOrder(from, to, cs);
      if diff <= 0 {
        RanksTail(from, cs);
      }
      if diff >= 0 {
        RanksTail(to, cs);
      }
      if diff == 0 {
        MemberPatches(path, from[1..], to[1..], cs, p);
        BothAdvance(path, from, to, cs, p);
      } else if diff < 0 {
        MemberPatches(path, from[1..], to, cs, p);
        FirstAdvances(path, from, to, cs, p);
      } else {
        MemberPatches(path, from, to[1..], cs, p);
        SecondAdvances(path, from, to, cs, p);
      }
    }
  }

  lemma {:induction false} NothingToPatch(path: string, cs: bool, p: Json)
    ensures !OfMembers(path, [], [], cs, p)
  {
  }

  lemma {:induction false} RanksTail(ms: seq<Member>, cs: bool)
    requires Ranks(ms, cs) && ms != []
    ensures Ranks(ms[1..], cs) && Lacks(ms[1..], ms[0].key, cs)
  {
    forall m | m in ms[1..]
      ensures Key(m.key, cs) != Key(ms[0].key, cs)
    {
      var i :| 0 <= i < |ms[1..]| && ms[1..][i] == m;
      assert m == ms[i + 1];
      OrderZero(Key(ms[0].key, cs), Key(m.key, cs));
    }
  }

  // What comes before the head of a ranked list is not in it.
  lemma {:induction false} BeforeHead(key: string, ms: seq<Member>, cs: bool)
    requires Ranks(ms, cs)
    requires ms != [] ==> Order(Key(key, cs), Key(ms[0].key, cs)) < 0
    ensures Lacks(ms, key, cs)
  {
    forall m | m in ms
      ensures Key(m.key, cs) != Key(key, cs)
    {
      var i :| 0 <= i < |ms| && ms[i] == m;
      OrderZero(Key(key, cs), Key(ms[0].key, cs));
      OrderFlip(Key(key, cs), Key(ms[0].key, cs));
    }
  }

  lemma {:induction false} BothAdvance(path: string, from: seq<Member>, to: seq<Member>, cs: bool, p: Json)
    requires SlashFreeMembers(from) && SlashFreeMembers(to) && from != [] && to != []
    requires SlashFreeMembers(from[1..]) && SlashFreeMembers(to[1..])
    requires Order(Key(from[0].key, cs), Key(to[0].key, cs)) == 0
    requires Lacks(from[1..], from[0].key, cs) && Lacks(to[1..], to[0].key, cs)
    ensures OfMembers(path, from, to, cs, p)
       <==> p in Diff(PathTo(path, from[0].key), from[0].value, to[0].value, cs)
            || OfMembers(path, from[1..], to[1..], cs, p)
  {
    hide Diff, Patch, Key, Encoded, Order, OfFirst, OfSecond;
    OrderZero(Key(from[0].key, cs), Key(to[0].key, cs));
    Uncons(from);
    Uncons(to);
    BothLeave(path, from, to, cs, p);
  }

  lemma {:induction false} BothLeave(path: string, from: seq<Member>, to: seq<Member>, cs: bool, p: Json)
    requires SlashFreeMembers(from) && SlashFreeMembers(to) && from != [] && to != []
    requires SlashFreeMembers(from[1..]) && SlashFreeMembers(to[1..])
    requires Key(from[0].key, cs) == Key(to[0].key, cs)
    requires Lacks(from[1..], from[0].key, cs) && Lacks(to[1..], to[0].key, cs)
    ensures OfFirst(path, from, to, cs, p) <==> OfFirst(path, from[1..], to[1..], cs, p)
    ensures OfSecond(path, from, to, cs, p) <==> OfSecond(path, from[1..], to[1..], cs, p)
  {
    hide Diff, Patch, Key, Encoded, SlashFreeMembers;
    Uncons(from);
    Uncons(to);
  }

  lemma {:induction false} Uncons(ms: seq<Member>)
    requires ms != []
    ensures forall m :: m in ms <==> m == ms[0] || m in ms[1..]
  {
    assert ms == [ms[0]] + ms[1..];
  }

  lemma {:induction false} FirstAdvances(path: string, from: seq<Member>, to: seq<Member>, cs: bool, p: Json)
    requires SlashFreeMembers(from) && SlashFreeMembers(to) && from != []
    requires SlashFreeMembers(from[1..])
    requires Ranks(to, cs) && MergeOrder(from, to, cs) < 0
    ensures OfMembers(path, from, to, cs, p)
       <==> p == Patch("remove", PathTo(path, from[0].key), None) || OfMembers(path, from[1..], to, cs, p)
  {
    hide Diff, Patch, Key, Encoded, Order, Ranks, OfSecond, OfBoth;
    BeforeHead(from[0].key, to, cs);
    Uncons(from);
    FirstLeaves(path, from, to, cs, p);
  }

  lemma {:induction false} FirstLeaves(path: string, from: seq<Member>, to: seq<Member>, cs: bool, p: Json)
    requires SlashFreeMembers(from) && SlashFreeMembers(to) && from != [] && SlashFreeMembers(from[1..])
    requires Lacks(to, from[0].key, cs)
    ensures OfSecond(path, from, to, cs, p) <==> OfSecond(path, from[1..], to, cs, p)
    ensures OfBoth(path, from, to, cs, p) <==> OfBoth(path, from[1..], to, cs, p)
  {
    hide Diff, Patch, Key, Encoded;
    Uncons(from);
  }

  lemma {:induction false} SecondAdvances(path: string, from: seq<Member>, to: seq<Member>, cs: bool, p: Json)
    requires SlashFreeMembers(from) && SlashFreeMembers(to) && to != []
    requires SlashFreeMembers(to[1..])
    requires Ranks(from, cs) && MergeOrder(from, to, cs) > 0
    ensures OfMembers(path, from, to, cs, p)
       <==> p == Patch("add", PathTo(path, to[0].key), Some(to[0].value)) || OfMembers(path, from, to[1..], cs, p)
  {
    hide Diff, Patch, Key, Encoded, Order, Ranks, OfFirst, OfBoth;
    if from != [] {
      OrderFlip(Key(from[0].key, cs), Key(to[0].key, cs));
    }
    BeforeHead(to[0].key, from, cs);
    Uncons(to);
    SecondLeaves(path, from, to, cs, p);
  }

  lemma {:induction false} SecondLeaves(path: string, from: seq<Member>, to: seq<Member>, cs: bool, p: Json)
    requires SlashFreeMembers(from) && SlashFreeMembers(to) && to != [] && SlashFreeMembers(to[1..])
    requires Lacks(from, to[0].key, cs)
    ensures OfFirst(path, from, to, cs, p) <==> OfFirst(path, from, to[1..], cs, p)
    ensures OfBoth(path, from, to, cs, p) <==> OfBoth(path, from, to[1..], cs, p)
  {
    hide Diff, Patch, Key, Encoded;
    Uncons(to);
  }

  // ----- Arrays

  ghost predicate OfItems(path: string, index: nat, from: seq<Json>, to: seq<Json>, cs: bool, p: Json)
    requires forall i :: 0 <= i < |from| ==> SlashFree(from[i])
    requires forall i :: 0 <= i < |to| ==> SlashFree(to[i])
  {
    || (exists i :: 0 <= i < |from| && i < |to| && p in Diff(path + "/" + Decimal(index + i), from[i], to[i], cs))
    || (|from| > |to| && p == Patch("remove", path + "/" + Decimal(index + |to|), None))
    || (exists i :: |from| <= i < |to| && p == Patch("add", path + "/-", Some(to[i])))
  }

  // The list for two arrays holds exactly the patches between elements of one index, a
  // removal at the length of the second array if the first is longer, and an addition at
  // the end for each element that is new.
  lemma {:induction false} ArrayPatches(path: string, x: seq<Json>, y: seq<Json>, cs: bool, p: Json)
    requires SlashFree(Array(x)) && SlashFree(Array(y))
    ensures p in Diff(path, Array(x), Array(y), cs) <==> OfItems(path, 0, x, y, cs, p)
  {
    hide DiffItems, OfItems;
    ItemPatches(path, 0, x, y, cs, p);
  }

  lemma {:induction false} ItemPatches(path: string, index: nat, from: seq<Json>, to: seq<Json>, cs: bool, p: Json)
    requires forall i :: 0 <= i < |from| ==> SlashFree(from[i])
    requires forall i :: 0 <= i < |to| ==> SlashFree(to[i])
    ensures p in DiffItems(path, index, from, to, cs) <==> OfItems(path, index, from, to, cs, p)
    decreases |from| + |to|
  {
    hide Diff, Patch, Decimal, SlashFree, Encoded;
    if from != [] && to != [] {
      ItemPatches(path, index + 1, from[1..], to[1..], cs, p);
      ItemsAdvance(path, index, from, to, cs, p);
    } else if from != [] {
      ItemPatches(path, index, from[1..], to, cs, p);
      DigitsSlashFree(index);
    } else if to != [] {
      ItemPatches(path, index, from, to[1..], cs, p);
      ItemAppended(path, index, to, cs, p);
    }
  }

  lemma {:induction false} ItemsAdvance(path: string, index: nat, from: seq<Json>, to: seq<Json>, cs: bool, p: Json)
    requires from != [] && to != []
    requires forall i :: 0 <= i < |from| ==> SlashFree(from[i])
    requires forall i :: 0 <= i < |to| ==> SlashFree(to[i])
    ensures OfItems(path, index, from, to, cs, p)
       <==> p in Diff(path + "/" + Decimal(index), from[0], to[0], cs)
            || OfItems(path, index + 1, from[1..], to[1..], cs, p)
  {
    hide Diff, Patch, Decimal, SlashFree, Encoded;
    if OfItems(path, index, from, to, cs, p) {
      if i :| 0 <= i < |from| && i < |to| && p in Diff(path + "/" + Decimal(index + i), from[i], to[i], cs) {
        assert i > 0 ==> p in Diff(path + "/" + Decimal(index + 1 + (i - 1)), from[1..][i - 1], to[1..][i - 1], cs);
      }
      if i :| |from| <= i < |to| && p == Patch("add", path + "/-", Some(to[i])) {
        assert to[i] == to[1..][i - 1];
      }
    }
    if OfItems(path, index + 1, from[1..], to[1..], cs, p) {
      if i :| 0 <= i < |from[1..]| && i < |to[1..]|
              && p in Diff(path + "/" + Decimal(index + 1 + i), from[1..][i], to[1..][i], cs) {
        assert p in Diff(path + "/" + Decimal(index + (i + 1)), from[i + 1], to[i + 1], cs);
      }
      if i :| |from[1..]| <= i < |to[1..]| && p == Patch("add", path + "/-", Some(to[1..][i])) {
        assert to[i + 1] == to[1..][i];
      }
    }
  }

  lemma {:induction false} ItemAppended(path: string, index: nat, to: seq<Json>, cs: bool, p: Json)
    requires to != [] && forall i :: 0 <= i < |to| ==> SlashFree(to[i])
    ensures OfItems(path, index, [], to, cs, p)
       <==> p == Patch("add", PathTo(path, "-"), Some(to[0])) || OfItems(path, index, [], to[1..], cs, p)
  {
    hide Diff, Patch, Decimal, SlashFree, Encoded;
    assert PathTo(path, "-") == path + "/-" by {
      PlainEncoded("-");
    }
    if OfItems(path, index, [], to, cs, p) {
      var i :| 0 <= i < |to| && p == Patch("add", path + "/-", Some(to[i]));
      assert i > 0 ==> to[i] == to[1..][i - 1];
    }
    if OfItems(path, index, [], to[1..], cs, p) {
      var i :| 0 <= i < |to[1..]| && p == Patch("add", path + "/-", Some(to[1..][i]));
      assert to[1..][i] == to[i + 1];
    }
  }
}
