/**
  When a comparison moves the head of a child list, told on the item before and after.
 */
module Heads {
  import opened CStrings
  import opened Json
  import opened SortMembers
  import opened CompareJson
  import opened Pointers
  import opened ApplyPatch

  // Each object has the head that it had before, at all levels.
  ghost predicate SameHeads(before: Json, after: Json)
    decreases before
  {
    match (before, after)
    case (Array(x), Array(y)) => |x| == |y| && forall i :: 0 <= i < |x| ==> SameHeads(x[i], y[i])
    case (Object(x), Object(y)) =>
      && (x != [] && y != [] ==> x[0].key == y[0].key)
      && forall i, j :: 0 <= i < |x| && 0 <= j < |y| && x[i].key == y[j].key ==> SameHeads(x[i].value, y[j].value)
    case _ => true
  }

  lemma {:induction false} HeadsAsTheyAre(v: Json)
    requires Tidy(v, true)
    ensures SameHeads(v, v)
  {
    match v
    case Array(items) =>
      forall i | 0 <= i < |items|
        ensures SameHeads(items[i], items[i])
      {
        HeadsAsTheyAre(items[i]);
      }
    case Object(ms) =>
      forall i, j | 0 <= i < |ms| && 0 <= j < |ms| && ms[i].key == ms[j].key
        ensures SameHeads(ms[i].value, ms[j].value)
      {
        SameIndexes(ms, i, j);
        HeadsAsTheyAre(ms[i].value);
      }
    case _ =>
  }

  lemma {:induction false} SameIndexes(ms: seq<Member>, i: nat, j: nat)
    requires Distinct(ms, true) && i < |ms| && j < |ms| && ms[i].key == ms[j].key
    ensures i == j
  {
    assert Key(ms[i].key, true) == Key(ms[j].key, true);
  }

  // A comparison moves no head exactly if afterwards each object has the head it had.
  lemma {:induction false} HeadsStayIff(a: Json, b: Json, cs: bool)
    requires Tidy(a, true)
    ensures HeadsStay(a, b, cs) <==> SameHeads(a, Compared(a, b, cs))
    decreases Height(a), 0, 0
  {
    match (a, b)
    case (Array(x), Array(y)) =>
      ItemHeads(x, y, cs);
    case (Object(x), Object(y)) =>
      ObjectStay(x, y, cs);
    case _ =>
      HeadsAsTheyAre(a);
  }

  lemma {:induction false} ObjectStay(x: seq<Member>, y: seq<Member>, cs: bool)
    requires Tidy(Object(x), true)
    ensures HeadsStay(Object(x), Object(y), cs) <==> SameHeads(Object(x), Compared(Object(x), Object(y), cs))
    decreases MembersHeight(x), 2, 0
  {
    hide Sort, SameHeads, ComparedMembers, MemberHeadsStay, KeepsHead, ValuesKeepHeads;
    SortedHeight(x, cs);
    SortKeepsMeaning(x, cs, true);
    var s, t := Sort(x, cs), Sort(y, cs);
    MemberHeads(s, t, cs);
    ComparedKeys(s, t, cs);
    ObjectHeads(x, s, ComparedMembers(s, t, cs), cs);
  }

  lemma {:induction false} ItemHeads(a: seq<Json>, b: seq<Json>, cs: bool)
    requires Tidy(Array(a), true)
    ensures |ComparedItems(a, b, cs)| == |a|
    ensures ItemHeadsStay(a, b, cs) <==> forall i :: 0 <= i < |a| ==> SameHeads(a[i], ComparedItems(a, b, cs)[i])
    decreases ItemsHeight(a), 1, |a|
  {
    hide HeadsStay, Compared, SameHeads, Alike;
    ComparedItemsLength(a, b, cs);
    if a == [] || b == [] {
      AllAsTheyAre(a);
    } else {
      var r, rest := ComparedItems(a, b, cs), ComparedItems(a[1..], b[1..], cs);
      HeadsStayIff(a[0], b[0], cs);
      ItemHeads(a[1..], b[1..], cs);
      AllAsTheyAre(a[1..]);
      var tail := if Alike(a[0], b[0], cs) then rest else a[1..];
      assert r == [Compared(a[0], b[0], cs)] + tail;
      if forall i :: 0 <= i < |a| ==> SameHeads(a[i], r[i]) {
        assert SameHeads(a[0], r[0]);
        forall i | 0 <= i < |tail|
          ensures SameHeads(a[1..][i], tail[i])
        {
          assert SameHeads(a[i + 1], r[i + 1]);
        }
      }
      if SameHeads(a[0], r[0]) && forall i :: 0 <= i < |tail| ==> SameHeads(a[1..][i], tail[i]) {
        forall i | 0 <= i < |a|
          ensures SameHeads(a[i], r[i])
        {
          assert i > 0 ==> a[i] == a[1..][i - 1] && r[i] == tail[i - 1];
        }
      }
    }
  }

  lemma {:induction false} AllAsTheyAre(a: seq<Json>)
    requires Tidy(Array(a), true)
    ensures forall i :: 0 <= i < |a| ==> SameHeads(a[i], a[i])
  {
    forall i | 0 <= i < |a|
      ensures SameHeads(a[i], a[i])
    {
      HeadsAsTheyAre(a[i]);
    }
  }

  // The values, member by member.
  ghost predicate ValuesKeepHeads(a: seq<Member>, r: seq<Member>) {
    |a| == |r| && forall i :: 0 <= i < |a| ==> SameHeads(a[i].value, r[i].value)
  }

  lemma {:induction false} ValuesAsTheyAre(a: seq<Member>)
    requires TidyMembers(a, true)
    ensures ValuesKeepHeads(a, a)
  {
    forall i | 0 <= i < |a|
      ensures SameHeads(a[i].value, a[i].value)
    {
      HeadsAsTheyAre(a[i].value);
    }
  }

  lemma {:induction false} ValuesFrom(a: seq<Member>, r: seq<Member>)
    requires a != [] && r != []
    ensures ValuesKeepHeads(a, r) <==> SameHeads(a[0].value, r[0].value) && ValuesKeepHeads(a[1..], r[1..])
  {
    hide SameHeads;
    if SameHeads(a[0].value, r[0].value) && ValuesKeepHeads(a[1..], r[1..]) {
      forall i | 0 <= i < |a|
        ensures SameHeads(a[i].value, r[i].value)
      {
        assert i > 0 ==> a[i] == a[1..][i - 1] && r[i] == r[1..][i - 1];
      }
    }
    if ValuesKeepHeads(a, r) {
      forall i | 0 <= i < |a| - 1
        ensures SameHeads(a[1..][i].value, r[1..][i].value)
      {
        assert a[1..][i] == a[i + 1] && r[1..][i] == r[i + 1];
      }
    }
  }

  lemma {:induction false} MemberHeads(a: seq<Member>, b: seq<Member>, cs: bool)
    requires TidyMembers(a, true)
    ensures MemberHeadsStay(a, b, cs) <==> ValuesKeepHeads(a, ComparedMembers(a, b, cs))
    decreases MembersHeight(a), 1, |a|
  {
    hide HeadsStay, Compared, SameHeads, Alike, ValuesKeepHeads, Order, Key;
    ValuesAsTheyAre(a);
    if a != [] && b != [] && Order(Key(a[0].key, cs), Key(b[0].key, cs)) == 0 {
      var r := ComparedMembers(a, b, cs);
      TidyTail(a);
      HeadsStayIff(a[0].value, b[0].value, cs);
      MemberHeads(a[1..], b[1..], cs);
      ValuesAsTheyAre(a[1..]);
      ValuesFrom(a, r);
      assert r[1..] == if Alike(a[0].value, b[0].value, cs) then ComparedMembers(a[1..], b[1..], cs) else a[1..];
    }
  }

  lemma {:induction false} TidyTail(a: seq<Member>)
    requires TidyMembers(a, true) && a != []
    ensures TidyMembers(a[1..], true) && Tidy(a[0].value, true)
  {
  }

  // The object as a whole, from its members before, sorted, and compared.
  lemma {:induction false} ObjectHeads(x: seq<Member>, s: seq<Member>, r: seq<Member>, cs: bool)
    requires TidyMembers(x, true) && s == Sort(x, cs)
    requires |r| == |s| && forall i :: 0 <= i < |s| ==> r[i].key == s[i].key
    ensures KeepsHead(x, cs) && ValuesKeepHeads(s, r) <==> SameHeads(Object(x), Object(r))
  {
    hide Sort, SameHeads, Tidy;
    SortPermutes(x, cs);
    HeadByKey(x, cs);
    ObjectHeadsAre(x, r);
    if ValuesKeepHeads(s, r) {
      forall i, j | 0 <= i < |x| && 0 <= j < |r| && x[i].key == r[j].key
        ensures SameHeads(x[i].value, r[j].value)
      {
        SameMember(x, s, i, j);
      }
    }
    if forall i, j :: 0 <= i < |x| && 0 <= j < |r| && x[i].key == r[j].key ==> SameHeads(x[i].value, r[j].value) {
      forall j | 0 <= j < |s|
        ensures SameHeads(s[j].value, r[j].value)
      {
        assert s[j] in multiset(x);
        var i :| 0 <= i < |x| && x[i] == s[j];
      }
    }
  }

  lemma {:induction false} ObjectHeadsAre(x: seq<Member>, r: seq<Member>)
    ensures SameHeads(Object(x), Object(r))
       <==> (&& (x != [] && r != [] ==> x[0].key == r[0].key)
             && forall i, j :: 0 <= i < |x| && 0 <= j < |r| && x[i].key == r[j].key ==>
                                 SameHeads(x[i].value, r[j].value))
  {
  }

  lemma {:induction false} SameMember(x: seq<Member>, s: seq<Member>, i: nat, j: nat)
    requires Distinct(x, true) && multiset(s) == multiset(x) && i < |x| && j < |s| && x[i].key == s[j].key
    ensures x[i] == s[j]
  {
    assert s[j] in multiset(x);
    var k :| 0 <= k < |x| && x[k] == s[j];
    SameIndexes(x, i, k);
  }

  lemma {:induction false} HeadByKey(x: seq<Member>, cs: bool)
    requires Distinct(x, true)
    ensures KeepsHead(x, cs) <==> (x != [] ==> Sort(x, cs)[0].key == x[0].key)
  {
    hide Sort;
    if x != [] {
      var s := Sort(x, cs);
      SortPermutes(x, cs);
      if s[0].key == x[0].key {
        SameMember(x, s, 0, 0);
        forall i | 0 <= i < |x[1..]|
          ensures x[1..][i] != x[0]
        {
          assert x[1..][i] == x[i + 1];
          assert Key(x[0].key, true) != Key(x[i + 1].key, true);
        }
      }
    }
  }

  // ----- Patches

  // A patch moves a head exactly if it is a test after which some object of what it has
  // compared has another head.
  lemma {:induction false} HeadsKeptIff(doc: Json, patch: Json, cs: bool)
    requires Tidy(doc, true)
    ensures HeadsKept(doc, patch, cs)
       <==> match (Field(patch, "op", cs), Field(patch, "path", cs), Field(patch, "value", cs))
            case (Some(String(op)), Some(String(path)), Some(x)) =>
              op == "test" ==>
                (match Resolve(doc, path, cs)
                 case None => true
                 case Some(pos) => SameHeads(At(doc, pos), Compared(At(doc, pos), x, cs)))
            case _ => true
  {
    hide Field, SameHeads, HeadsStay, Compared, Resolve, Tidy;
    var path, value := Field(patch, "path", cs), Field(patch, "value", cs);
    if path.Some? && path.value.String? && value.Some? {
      var pos := Resolve(doc, path.value.text, cs);
      if pos.Some? {
        TidyAt(doc, pos.value);
        HeadsStayIff(At(doc, pos.value), value.value, cs);
      }
    }
  }

  lemma {:induction false} TidyAt(v: Json, pos: Position)
    requires Tidy(v, true) && Valid(v, pos)
    ensures Tidy(At(v, pos), true)
  {
    if pos != [] {
      TidyAt(Child(v, pos[0]), pos[1..]);
    }
  }

  // The patch at an index keeps the heads, if the run comes past it.
  ghost predicate StepKept(doc: Json, patches: seq<Json>, i: nat, cs: bool)
    requires i < |patches| && forall k :: 0 <= k < |patches| ==> Readable(patches[k], cs)
  {
    AppliedAll(doc, patches[..i + 1], cs).status == 0 ==>
      HeadsKept(AppliedAll(doc, patches[..i], cs).doc, patches[i], cs)
  }

  // A run keeps the heads exactly if no patch that it comes past, but perhaps the last
  // one, moves one.
  lemma {:induction false} RunKeepsHeadsIff(doc: Json, patches: seq<Json>, cs: bool)
    requires forall i :: 0 <= i < |patches| ==> Readable(patches[i], cs)
    ensures RunKeepsHeads(doc, patches, cs) <==> forall i :: 0 <= i < |patches| - 1 ==> StepKept(doc, patches, i, cs)
    decreases |patches|
  {
    hide Applied, HeadsKept, Readable, StepKept, AppliedAll;
    if |patches| > 1 {
      var first, rest := Applied(doc, patches[0], cs), patches[1..];
      FirstStep(doc, patches, cs);
      if first.status == 0 {
        RunKeepsHeadsIff(first.doc, rest, cs);
        forall i | 0 <= i < |rest| - 1
          ensures StepKept(doc, patches, i + 1, cs) <==> StepKept(first.doc, rest, i, cs)
        {
          LaterStep(doc, patches, i, cs);
        }
        if RunKeepsHeads(doc, patches, cs) {
          forall i | 0 <= i < |patches| - 1
            ensures StepKept(doc, patches, i, cs)
          {
            assert i > 0 ==> StepKept(first.doc, rest, i - 1, cs);
          }
        }
        if forall i :: 0 <= i < |patches| - 1 ==> StepKept(doc, patches, i, cs) {
          forall i | 0 <= i < |rest| - 1
            ensures StepKept(first.doc, rest, i, cs)
          {
            assert StepKept(doc, patches, i + 1, cs);
          }
        }
      } else {
        forall i | 0 <= i < |patches| - 1
          ensures StepKept(doc, patches, i, cs)
        {
          StopsAtOnce(doc, patches, i, cs);
        }
      }
    }
  }

  lemma {:induction false} FirstStep(doc: Json, patches: seq<Json>, cs: bool)
    requires patches != [] && forall k :: 0 <= k < |patches| ==> Readable(patches[k], cs)
    ensures StepKept(doc, patches, 0, cs)
       <==> (Applied(doc, patches[0], cs).status == 0 ==> HeadsKept(doc, patches[0], cs))
  {
    hide Applied, HeadsKept, Readable;
    assert patches[..0 + 1][0] == patches[0] && patches[..0 + 1][1..] == [] && patches[..0] == [];
    assert AppliedAll(doc, patches[..0 + 1], cs).status == Applied(doc, patches[0], cs).status;
  }

  lemma {:induction false} LaterStep(doc: Json, patches: seq<Json>, i: nat, cs: bool)
    requires i + 1 < |patches| && forall k :: 0 <= k < |patches| ==> Readable(patches[k], cs)
    requires Applied(doc, patches[0], cs).status == 0
    ensures StepKept(doc, patches, i + 1, cs) <==> StepKept(Applied(doc, patches[0], cs).doc, patches[1..], i, cs)
  {
    hide Applied, HeadsKept, Readable;
    assert patches[..i + 2][1..] == patches[1..][..i + 1];
    assert patches[..i + 1][1..] == patches[1..][..i];
  }

  lemma {:induction false} StopsAtOnce(doc: Json, patches: seq<Json>, i: nat, cs: bool)
    requires i < |patches| && forall k :: 0 <= k < |patches| ==> Readable(patches[k], cs)
    requires Applied(doc, patches[0], cs).status != 0
    ensures StepKept(doc, patches, i, cs)
  {
    hide Applied, HeadsKept, Readable;
  }
}
