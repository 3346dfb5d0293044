/**
  sort_list as it runs: a merge sort that relinks the nodes of a chain. It refines the
  function Sort on the members that the nodes hold. The pointer to the predecessor is
  right afterwards in every node but the head, which keeps its old one.
 */
module SortList {
  import opened CStrings
  import opened Json
  import opened SortMembers
  import opened ItemList

  ghost function Members(s: seq<Item>): (ms: seq<Member>)
    ensures |ms| == |s| && forall i :: 0 <= i < |s| ==> ms[i] == s[i].member
  {
    seq(|s|, i requires 0 <= i < |s| => s[i].member)
  }

  ghost predicate Apart(a: seq<Item>, b: seq<Item>) {
    forall i, j :: 0 <= i < |a| && 0 <= j < |b| ==> a[i] != b[j]
  }

  // ----- The test for a sorted list

  method IsSorted(list: Item, cs: bool, ghost nodes: seq<Item>) returns (sorted: bool)
    requires Chain(nodes) && nodes != [] && list == nodes[0]
    ensures sorted <==> StrictlyAscending(Members(nodes), cs)
  {
    var current := list;
    ghost var k := 0;
    while current.next != null
      invariant 0 <= k < |nodes| && current == nodes[k] && current.next == NodeAt(nodes, k + 1)
      invariant forall i :: 0 <= i < k ==> Order(Key(nodes[i].member.key, cs), Key(nodes[i + 1].member.key, cs)) < 0
      decreases |nodes| - k
    {
      var diff := CompareStrings(current.member.key, current.next.member.key, cs);
      if diff >= 0 {
        assert Order(Key(Members(nodes)[k].key, cs), Key(Members(nodes)[k + 1].key, cs)) >= 0;
        return false;
      }
      current, k := current.next, k + 1;
    }
    sorted := true;
  }

  // ----- Halving

  // Two pointers, one twice as fast: the slow one ends in the middle.
  method FindMiddle(list: Item, ghost nodes: seq<Item>) returns (second: Item)
    requires Chain(nodes) && |nodes| > 1 && list == nodes[0]
    ensures second == nodes[Middle(|nodes|)]
  {
    var slow: Item?, fast: Item? := list, list;
    ghost var k, j := 0, 0;
    while fast != null
      invariant k <= j <= |nodes| && slow == NodeAt(nodes, k) && fast == NodeAt(nodes, j)
      invariant if j < |nodes| then j == 2 * k else k == Middle(|nodes|)
      decreases |nodes| - j
    {
      assert k + 1 < |nodes| ==> slow.next == nodes[k + 1];
      assert j + 1 < |nodes| ==> fast.next == nodes[j + 1];
      slow, k := slow.next, k + 1;
      fast, j := fast.next, j + 1;
      if fast != null {
        assert j + 1 < |nodes| ==> fast.next == nodes[j + 1];
        fast, j := fast.next, j + 1;
      }
    }
    second := slow;
  }

  // Two lists that make up a chain, without saying where they were cut.
  ghost predicate Halves(nodes: seq<Item>, l: seq<Item>, r: seq<Item>) {
    && nodes == l + r && l != [] && r != [] && Apart(l, r)
    && (forall i :: 0 <= i < |l| ==> l[i] in nodes)
    && (forall i :: 0 <= i < |r| ==> r[i] in nodes)
  }

  lemma {:induction false} Cut(nodes: seq<Item>, m: nat) returns (l: seq<Item>, r: seq<Item>)
    requires Linked(nodes) && 0 < m < |nodes|
    ensures Halves(nodes, l, r) && r[0] == nodes[m] && l[0] == nodes[0]
    ensures Members(l) == Members(nodes)[..m] && Members(r) == Members(nodes)[m..]
    ensures multiset(l) + multiset(r) == multiset(nodes)
  {
    l, r := nodes[..m], nodes[m..];
    assert nodes == l + r;
    MembersCut(nodes, m);
  }

  // The list is cut in front of the second half.
  method Split(second: Item, ghost nodes: seq<Item>, ghost l: seq<Item>, ghost r: seq<Item>)
    requires Chain(nodes) && Halves(nodes, l, r) && second == r[0]
    modifies nodes
    ensures Chain(l) && Chain(r)
    ensures forall i :: 0 <= i < |l| ==> l[i].prev == old(l[i].prev)
    ensures forall i :: 0 <= i < |r| ==> r[i].prev == old(r[i].prev)
  {
    assert nodes[|l| - 1] == l[|l| - 1] && nodes[|l|] == r[0];
    assert nodes[|l| - 1].next == second && second.prev == nodes[|l| - 1];
    assert forall i :: 0 <= i < |l| ==> nodes[i] == l[i];
    assert forall i :: 0 <= i < |r| ==> nodes[|l| + i] == r[i];
    second.prev.next := null;
  }

  // ----- Merging

  // done is the merged list so far, first and second what is left of both halves.
  ghost predicate Merging(done: seq<Item>, a: seq<Item>, b: seq<Item>)
    reads done, a, b
  {
    Linked(done) && Chain(a) && Chain(b) && Apart(done, a) && Apart(done, b) && Apart(a, b)
  }

  // The tail of the merged list gets the head of one of the others as successor.
  method Append(tail: Item?, smaller: Item, ghost done: seq<Item>, ghost a: seq<Item>, ghost b: seq<Item>)
    requires Merging(done, a, b) && a != [] && smaller == a[0]
    requires tail == if done == [] then null else done[|done| - 1]
    modifies done, smaller`prev
    ensures Merging(done + [smaller], a[1..], b)
    ensures smaller.next == Head(a[1..])
    ensures forall x :: x in done && x != tail ==> x.next == old(x.next)
    ensures forall x :: x in done ==> x.prev == old(x.prev)
    ensures done == [] ==> smaller.prev == old(smaller.prev)
  {
    assert a == [smaller] + a[1..] && forall x :: x in a[1..] ==> x in a;
    assert smaller in a && smaller !in b && smaller !in done;
    assert |a| > 1 ==> smaller.next == a[1];
    if tail != null {
      assert tail in done && tail !in b;
      tail.next := smaller;
      smaller.prev := tail;
    }
    ghost var now := done + [smaller];
    assert forall x :: x in now ==> x in done || x == smaller;
  }

  // The rest of one list goes behind the merged one.
  method AppendRest(tail: Item, rest: Item, ghost done: seq<Item>, ghost a: seq<Item>)
    requires Merging(done, a, []) && done != [] && tail == done[|done| - 1] && a != [] && rest == a[0]
    modifies tail`next, rest`prev
    ensures Chain(done + a) && done[0].prev == old(done[0].prev)
  {
    assert tail in done && rest in a && tail !in a && rest !in done;
    tail.next := rest;
    rest.prev := tail;
    ghost var now := done + a;
    assert forall i :: 0 <= i < |now| ==> now[i] == if i < |done| then done[i] else a[i - |done|];
    assert forall x :: x in done ==> x !in a;
    forall i, j | 0 <= i < j < |now|
      ensures now[i] != now[j]
    {
      assert i < |done| ==> done[i] in done;
      assert j >= |done| ==> a[j - |done|] in a;
    }
  }

  // Of the two lists that are left one is empty.
  method AppendRests(
    first: Item?, second: Item?, tail: Item, ghost done: seq<Item>, ghost a: seq<Item>, ghost b: seq<Item>)
    requires Merging(done, a, b) && done != [] && tail == done[|done| - 1]
    requires (a == []) != (b == []) && first == Head(a) && second == Head(b)
    modifies done, a, b
    ensures Chain(done + if a != [] then a else b) && done[0].prev == old(done[0].prev)
  {
    if first != null {
      AppendRest(tail, first, done, a);
    }
    if second != null {
      AppendRest(tail, second, done, b);
    }
  }

  lemma {:induction false} MembersCut(s: seq<Item>, k: nat)
    requires k <= |s|
    ensures Members(s[..k]) == Members(s)[..k] && Members(s[k..]) == Members(s)[k..]
  {
  }

  lemma {:induction false} MembersJoin(a: seq<Item>, b: seq<Item>)
    ensures Members(a + b) == Members(a) + Members(b)
  {
  }

  // The nodes of both lists, none lost and none twice.
  ghost predicate SameNodes(done: seq<Item>, a: seq<Item>, b: seq<Item>, a0: seq<Item>, b0: seq<Item>) {
    multiset(done) + multiset(a) + multiset(b) == multiset(a0) + multiset(b0)
  }

  lemma {:induction false} NodeMoves(done: seq<Item>, a: seq<Item>, b: seq<Item>, a0: seq<Item>, b0: seq<Item>)
    requires SameNodes(done, a, b, a0, b0) && a != []
    ensures SameNodes(done + [a[0]], a[1..], b, a0, b0)
    ensures a[0] in a0 || a[0] in b0
  {
    assert a == [a[0]] + a[1..];
    assert a[0] in multiset(a0) + multiset(b0);
  }

  ghost predicate MergedSoFar(done: seq<Item>, a: seq<Item>, b: seq<Item>, goal: seq<Member>) {
    goal == Members(done) + Merge(Members(a), Members(b))
  }

  lemma {:induction false} MergeStep(done: seq<Item>, a: seq<Item>, b: seq<Item>, goal: seq<Member>)
    requires MergedSoFar(done, a, b, goal) && a != [] && b != []
    ensures if Order(Fold(a[0].member.key), Fold(b[0].member.key)) < 0
            then MergedSoFar(done + [a[0]], a[1..], b, goal)
            else MergedSoFar(done + [b[0]], a, b[1..], goal)
  {
    hide Order, Fold;
    MembersCut(a, 1);
    MembersCut(b, 1);
    MembersJoin(done, [a[0]]);
    MembersJoin(done, [b[0]]);
  }

  ghost predicate From(s: seq<Item>, a0: seq<Item>, b0: seq<Item>) {
    forall i :: 0 <= i < |s| ==> s[i] in a0 || s[i] in b0
  }

  // All that holds while two halves with nodes a0 and b0 are merged.
  ghost predicate Underway(
    done: seq<Item>, a: seq<Item>, b: seq<Item>, a0: seq<Item>, b0: seq<Item>, goal: seq<Member>)
    reads done, a, b
  {
    && Merging(done, a, b) && SameNodes(done, a, b, a0, b0) && MergedSoFar(done, a, b, goal)
    && From(done, a0, b0) && From(a, a0, b0) && From(b, a0, b0)
  }

  // One round of the merge: the smaller head moves, the second one on a tie.
  method MergeNext(
    first: Item, second: Item, tail: Item?,
    ghost done: seq<Item>, ghost a: seq<Item>, ghost b: seq<Item>,
    ghost a0: seq<Item>, ghost b0: seq<Item>, ghost goal: seq<Member>)
    returns (smaller: Item, rest1: Item?, rest2: Item?, ghost a1: seq<Item>, ghost b1: seq<Item>)
    requires Underway(done, a, b, a0, b0, goal)
    requires a != [] && b != [] && first == a[0] && second == b[0]
    requires tail == if done == [] then null else done[|done| - 1]
    modifies done, first`prev, second`prev
    ensures Underway(done + [smaller], a1, b1, a0, b0, goal)
    ensures rest1 == Head(a1) && rest2 == Head(b1) && |a1| + |b1| < |a| + |b| && (a1 != [] || b1 != [])
    ensures done != [] ==> done[0] in done && done[0].prev == old(done[0].prev)
    ensures done == [] ==> (smaller == first || smaller == second) && smaller.prev == old(smaller.prev)
  {
    hide Chain, Linked, Merge, Members;
    var diff := CompareStrings(first.member.key, second.member.key, false);
    MergeStep(done, a, b, goal);
    assert first in a && second in b;
    if diff < 0 {
      NodeMoves(done, a, b, a0, b0);
      Append(tail, first, done, a, b);
      smaller, rest1, rest2, a1, b1 := first, first.next, second, a[1..], b;
    } else {
      NodeMoves(done, b, a, a0, b0);
      Append(tail, second, done, b, a);
      smaller, rest1, rest2, a1, b1 := second, first, second.next, a, b[1..];
    }
  }

  lemma {:induction false} MergeEnds(done: seq<Item>, a: seq<Item>, b: seq<Item>, a0: seq<Item>, b0: seq<Item>,
                                     goal: seq<Member>)
    requires SameNodes(done, a, b, a0, b0) && MergedSoFar(done, a, b, goal) && (a == [] || b == [])
    ensures var all := done + if a != [] then a else b;
            Members(all) == goal && multiset(all) == multiset(a0) + multiset(b0)
  {
  }

  method MergeLists(list1: Item, list2: Item, ghost a0: seq<Item>, ghost b0: seq<Item>)
    returns (result: Item, ghost sorted: seq<Item>)
    requires Chain(a0) && Chain(b0) && Apart(a0, b0) && a0 != [] && b0 != [] && list1 == a0[0] && list2 == b0[0]
    modifies a0, b0
    ensures Chain(sorted) && sorted != [] && result == sorted[0]
    ensures multiset(sorted) == multiset(a0) + multiset(b0)
    ensures Members(sorted) == Merge(Members(a0), Members(b0))
    ensures (result == a0[0] || result == b0[0]) && result.prev == old(result.prev)
  {
    hide Chain, Linked, Merging, Merge, Members, MergedSoFar, SameNodes, Apart;
    ghost var goal := Merge(Members(a0), Members(b0));
    MergeStarts(a0, b0);
    var tail, first, second;
    ghost var a, b;
    tail, first, second, a, b := MergeNext(list1, list2, null, [], a0, b0, a0, b0, goal);
    result := tail;
    ghost var done := [tail];
    assert [] + [tail] == done;
    while first != null && second != null
      invariant Underway(done, a, b, a0, b0, goal) && first == Head(a) && second == Head(b) && (a != [] || b != [])
      invariant done != [] && result == done[0] && tail == done[|done| - 1]
      invariant (result == a0[0] || result == b0[0]) && result.prev == old(result.prev)
      decreases |a| + |b|
    {
      assert first in a && second in b;
      tail, first, second, a, b := MergeNext(first, second, tail, done, a, b, a0, b0, goal);
      done := done + [tail];
    }
    MergeEnds(done, a, b, a0, b0, goal);
    sorted := done + if a != [] then a else b;
    AppendRests(first, second, tail, done, a, b);
  }

  lemma {:induction false} MergeStarts(a0: seq<Item>, b0: seq<Item>)
    requires Chain(a0) && Chain(b0) && Apart(a0, b0)
    ensures Underway([], a0, b0, a0, b0, Merge(Members(a0), Members(b0)))
  {
  }

  // ----- The sort

  lemma {:induction false} HalvesApart(l: seq<Item>, r: seq<Item>, a: seq<Item>, b: seq<Item>)
    requires Apart(l, r)
    requires forall i :: 0 <= i < |a| ==> a[i] in l
    requires forall i :: 0 <= i < |b| ==> b[i] in r
    ensures Apart(a, b)
  {
  }

  lemma {:induction false} Permuted(s: seq<Item>, t: seq<Item>)
    requires multiset(s) == multiset(t)
    ensures |s| == |t| && forall i :: 0 <= i < |s| ==> s[i] in t
  {
    assert |s| == |multiset(s)| && |t| == |multiset(t)|;
    forall i | 0 <= i < |s|
      ensures s[i] in t
    {
      assert s[i] in multiset(t);
    }
  }

  // The head keeps its predecessor pointer, which is stale if it was not the head before.
  method SortList(list: Item?, cs: bool, ghost nodes: seq<Item>) returns (result: Item?, ghost sorted: seq<Item>)
    requires Chain(nodes) && list == Head(nodes)
    modifies nodes
    ensures Chain(sorted) && result == Head(sorted)
    ensures multiset(sorted) == multiset(nodes)
    ensures Members(sorted) == Sort(Members(nodes), cs)
    ensures |sorted| == |nodes| && forall i :: 0 <= i < |sorted| ==> sorted[i] in nodes
    ensures nodes != [] ==> sorted[0] in nodes && sorted[0].prev == old(sorted[0].prev)
    decreases |nodes|, 1
  {
    hide Merge, StrictlyAscending;
    assert |nodes| > 1 ==> list != null && list.next == nodes[1];
    if list == null || list.next == null {
      return list, nodes;
    }
    var already := IsSorted(list, cs, nodes);
    if already {
      return list, nodes;
    }
    var second := FindMiddle(list, nodes);
    ghost var l, r := Cut(nodes, Middle(|nodes|));
    Split(second, nodes, l, r);
    result, sorted := SortHalves(list, second, cs, l, r);
    Permuted(sorted, nodes);
  }

  // Both halves are sorted by themselves and then merged.
  method SortHalves(list1: Item, list2: Item, cs: bool, ghost l: seq<Item>, ghost r: seq<Item>)
    returns (result: Item, ghost sorted: seq<Item>)
    requires Chain(l) && Chain(r) && Apart(l, r) && l != [] && r != [] && list1 == l[0] && list2 == r[0]
    modifies l, r
    ensures Chain(sorted) && sorted != [] && result == sorted[0]
    ensures multiset(sorted) == multiset(l) + multiset(r)
    ensures Members(sorted) == Merge(Sort(Members(l), cs), Sort(Members(r), cs))
    ensures (result in l || result in r) && result.prev == old(result.prev)
    decreases |l| + |r|, 0
  {
    hide Linked, Members, Merge, Sort;
    var first, second;
    ghost var a, b;
    first, a := SortList(list1, cs, l);
    assert forall i :: 0 <= i < |r| ==> r[i].prev == old(r[i].prev);
    second, b := SortList(list2, cs, r);
    HalvesApart(l, r, a, b);
    assert a[0].prev == old(a[0].prev) && b[0].prev == old(b[0].prev);
    result, sorted := MergeLists(first, second, a, b);
  }

  // sort_object. A node that becomes the head keeps its predecessor, which now is
  // one of the nodes behind it.
  method SortObject(parent: Container, cs: bool)
    requires parent.Loose()
    modifies parent, parent.items
    ensures parent.Loose() && multiset(parent.items) == multiset(old(parent.items))
    ensures Members(parent.items) == Sort(Members(old(parent.items)), cs)
    ensures parent.Valid() <==> old(parent.Valid()) && Head(parent.items) == Head(old(parent.items))
    ensures forall i :: 0 < i < |old(parent.items)| && old(parent.items)[i] == Head(parent.items) ==>
                          old(parent.items)[i].prev == old(parent.items)[i - 1]
    ensures old(parent.Valid()) ==> (parent.HeadIsSafe() <==> parent.Valid())
    ensures old(parent.Valid()) && KeepsHead(Members(old(parent.items)), cs) ==> parent.Valid()
  {
    hide Sort, Members, KeepsHead;
    ghost var was := parent.items;
    if parent.child == null {
      parent.child, parent.items := SortList(parent.child, cs, was);
      return;
    }
    Predecessors(was);
    parent.child, parent.items := SortList(parent.child, cs, was);
    HeadMoved(was, parent.items, cs);
    ghost var i :| 0 <= i < |was| && was[i] == parent.items[0];
    assert parent.items[0].prev == old(was[i].prev);
    assert i > 0 ==> parent.items[0].prev == was[i - 1];
    assert i > 0 ==> was[i] != was[0];
  }

  lemma {:induction false} Predecessors(s: seq<Item>)
    requires Linked(s)
    ensures forall i :: 0 < i < |s| ==> s[i].prev == s[i - 1]
  {
    forall i | 0 < i < |s|
      ensures s[i].prev == s[i - 1]
    {
      assert s[i - 1].next == s[i];
    }
  }

  // The new head was the head before, or its predecessor is now behind it.
  lemma {:induction false} HeadMoved(was: seq<Item>, now: seq<Item>, cs: bool)
    requires was != [] && now != [] && multiset(was) == multiset(now) && Members(now) == Sort(Members(was), cs)
    requires forall i, j :: 0 <= i < j < |was| ==> was[i] != was[j]
    ensures exists i :: 0 <= i < |was| && was[i] == now[0]
    ensures forall i :: 0 < i < |was| && was[i] == now[0] ==> was[i - 1] in now[1..]
    ensures KeepsHead(Members(was), cs) ==> now[0] == was[0]
  {
    hide Sort;
    assert now[0] in multiset(was);
    assert now == [now[0]] + now[1..];
    forall i | 0 < i < |was| && was[i] == now[0]
      ensures was[i - 1] in now[1..]
    {
      assert was[i - 1] in multiset(now);
    }
    if KeepsHead(Members(was), cs) {
      forall i | 0 < i < |was|
        ensures was[i] != now[0]
      {
        assert Members(was)[1..][i - 1] == Members(was)[i];
        assert Members(now)[0] != Members(was)[i];
      }
    }
  }

  method Two(b: Member, a: Member) returns (parent: Container, first: Item, second: Item)
    ensures fresh(parent) && fresh(first) && fresh(second)
    ensures parent.Valid() && parent.items == [first, second] && first.member == b && second.member == a
  {
    parent := new Container();
    first := new Item(b);
    second := new Item(a);
    parent.AddItem(first);
    parent.AddItem(second);
  }

  method SortTwo(b: Member, a: Member) returns (parent: Container, first: Item, second: Item)
    requires Order(Fold(a.key), Fold(b.key)) < 0
    ensures fresh(parent) && fresh(first) && fresh(second)
    ensures parent.Loose() && parent.items == [second, first] && second.prev == first
    ensures first.member == b
  {
    hide Order, Fold, Sort, KeepsHead;
    parent, first, second := Two(b, a);
    ghost var was := parent.items;
    SortedPair(b, a);
    assert Members(was) == [b, a];
    SortObject(parent, false);
    ghost var now := parent.items;
    assert Members(now)[0] == a && Members(now)[1] == b;
    Pair(was, now);
  }

  // The members b and a, sorted and then freed of a: the list leads from b to b.
  method SortThenDetach(b: Member, a: Member) returns (parent: Container)
    requires Order(Fold(a.key), Fold(b.key)) < 0
    ensures parent.child != null && parent.child.member == b
    ensures parent.child.next == parent.child && parent.child.prev == parent.child
  {
    var first, second;
    parent, first, second := SortTwo(b, a);
    parent.DetachViaPointer(second, 0);
  }

  lemma {:induction false} Pair(was: seq<Item>, now: seq<Item>)
    requires |was| == 2 && multiset(was) == multiset(now) && Members(was)[0] != Members(was)[1]
    requires |now| == 2 && Members(now)[0] == Members(was)[1]
    ensures now == [was[1], was[0]]
  {
    assert was == [was[0], was[1]] && now == [now[0], now[1]];
    assert now[0] in multiset(was) && now[1] in multiset(was) && was[0] in multiset(now);
  }

  lemma {:induction false} SortedPair(b: Member, a: Member)
    requires Order(Fold(a.key), Fold(b.key)) < 0
    ensures Sort([b, a], false) == [a, b] && a != b
  {
    var ba := [b, a];
    OrderZero(Fold(a.key), Fold(b.key));
    OrderFlip(Fold(a.key), Fold(b.key));
    assert Order(Key(ba[0].key, false), Key(ba[0 + 1].key, false)) > 0;
    assert ba[..1] == [b] && ba[1..] == [a];
    assert Merge([b], [a]) == [a] + Merge([b], [a][1..]);
  }
}
