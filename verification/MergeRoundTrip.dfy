/**
  Generating a merge patch and merging it into the first document: exactly when the
  second comes out, for all documents with distinct keys.
 */
module MergeRoundTrip {
  import opened CStrings
  import opened Json
  import opened SortMembers
  import opened CompareJson
  import opened MergePatch

  // ----- Merging a patch whose keys may repeat

  ghost function FoldedKeys(ms: seq<Member>): set<string> {
    set i | 0 <= i < |ms| :: Fold(ms[i].key)
  }

  // What merging makes of a target: each key takes its own course.
  ghost function Stepped(target: Option<Value>, patch: Json): Value
    decreases patch
  {
    if !patch.Object? then Meaning(patch, false)
    else
      var t := MembersOf(target);
      VObject(map k | k in t.Keys + FoldedKeys(patch.members) && Tracked(Lookup(t, k), patch.members, k).Some? ::
                Tracked(Lookup(t, k), patch.members, k).value)
  }

  // The member with key k, through all entries of a patch that name it.
  ghost function Tracked(current: Option<Value>, patch: seq<Member>, k: string): Option<Value>
    decreases patch
  {
    if patch == [] then current
    else
      var p := patch[0];
      var next := if Fold(p.key) != k then current else if p.value.Null? then None else Some(Stepped(current, p.value));
      Tracked(next, patch[1..], k)
  }

  // A patch may name a key twice, but what it puts in place is tidy.
  ghost predicate LeafTidy(patch: Json) {
    match patch
    case Object(members) => LeafTidyMembers(members)
    case _ => Tidy(patch, false)
  }

  ghost predicate LeafTidyMembers(ms: seq<Member>) {
    forall i :: 0 <= i < |ms| ==> LeafTidy(ms[i].value)
  }

  lemma {:induction false} TidyIsLeafTidy(v: Json)
    requires Tidy(v, false)
    ensures LeafTidy(v)
  {
    match v
    case Object(members) =>
      forall i | 0 <= i < |members|
        ensures LeafTidy(members[i].value)
      {
        TidyIsLeafTidy(members[i].value);
      }
    case _ =>
  }

  lemma {:induction false} UntouchedKey(current: Option<Value>, patch: seq<Member>, k: string)
    requires k !in FoldedKeys(patch)
    ensures Tracked(current, patch, k) == current
    decreases patch
  {
    if patch != [] {
      assert Fold(patch[0].key) in FoldedKeys(patch);
      forall j | j in FoldedKeys(patch[1..])
        ensures j in FoldedKeys(patch)
      {
        var i :| 0 <= i < |patch[1..]| && Fold(patch[1..][i].key) == j;
        assert patch[i + 1] == patch[1..][i];
      }
      UntouchedKey(current, patch[1..], k);
    }
  }

  // Looking up a key in what was merged.
  lemma {:induction false} SteppedLookup(target: Option<Value>, patch: Json, k: string)
    requires patch.Object?
    ensures Stepped(target, patch).VObject?
    ensures Lookup(Stepped(target, patch).members, k) == Tracked(Lookup(MembersOf(target), k), patch.members, k)
  {
    var t := MembersOf(target);
    if k !in t.Keys + FoldedKeys(patch.members) {
      UntouchedKey(None, patch.members, k);
    }
  }

  lemma {:induction false} MergedIsStepped(target: Option<Json>, patch: Json)
    requires TidyOption(target, false) && LeafTidy(patch)
    ensures Tidy(Merged(target, patch, false), false)
    ensures Meaning(Merged(target, patch, false), false) == Stepped(MeaningOf(target, false), patch)
    decreases patch
  {
    if patch.Object? {
      var ms := if target.Some? && target.value.Object? then target.value.members else [];
      assert MembersOf(MeaningOf(target, false)) == MembersMeaning(ms, false);
      MergedMembersTrack(ms, patch.members);
      var r, s := Meaning(Merged(target, patch, false), false).members,
          Stepped(MeaningOf(target, false), patch).members;
      forall k
        ensures Lookup(r, k) == Lookup(s, k)
      {
        SteppedLookup(MeaningOf(target, false), patch, k);
      }
      SameLookups(r, s);
    }
  }

  lemma {:induction false} SameLookups(r: map<string, Value>, s: map<string, Value>)
    requires forall k {:induction false} :: Lookup(r, k) == Lookup(s, k)
    ensures r == s
  {
    forall k
      ensures k in r <==> k in s
      ensures k in r ==> r[k] == s[k]
    {
      assert Lookup(r, k) == Lookup(s, k);
    }
    assert r.Keys == s.Keys;
  }

  lemma {:induction false} MergedMembersTrack(ms: seq<Member>, patch: seq<Member>)
    requires TidyMembers(ms, false) && LeafTidyMembers(patch)
    ensures TidyMembers(MergedMembers(ms, patch, false), false)
    ensures forall k {:induction false} ::
              Lookup(MembersMeaning(MergedMembers(ms, patch, false), false), k)
              == Tracked(Lookup(MembersMeaning(ms, false), k), patch, k)
    decreases patch
  {
    if patch != [] {
      var p, rest := patch[0], Removed(ms, patch[0].key, false);
      var x := Merged(Found(ms, p.key, false), p.value, false);
      var next := if p.value.Null? then rest else rest + [Member(p.key, x)];
      assert forall i :: 0 <= i < |patch| - 1 ==> patch[1..][i] == patch[i + 1];
      StepTracks(ms, p);
      MergedMembersTrack(next, patch[1..]);
    }
  }

  // One entry of a patch.
  lemma {:induction false} StepTracks(ms: seq<Member>, p: Member)
    requires TidyMembers(ms, false) && LeafTidy(p.value)
    ensures var rest, x := Removed(ms, p.key, false), Merged(Found(ms, p.key, false), p.value, false);
            var next := if p.value.Null? then rest else rest + [Member(p.key, x)];
            && TidyMembers(next, false)
            && forall k {:induction false} ::
                 Lookup(MembersMeaning(next, false), k)
                 == if Fold(p.key) != k then Lookup(MembersMeaning(ms, false), k)
                    else if p.value.Null? then None
                    else Some(Stepped(Lookup(MembersMeaning(ms, false), k), p.value))
    decreases p
  {
    RemovedMeaning(ms, p.key, false);
    if !p.value.Null? {
      var x := Merged(Found(ms, p.key, false), p.value, false);
      MergedIsStepped(Found(ms, p.key, false), p.value);
      MeaningAppend(Removed(ms, p.key, false), false, Member(p.key, x));
      TidyAppended(Removed(ms, p.key, false), Member(p.key, x));
    }
  }

  lemma {:induction false} TidyAppended(ms: seq<Member>, m: Member)
    requires TidyMembers(ms, false) && Tidy(m.value, false) && Distinct(ms + [m], false)
    ensures TidyMembers(ms + [m], false)
  {
    var all := ms + [m];
    assert forall i :: 0 <= i < |all| ==> all[i] == if i < |ms| then ms[i] else m;
  }

  // ----- What the walk does with a key
  //
  // The generator walks two lists that are sorted case-insensitively with strcmp.
  // What becomes of a key depends on whether the walk meets it on both sides at
  // once, and otherwise on which side it passes first.

  datatype Fate =
    | Ignored                        // the key is on neither side
    | Dropped                        // only the first side has it: removed
    | Added(value: Json)             // only the second side has it: set
    | Renewed(value: Json)           // passed on the first side, then on the second: removed, then set
    | Lost                           // passed on the second side, then on the first: set, then removed
    | Met(was: Json, value: Json)    // met on both sides at once: compared

  function FateOf(from: seq<Member>, to: seq<Member>, k: string): (r: Fate)
    ensures r.Met? ==> Height(r.was) <= MembersHeight(from)
    decreases |from| + |to|
  {
    if from == [] && to == [] then Ignored
    else
      var diff := RawOrder(from, to);
      if diff < 0 then
        if Fold(from[0].key) != k then FateOf(from[1..], to, k)
        else match Found(to, from[0].key, false) case None => Dropped case Some(v) => Renewed(v)
      else if diff > 0 then
        if Fold(to[0].key) != k then FateOf(from, to[1..], k)
        else if Found(from, to[0].key, false).Some? then Lost else Added(to[0].value)
      else if Fold(from[0].key) != k then FateOf(from[1..], to[1..], k)
      else Met(from[0].value, to[0].value)
  }

  // What a merge makes of a key, by its fate.
  ghost function After(fate: Fate, current: Option<Value>): Option<Value> {
    match fate
    case Ignored => current
    case Dropped => None
    case Lost => None
    case Added(v) => if v.Null? then None else Some(Stepped(current, v))
    case Renewed(v) => if v.Null? then None else Some(Stepped(None, v))
    case Met(f, t) =>
      if Alike(f, t, false) then current
      else
        NullMeansAlike(f, t);
        var v := MergeDiff(f, t).value;
        if v.Null? then None else Some(Stepped(current, v))
  }

  // The member of a list with a folded key.
  ghost function Named(ms: seq<Member>, k: string): Option<Value> {
    Lookup(MembersMeaning(ms, false), k)
  }

  lemma {:induction false} HeadNamed(ms: seq<Member>, k: string)
    requires ms != [] && Side(ms)
    ensures Named(ms, k) == if Fold(ms[0].key) == k then Some(Meaning(ms[0].value, false)) else Named(ms[1..], k)
    ensures Fold(ms[0].key) == k ==> Named(ms[1..], k).None?
  {
    SideTail(ms);
  }

  lemma {:induction false} FoundNamed(ms: seq<Member>, key: string)
    requires TidyMembers(ms, false)
    ensures Found(ms, key, false).Some? <==> Named(ms, Fold(key)).Some?
    ensures Found(ms, key, false).Some? ==>
              && Tidy(Found(ms, key, false).value, false)
              && Meaning(Found(ms, key, false).value, false) == Named(ms, Fold(key)).value
  {
    FindMeaning(ms, key, false);
  }

  // With the key on one side or none, there is only one way to go.
  lemma {:induction false} OneSidedFate(from: seq<Member>, to: seq<Member>, k: string)
    requires Side(from) && Side(to) && (Named(from, k).None? || Named(to, k).None?)
    ensures var fate := FateOf(from, to, k);
            if Named(from, k).Some? then fate == Dropped
            else if Named(to, k).Some? then
              fate.Added? && Tidy(fate.value, false) && Some(Meaning(fate.value, false)) == Named(to, k)
            else fate == Ignored
    decreases |from| + |to|
  {
    if from != [] || to != [] {
      if from != [] {
        HeadNamed(from, k);
        SideTail(from);
        FoundNamed(to, from[0].key);
      }
      if to != [] {
        HeadNamed(to, k);
        SideTail(to);
        FoundNamed(from, to[0].key);
      }
      var diff := RawOrder(from, to);
      if diff < 0 {
        if Fold(from[0].key) != k {
          OneSidedFate(from[1..], to, k);
        }
      } else if diff > 0 {
        if Fold(to[0].key) != k {
          OneSidedFate(from, to[1..], k);
        }
      } else {
        OrderZero(from[0].key, to[0].key);
        OneSidedFate(from[1..], to[1..], k);
      }
    }
  }

  // With the key on both sides, its fate names both values.
  lemma {:induction false} TwoSidedFate(from: seq<Member>, to: seq<Member>, k: string)
    requires Side(from) && Side(to) && Named(from, k).Some? && Named(to, k).Some?
    ensures var fate := FateOf(from, to, k);
            && (fate == Lost || fate.Renewed? || fate.Met?)
            && (fate != Lost ==> Tidy(fate.value, false) && Some(Meaning(fate.value, false)) == Named(to, k))
            && (fate.Met? ==> Tidy(fate.was, false) && Some(Meaning(fate.was, false)) == Named(from, k))
    decreases |from| + |to|
  {
    if from != [] && to != [] {
      HeadNamed(from, k);
      SideTail(from);
      FoundNamed(to, from[0].key);
      HeadNamed(to, k);
      SideTail(to);
      FoundNamed(from, to[0].key);
      var diff := RawOrder(from, to);
      if diff < 0 {
        if Fold(from[0].key) != k {
          TwoSidedFate(from[1..], to, k);
        }
      } else if diff > 0 {
        if Fold(to[0].key) != k {
          TwoSidedFate(from, to[1..], k);
        }
      } else {
        OrderZero(from[0].key, to[0].key);
        if Fold(from[0].key) != k {
          TwoSidedFate(from[1..], to[1..], k);
        }
      }
    }
  }

  // The generated entries for a key do what its fate says.
  lemma {:induction false} WalkTracks(from: seq<Member>, to: seq<Member>, k: string, current: Option<Value>)
    requires Side(from) && Side(to)
    ensures Tracked(current, MergeWalk(from, to), k) == After(FateOf(from, to, k), current)
    decreases |from| + |to|, 1
  {
    hide Meaning, Fold, Alike, Height, Sort, Order, FindMember;
    if from != [] || to != [] {
      if from != [] {
        HeadNamed(from, k);
        SideTail(from);
        FoundNamed(to, from[0].key);
      }
      if to != [] {
        HeadNamed(to, k);
        SideTail(to);
        FoundNamed(from, to[0].key);
      }
      var w, diff := MergeWalk(from, to), RawOrder(from, to);
      if diff < 0 {
        var next := if Fold(from[0].key) == k then None else current;
        assert w[1..] == MergeWalk(from[1..], to);
        WalkTracks(from[1..], to, k, next);
        if Fold(from[0].key) == k {
          OneSidedFate(from[1..], to, k);
          RenewedAlike(FateOf(from, to, k), FateOf(from[1..], to, k));
        }
      } else if diff > 0 {
        var next := if Fold(to[0].key) == k then After(Added(to[0].value), current) else current;
        assert w[1..] == MergeWalk(from, to[1..]);
        WalkTracks(from, to[1..], k, next);
        if Fold(to[0].key) == k {
          OneSidedFate(from, to[1..], k);
        }
      } else {
        MeetingTracks(from, to, k, current);
      }
    }
  }

  // Two values with one meaning step alike into nothing.
  lemma {:induction false} RenewedAlike(fate: Fate, later: Fate)
    requires (fate == Dropped && later == Ignored) || (fate.Renewed? && later.Added?)
    requires fate.Renewed? ==> Tidy(fate.value, false) && Tidy(later.value, false)
    requires fate.Renewed? ==> Meaning(fate.value, false) == Meaning(later.value, false)
    ensures After(fate, None) == After(later, None)
  {
    if fate.Renewed? {
      SteppedIntoNothing(fate.value);
      SteppedIntoNothing(later.value);
      NotNull(fate.value, false);
      NotNull(later.value, false);
    }
  }

  lemma {:induction false} SteppedIntoNothing(v: Json)
    requires Tidy(v, false)
    ensures Stepped(None, v) == RfcMerge(None, Meaning(v, false))
  {
    TidyIsLeafTidy(v);
    MergedIsStepped(None, v);
    MergedIsRfc(None, v, false);
  }

  lemma {:induction false} MeetingTracks(from: seq<Member>, to: seq<Member>, k: string, current: Option<Value>)
    requires Side(from) && Side(to) && from != [] && to != [] && RawOrder(from, to) == 0
    ensures Tracked(current, MergeWalk(from, to), k) == After(FateOf(from, to, k), current)
    decreases |from| + |to|, 0
  {
    var f, t, w := from[0].value, to[0].value, MergeWalk(from, to);
    OrderZero(from[0].key, to[0].key);
    HeadNamed(from, k);
    HeadNamed(to, k);
    SideTail(from);
    SideTail(to);
    NullMeansAlike(f, t);
    assert !Alike(f, t, false) ==> w[1..] == MergeWalk(from[1..], to[1..]);
    if Fold(from[0].key) == k {
      var next := After(FateOf(from, to, k), current);
      WalkTracks(from[1..], to[1..], k, next);
      OneSidedFate(from[1..], to[1..], k);
    } else {
      WalkTracks(from[1..], to[1..], k, current);
    }
  }

  // ----- When the second document comes out

  // No object member in the item, however deep below objects, is null.
  predicate NullFreeTree(v: Json) {
    match v
    case Object(ms) => forall i :: 0 <= i < |ms| ==> !ms[i].value.Null? && NullFreeTree(ms[i].value)
    case _ => true
  }

  // The patch carries every member of the second document, none of which is lost
  // or needs a null that is not in place.
  predicate Carries(from: Json, to: Json)
    decreases Height(from), 0
  {
    if !from.Object? || !to.Object? then NullFreeTree(to)
    else
      SortedHeight(from.members, false);
      var s, t := Sort(from.members, false), Sort(to.members, false);
      forall j :: 0 <= j < |to.members| ==> Arrives(FateOf(s, t, Fold(to.members[j].key)))
  }

  predicate Arrives(fate: Fate)
    decreases if fate.Met? then Height(fate.was) else 0, 1
  {
    match fate
    case Lost => false
    case Added(v) => !v.Null? && NullFreeTree(v)
    case Renewed(v) => !v.Null? && NullFreeTree(v)
    case Met(f, t) => Alike(f, t, false) || (!t.Null? && Carries(f, t))
    case _ => true
  }

  lemma {:induction false} NullFreeMeaning(v: Json)
    requires Tidy(v, false)
    ensures NullFree(Meaning(v, false)) <==> NullFreeTree(v)
  {
    match v
    case Object(ms) =>
      var m := MembersMeaning(ms, false);
      forall i | 0 <= i < |ms|
        ensures Fold(ms[i].key) in m && m[Fold(ms[i].key)] == Meaning(ms[i].value, false)
        ensures NullFree(Meaning(ms[i].value, false)) <==> NullFreeTree(ms[i].value)
      {
        MeaningAt(ms, false, i);
        NullFreeMeaning(ms[i].value);
      }
      forall k | k in m
        ensures exists i :: 0 <= i < |ms| && Fold(ms[i].key) == k
      {
        MeaningKeys(ms, false, k);
      }
    case _ =>
  }

  lemma {:induction false} IntoNothing(v: Json)
    requires Tidy(v, false)
    ensures Stepped(None, v) == Meaning(v, false) <==> NullFreeTree(v)
  {
    SteppedIntoNothing(v);
    MergeIntoNothing(None, Meaning(v, false));
    NullFreeMeaning(v);
  }

  lemma {:induction false} GeneratedIsLeafTidy(from: Json, to: Json)
    requires Tidy(from, false) && Tidy(to, false)
    ensures MergeDiff(from, to).Some? ==> LeafTidy(MergeDiff(from, to).value)
    decreases Height(from), 0, 1
  {
    if from.Object? && to.Object? {
      SortedHeight(from.members, false);
      SortedSide(from);
      SortedSide(to);
      WalkIsLeafTidy(Sort(from.members, false), Sort(to.members, false));
    } else {
      TidyIsLeafTidy(to);
    }
  }

  lemma {:induction false} WalkIsLeafTidy(from: seq<Member>, to: seq<Member>)
    requires Side(from) && Side(to)
    ensures LeafTidyMembers(MergeWalk(from, to))
    decreases MembersHeight(from), 1, |from| + |to|
  {
    if from != [] || to != [] {
      if from != [] {
        SideTail(from);
      }
      if to != [] {
        SideTail(to);
        TidyIsLeafTidy(to[0].value);
      }
      var diff := RawOrder(from, to);
      if diff < 0 {
        WalkIsLeafTidy(from[1..], to);
      } else if diff > 0 {
        WalkIsLeafTidy(from, to[1..]);
      } else {
        WalkIsLeafTidy(from[1..], to[1..]);
        MemberHeight(from, 0);
        GeneratedIsLeafTidy(from[0].value, to[0].value);
        NullMeansAlike(from[0].value, to[0].value);
      }
    }
  }

  // Merging what was generated, on values.
  lemma {:induction false} GeneratedCarries(from: Json, to: Json)
    requires Tidy(from, false) && Tidy(to, false) && MergeDiff(from, to).Some?
    ensures Stepped(Some(Meaning(from, false)), MergeDiff(from, to).value) == Meaning(to, false) <==> Carries(from, to)
    decreases Height(from), 1
  {
    if from.Object? && to.Object? {
      SortedHeight(from.members, false);
      SortedSide(from);
      SortedSide(to);
      var s, t := Sort(from.members, false), Sort(to.members, false);
      var current, patch := Some(Meaning(from, false)), MergeDiff(from, to).value;
      var r, m := Stepped(current, patch).members, Meaning(to, false).members;
      forall k
        ensures Lookup(r, k) == Lookup(m, k) <==> (Named(t, k).Some? ==> Arrives(FateOf(s, t, k)))
      {
        SteppedLookup(current, patch, k);
        KeyArrives(s, t, k, MembersHeight(from.members));
      }
      if forall j :: 0 <= j < |to.members| ==> Arrives(FateOf(s, t, Fold(to.members[j].key))) {
        forall k
          ensures Lookup(r, k) == Lookup(m, k)
        {
          MeaningKeys(to.members, false, k);
        }
        SameLookups(r, m);
      }
      if r == m {
        forall j | 0 <= j < |to.members|
          ensures Arrives(FateOf(s, t, Fold(to.members[j].key)))
        {
          MeaningAt(to.members, false, j);
        }
      }
    } else if to.Object? {
      IntoNothing(to);
    }
  }

  // One key comes out right exactly if its fate lets it arrive.
  lemma {:induction false} KeyArrives(from: seq<Member>, to: seq<Member>, k: string, height: nat)
    requires Side(from) && Side(to) && MembersHeight(from) <= height
    ensures Tracked(Named(from, k), MergeWalk(from, to), k) == Named(to, k)
        <==> (Named(to, k).Some? ==> Arrives(FateOf(from, to, k)))
    decreases height + 1, 0
  {
    hide Meaning, Tidy, FateOf, Alike;
    var fate := FateOf(from, to, k);
    WalkTracks(from, to, k, Named(from, k));
    if Named(from, k).None? || Named(to, k).None? {
      OneSidedFate(from, to, k);
      if fate.Added? {
        IntoNothing(fate.value);
      }
    } else {
      TwoSidedFate(from, to, k);
      if fate.Renewed? {
        IntoNothing(fate.value);
      } else if fate.Met? {
        AlikeIsEqualMeaning(fate.was, fate.value);
        NullMeansAlike(fate.was, fate.value);
        if !Alike(fate.was, fate.value, false) {
          GeneratedCarries(fate.was, fate.value);
        }
      }
    }
  }

  // ----- When there is nothing to send

  // Keys that are equal up to case are equal.
  predicate SameSpelling(x: seq<Member>, y: seq<Member>) {
    forall i, j :: 0 <= i < |x| && 0 <= j < |y| && Fold(x[i].key) == Fold(y[j].key) ==> x[i].key == y[j].key
  }

  lemma {:induction false} EmptyWalk(from: seq<Member>, to: seq<Member>)
    requires Side(from) && Side(to)
    ensures MergeWalk(from, to) == [] <==> AlikeMembers(from, to, false) && SameSpelling(from, to)
    decreases |from| + |to|
  {
    if from != [] && to != [] {
      OrderZero(from[0].key, to[0].key);
      OrderZero(Fold(from[0].key), Fold(to[0].key));
      SideTail(from);
      SideTail(to);
      EmptyWalk(from[1..], to[1..]);
      if from[0].key == to[0].key {
        HeadSpelling(from, to);
      }
    }
  }

  lemma {:induction false} HeadSpelling(from: seq<Member>, to: seq<Member>)
    requires from != [] && to != [] && Side(from) && Side(to) && from[0].key == to[0].key
    ensures SameSpelling(from, to) <==> SameSpelling(from[1..], to[1..])
  {
    hide TidyMembers, Fold, Order;
    RankedHeadOnly(from);
    RankedHeadOnly(to);
    if SameSpelling(from, to) {
      forall i, j | 0 <= i < |from| - 1 && 0 <= j < |to| - 1 && Fold(from[1..][i].key) == Fold(to[1..][j].key)
        ensures from[1..][i].key == to[1..][j].key
      {
        assert from[1..][i] == from[i + 1] && to[1..][j] == to[j + 1];
      }
    }
    if SameSpelling(from[1..], to[1..]) {
      forall i, j | 0 <= i < |from| && 0 <= j < |to| && Fold(from[i].key) == Fold(to[j].key)
        ensures from[i].key == to[j].key
      {
        assert i > 0 ==> from[i] == from[1..][i - 1];
        assert j > 0 ==> to[j] == to[1..][j - 1];
      }
    }
  }

  lemma {:induction false} RankedHeadOnly(ms: seq<Member>)
    requires ms != [] && Ranked(ms)
    ensures forall i :: 0 < i < |ms| ==> Fold(ms[i].key) != Fold(ms[0].key)
  {
    forall i | 0 < i < |ms|
      ensures Fold(ms[i].key) != Fold(ms[0].key)
    {
      OrderZero(Fold(ms[0].key), Fold(ms[i].key));
    }
  }

  lemma {:induction false} SortedSpelling(x: seq<Member>, y: seq<Member>)
    ensures SameSpelling(Sort(x, false), Sort(y, false)) <==> SameSpelling(x, y)
  {
    hide Fold, Sort;
    var s, t := Sort(x, false), Sort(y, false);
    if SameSpelling(x, y) {
      forall i, j | 0 <= i < |s| && 0 <= j < |t| && Fold(s[i].key) == Fold(t[j].key)
        ensures s[i].key == t[j].key
      {
        SortedElement(x, false, i);
        SortedElement(y, false, j);
      }
    }
    if SameSpelling(s, t) {
      forall i, j | 0 <= i < |x| && 0 <= j < |y| && Fold(x[i].key) == Fold(y[j].key)
        ensures x[i].key == y[j].key
      {
        var k := ElementSorted(x, false, i);
        var l := ElementSorted(y, false, j);
      }
    }
  }

  // ----- The theorem

  lemma {:induction false} MergePatchRoundTrip(doc: Json, from: Json, to: Json)
    requires Tidy(from, false) && Tidy(to, false) && Tidy(doc, false) && Alike(doc, from, false)
    ensures MergeDiff(from, to).None?
       <==> from.Object? && to.Object? && Alike(from, to, false) && SameSpelling(from.members, to.members)
    ensures MergeDiff(from, to).None? ==> Alike(doc, to, false)
    ensures MergeDiff(from, to).Some? ==>
              (Alike(Merged(Some(doc), MergeDiff(from, to).value, false), to, false) <==> Carries(from, to))
  {
    hide Meaning, Tidy, Carries, Merged;
    AlikeIsEqualMeaning(doc, from);
    AlikeIsEqualMeaning(from, to);
    AlikeIsEqualMeaning(doc, to);
    if from.Object? && to.Object? {
      NothingToSend(from, to);
    }
    if MergeDiff(from, to).Some? {
      var patch := MergeDiff(from, to).value;
      GeneratedIsLeafTidy(from, to);
      MergedIsStepped(Some(doc), patch);
      AlikeIsEqualMeaning(Merged(Some(doc), patch, false), to);
      GeneratedCarries(from, to);
    }
  }

  lemma {:induction false} NothingToSend(from: Json, to: Json)
    requires Tidy(from, false) && Tidy(to, false) && from.Object? && to.Object?
    ensures MergeDiff(from, to).None? <==> Alike(from, to, false) && SameSpelling(from.members, to.members)
  {
    SortedSide(from);
    SortedSide(to);
    EmptyWalk(Sort(from.members, false), Sort(to.members, false));
    SortedSpelling(from.members, to.members);
  }

  // In step, only nulls can be in the way.
  lemma {:induction false} CarriesInStep(from: Json, to: Json)
    requires Tidy(from, false) && Tidy(to, false) && InStep(from, to) && MergeDiff(from, to).Some?
    ensures Carries(from, to) <==> Expressible(Meaning(from, false), Meaning(to, false))
  {
    AlikeIsEqualMeaning(from, from);
    MergePatchRoundTrip(from, from, to);
    RoundTripInStep(from, from, to);
  }

  // Out of step a patch may still come out right: B is removed first and set again.
  lemma {:induction false} OutOfStepMayCarry()
    ensures var from, to := Object([Member("B", True)]), Object([Member("a", True), Member("B", False)]);
            !InStep(from, to) && Carries(from, to)
  {
    hide Sort, FateOf, Order, Alike;
    var x, y := [Member("B", True)], [Member("a", True), Member("B", False)];
    OutOfStepFates();
    assert !SameOrder(x[0].key, y[0].key);
    assert Fold("a") == "a" && Fold("B") == "b";
  }

  lemma {:induction false} OutOfStepFates()
    ensures var x, y := [Member("B", True)], [Member("a", True), Member("B", False)];
            && Sort(x, false) == x && Sort(y, false) == y
            && FateOf(x, y, "b") == Renewed(False) && FateOf(x, y, "a") == Added(True)
    ensures Order("B", "a") == -1 && Order(Fold("B"), Fold("a")) == 1
  {
    var x, y := [Member("B", True)], [Member("a", True), Member("B", False)];
    assert Key("a", false) == Fold("a") == "a" && Key("B", false) == Fold("B") == "b";
    assert Order("a", "b") == -1 && Order("B", "a") == -1 && Order("b", "a") == 1;
    assert StrictlyAscending(y, false);
    assert y[1..] == [Member("B", False)] && x[1..] == [];
    assert FindMember(y, "B", false) == Some(1) by {
      assert Key("a", false)[0] != Key("B", false)[0];
    }
    assert FateOf([], y, "a") == Added(True);
  }
}
