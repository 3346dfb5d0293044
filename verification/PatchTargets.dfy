/**
  What generated patches are meant to do: the path that each is about, as a list of
  tokens, and the effect that section 4 of RFC 6902 gives it there.
 */
module PatchTargets {
  import opened CStrings
  import opened Json
  import opened SortMembers
  import opened CompareJson
  import opened Paths
  import opened ApplyPatch
  import opened PatchDiff
  import opened PatchEffects

  // ----- The paths of the generated patches, in order, as lists of tokens

  ghost function Targets(path: Path, from: Json, to: Json): seq<Path>
    decreases Height(from), 0, 0
  {
    match (from, to)
    case (Number(x), Number(y)) => if x != y then [path] else []
    case (String(x), String(y)) => if x != y then [path] else []
    case (Array(x), Array(y)) => ItemTargets(path, 0, x, y)
    case (Object(x), Object(y)) =>
      SortedHeight(x, false);
      MemberTargets(path, Sort(x, false), Sort(y, false))
    case _ => if SameType(from, to) then [] else [path]
  }

  ghost function ItemTargets(path: Path, index: nat, from: seq<Json>, to: seq<Json>): seq<Path>
    decreases ItemsHeight(from), 1, |from| + |to|
  {
    if from != [] && to != [] then
      Targets(path + [Index(index)], from[0], to[0]) + ItemTargets(path, index + 1, from[1..], to[1..])
    else if from != [] then [path + [Index(index)]] + ItemTargets(path, index, from[1..], to)
    else if to != [] then [path + [Name("-")]] + ItemTargets(path, index, from, to[1..])
    else []
  }

  ghost function MemberTargets(path: Path, from: seq<Member>, to: seq<Member>): seq<Path>
    decreases MembersHeight(from), 1, |from| + |to|
  {
    if from == [] && to == [] then []
    else
      var diff := MergeOrder(from, to, false);
      if diff == 0 then
        Targets(path + [Name(from[0].key)], from[0].value, to[0].value) + MemberTargets(path, from[1..], to[1..])
      else if diff < 0 then [path + [Name(from[0].key)]] + MemberTargets(path, from[1..], to)
      else [path + [Name(to[0].key)]] + MemberTargets(path, from, to[1..])
  }

  // Equal documents have no targets, and only they do.
  lemma {:induction false} NoTargetsIffAlike(path: Path, from: Json, to: Json)
    ensures Targets(path, from, to) == [] <==> Alike(from, to, false)
    decreases Height(from), 0, 0
  {
    match (from, to)
    case (Array(x), Array(y)) =>
      NoItemTargetsIffAlike(path, 0, x, y);
    case (Object(x), Object(y)) =>
      SortedHeight(x, false);
      NoMemberTargetsIffAlike(path, Sort(x, false), Sort(y, false));
    case _ =>
  }

  lemma {:induction false} NoItemTargetsIffAlike(path: Path, index: nat, from: seq<Json>, to: seq<Json>)
    ensures ItemTargets(path, index, from, to) == [] <==> AlikeItems(from, to, false)
    decreases ItemsHeight(from), 1, |from|
  {
    if from != [] && to != [] {
      NoTargetsIffAlike(path + [Index(index)], from[0], to[0]);
      NoItemTargetsIffAlike(path, index + 1, from[1..], to[1..]);
    }
  }

  lemma {:induction false} NoMemberTargetsIffAlike(path: Path, from: seq<Member>, to: seq<Member>)
    ensures MemberTargets(path, from, to) == [] <==> AlikeMembers(from, to, false)
    decreases MembersHeight(from), 1, |from|
  {
    if from != [] && to != [] && Order(Key(from[0].key, false), Key(to[0].key, false)) == 0 {
      NoTargetsIffAlike(path + [Name(from[0].key)], from[0].value, to[0].value);
      NoMemberTargetsIffAlike(path, from[1..], to[1..]);
    }
  }

  // ----- The intended effect

  // What a value becomes by a patch that is about a path, if it can be applied there.
  ghost function Intended(v: Value, patch: Json, target: Path): Option<Value> {
    var op, x := OperationOf(patch, false), Field(patch, "value", false);
    if target == [] then
      if op in {ADD, REPLACE} && x.Some? then Some(Meaning(x.value, false)) else None
    else
      var parent, t := target[..|target| - 1], target[|target| - 1];
      if !Has(v, parent) then None
      else
        var n := Get(v, parent);
        if op == REMOVE && HasStep(n, t) then Some(Set(v, parent, StepRemoved(n, t)))
        else if op == ADD && x.Some? && CanAdd(n, t) then
          Some(Set(v, parent, StepAdded(n, t, Meaning(x.value, false))))
        else if op == REPLACE && x.Some? && HasStep(n, t) then
          Some(Set(v, parent, StepSet(n, t, Meaning(x.value, false))))
        else None
  }

  // The patch succeeds, changes the document, and has the intended effect.
  ghost predicate RightStep(doc: Json, patch: Json, target: Path) {
    && Readable(patch, false)
    && var out := Applied(doc, patch, false);
       && out.status == 0 && Tidy(out.doc, false)
       && Intended(Meaning(doc, false), patch, target) == Some(Meaning(out.doc, false))
       && Meaning(out.doc, false) != Meaning(doc, false)
  }

  // So do all patches of a run, one after the other.
  ghost predicate RightRun(doc: Json, patches: seq<Json>, targets: seq<Path>)
    decreases |patches|
  {
    if patches == [] then targets == []
    else
      && targets != [] && RightStep(doc, patches[0], targets[0])
      && RightRun(Applied(doc, patches[0], false).doc, patches[1..], targets[1..])
  }

  lemma {:induction false} RightRunJoins(doc: Json, a: seq<Json>, s: seq<Path>, b: seq<Json>, t: seq<Path>)
    requires forall i :: 0 <= i < |a| ==> Readable(a[i], false)
    requires AppliedAll(doc, a, false).status == 0
    requires RightRun(doc, a, s) && RightRun(AppliedAll(doc, a, false).doc, b, t)
    ensures RightRun(doc, a + b, s + t)
    decreases |a|
  {
    hide RightStep, Applied, Readable;
    if a == [] {
      assert a + b == b && s + t == t;
    } else {
      var rest := a[1..];
      assert forall i :: 0 <= i < |rest| ==> rest[i] == a[i + 1];
      assert (a + b)[1..] == rest + b && (s + t)[1..] == s[1..] + t;
      RightRunJoins(Applied(doc, a[0], false).doc, rest, s[1..], b, t);
    }
  }

  lemma {:induction false} SetChanges(v: Value, path: Path, x: Value)
    requires Has(v, path)
    ensures Set(v, path, x) == v <==> x == Get(v, path)
  {
    GetSet(v, path, x);
    SetSame(v, path);
  }

  lemma {:induction false} RightRemove(doc: Json, parent: Path, t: Token)
    requires Tidy(doc, false) && Walkable(parent) && Plain(t)
    requires Has(Meaning(doc, false), parent) && HasStep(Get(Meaning(doc, false), parent), t)
    ensures RightStep(doc, Patch("remove", PathString(parent + [t]), None), parent + [t])
  {
    hide Tidy, Applied, Meaning, Walkable, PathString, Intended, Has, Get, Set;
    var q, v := parent + [t], Meaning(doc, false);
    var n := Get(v, parent);
    PatchFields("remove", PathString(q), None);
    RemoveApplied(doc, parent, t);
    IntendedRemove(v, Patch("remove", PathString(q), None), parent, t);
    SetChanges(v, parent, StepRemoved(n, t));
    RemovedDiffers(n, t);
  }

  lemma {:induction false} RemovedDiffers(n: Value, t: Token)
    requires HasStep(n, t)
    ensures StepRemoved(n, t) != n
  {
    match t
    case Name(key) => assert Fold(key) !in StepRemoved(n, t).members;
    case Index(i) => assert |StepRemoved(n, t).items| != |n.items|;
  }

  lemma {:induction false} RightAdd(doc: Json, parent: Path, t: Token, x: Json)
    requires Tidy(doc, false) && Tidy(x, false) && Walkable(parent) && Plain(t)
    requires Has(Meaning(doc, false), parent) && CanAdd(Get(Meaning(doc, false), parent), t)
    requires StepAdded(Get(Meaning(doc, false), parent), t, Meaning(x, false)) != Get(Meaning(doc, false), parent)
    ensures RightStep(doc, Patch("add", PathString(parent + [t]), Some(x)), parent + [t])
  {
    hide Tidy, Applied, Meaning, Walkable, PathString, Intended, Has, Get, Set;
    var q, v := parent + [t], Meaning(doc, false);
    PatchFields("add", PathString(q), Some(x));
    AddApplied(doc, parent, t, x);
    IntendedAdd(v, Patch("add", PathString(q), Some(x)), parent, t, x);
    SetChanges(v, parent, StepAdded(Get(v, parent), t, Meaning(x, false)));
  }

  lemma {:induction false} IntendedAdd(v: Value, patch: Json, parent: Path, t: Token, x: Json)
    requires Has(v, parent) && CanAdd(Get(v, parent), t)
    requires OperationOf(patch, false) == ADD && Field(patch, "value", false) == Some(x)
    ensures Intended(v, patch, parent + [t]) == Some(Set(v, parent, StepAdded(Get(v, parent), t, Meaning(x, false))))
  {
    hide Meaning, OperationOf, Field;
    assert (parent + [t])[..|parent|] == parent;
  }

  lemma {:induction false} IntendedRemove(v: Value, patch: Json, parent: Path, t: Token)
    requires Has(v, parent) && HasStep(Get(v, parent), t) && OperationOf(patch, false) == REMOVE
    ensures Intended(v, patch, parent + [t]) == Some(Set(v, parent, StepRemoved(Get(v, parent), t)))
  {
    hide Meaning, OperationOf, Field;
    assert (parent + [t])[..|parent|] == parent;
  }

  lemma {:induction false} IntendedReplace(v: Value, patch: Json, path: Path, x: Json)
    requires Has(v, path) && OperationOf(patch, false) == REPLACE && Field(patch, "value", false) == Some(x)
    ensures Intended(v, patch, path) == Some(Set(v, path, Meaning(x, false)))
  {
    hide Meaning, OperationOf, Field;
    if path != [] {
      var parent, t := path[..|path| - 1], path[|path| - 1];
      assert path == parent + [t];
      HasParent(v, parent, t);
      Extend(v, parent, t);
    }
  }

  lemma {:induction false} RightReplace(doc: Json, path: Path, x: Json)
    requires Tidy(doc, false) && Tidy(x, false) && Has(Meaning(doc, false), path)
    requires path != [] ==> Walkable(path[..|path| - 1]) && Plain(path[|path| - 1])
    requires Get(Meaning(doc, false), path) != Meaning(x, false)
    ensures RightStep(doc, Patch("replace", PathString(path), Some(x)), path)
  {
    hide Tidy, Applied, Meaning, Walkable, PathString, Intended, Has, Get, Set;
    var v := Meaning(doc, false);
    PatchFields("replace", PathString(path), Some(x));
    ReplaceApplied(doc, path, x);
    SetChanges(v, path, Meaning(x, false));
    IntendedReplace(v, Patch("replace", PathString(path), Some(x)), path, x);
  }
}
