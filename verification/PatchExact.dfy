/**
  Every generated patch of a run has its intended effect exactly if no difference is
  out of reach.
 */
module PatchExact {
  import opened CStrings
  import opened Json
  import opened CompareJson
  import opened Pointers
  import opened Paths
  import opened ApplyPatch
  import opened PatchDiff
  import opened PatchEffects
  import opened PatchDecides
  import opened PatchTargets
  import opened PatchRoundTrip
  import opened PatchReach

  // ----- Paths end to end

  lemma {:induction false} Through(v: Value, a: Path, b: Path, x: Value)
    requires Has(v, a + b)
    ensures Has(v, a) && Has(Get(v, a), b) && Get(v, a + b) == Get(Get(v, a), b)
    ensures Set(v, a + b, x) == Set(v, a, Set(Get(v, a), b, x))
    decreases a
  {
    if a == [] {
      assert a + b == b;
    } else {
      assert (a + b)[1..] == a[1..] + b;
      Through(StepTo(v, a[0]), a[1..], b, x);
    }
  }

  lemma {:induction false} ThroughBack(v: Value, a: Path, b: Path)
    requires Has(v, a) && Has(Get(v, a), b)
    ensures Has(v, a + b) && Get(v, a + b) == Get(Get(v, a), b)
    decreases a
  {
    if a == [] {
      assert a + b == b;
    } else {
      assert (a + b)[1..] == a[1..] + b;
      ThroughBack(StepTo(v, a[0]), a[1..], b);
    }
  }

  // Nothing is a part of itself.
  lemma {:induction false} NoPartOfItself(v: Value, path: Path)
    requires path != [] && Has(v, path)
    ensures Get(v, path) != v
    decreases v
  {
    if Get(v, path) == v {
      var t, w, rest := path[0], StepTo(v, path[0]), path[1..];
      assert [t][1..] == [] && Has(w, []) && Get(w, []) == w;
      assert Has(v, [t]) && Get(v, [t]) == w;
      ThroughBack(w, rest, [t]);
      NoPartOfItself(w, rest + [t]);
    }
  }

  // ----- Where a patch acts
  //
  // A patch whose path the pointer walk cannot follow acts on an element of an array
  // instead of on something below it.

  // The first array step of the path to a parent is at k, and not at its end.
  ghost predicate StopsAt(parent: Path, k: nat) {
    k + 1 < |parent| && parent[k].Index? && Walkable(parent[..k + 1])
  }

  lemma {:induction false} DetachesHigh(doc: Json, parent: Path, k: nat, t: Token)
    requires Tidy(doc, false) && StopsAt(parent, k) && Plain(t) && Has(Meaning(doc, false), parent[..k + 1])
    ensures var v, p, d := Meaning(doc, false), parent[..k + 1], DetachedAt(doc, PathString(parent + [t]), false);
            var e := DetachedValue(Get(v, p), TokenText(t));
            && (d.Some? <==> e.Some?)
            && (d.Some? ==> Tidy(d.value.doc, false) && Meaning(d.value.doc, false) == Set(v, p, e.value))
  {
    hide Tidy, Meaning, DetachedAt, DetachedValue, Splits;
    var pos := WalkStops(doc, parent, k);
    SplitPath(parent, t);
    DetachesAt(doc, PathString(parent + [t]), parent[..k + 1], pos, PathString(parent), TokenText(t));
  }

  lemma {:induction false} AddsHigh(doc: Json, parent: Path, k: nat, t: Token, x: Json)
    requires Tidy(doc, false) && Tidy(x, false) && StopsAt(parent, k) && Plain(t)
    requires Has(Meaning(doc, false), parent[..k + 1])
    ensures var v, p, out := Meaning(doc, false), parent[..k + 1], AddedAt(doc, PathString(parent + [t]), x, false);
            var e := AddedValue(Get(v, p), TokenText(t), Meaning(x, false));
            && (out.status == 0 <==> e.Some?)
            && (out.status == 0 ==> Tidy(out.doc, false) && Meaning(out.doc, false) == Set(v, p, e.value))
  {
    hide Tidy, Meaning, AddedAt, AddedValue, Splits, AddStatus;
    var pos := WalkStops(doc, parent, k);
    SplitPath(parent, t);
    AddsAt(doc, PathString(parent + [t]), parent[..k + 1], pos, PathString(parent), TokenText(t), x);
  }

  // ----- It never has the intended effect

  // Another number of children.
  lemma {:induction false} RemovesAnother(n: Value, child: string, s: Token, d: Value)
    requires HasStep(n, s) && DetachedValue(n, child).Some?
    ensures DetachedValue(n, child).value != StepSet(n, s, d)
  {
    match n
    case VArray(items) =>
      assert |DetachedValue(n, child).value.items| != |items|;
    case VObject(members) =>
      assert Fold(child) in StepSet(n, s, d).members;
  }

  // Another number of children, or another child, or a child that is a part of itself.
  lemma {:induction false} AddsAnother(n: Value, child: string, x: Value, s: Token, d: Value, path: Path)
    requires HasStep(n, s) && d != StepTo(n, s) && AddedValue(n, child, x).Some?
    requires path != [] && Has(d, path) && Get(d, path) == x
    ensures AddedValue(n, child, x).value != StepSet(n, s, d)
  {
    NoPartOfItself(d, path);
    var a, b := AddedValue(n, child, x).value, StepSet(n, s, d);
    match n
    case VArray(items) =>
      assert |a.items| != |b.items|;
    case VObject(members) =>
      var k := Fold(s.key);
      assert b.members[k] == d && a.members[k] == if Fold(child) == k then x else members[k];
  }

  lemma {:induction false} ReplacesAnother(n: Value, child: string, x: Value, s: Token, d: Value, path: Path)
    requires HasStep(n, s) && d != StepTo(n, s) && DetachedValue(n, child).Some?
    requires AddedValue(DetachedValue(n, child).value, child, x).Some?
    requires path != [] && Has(d, path) && Get(d, path) == x
    ensures AddedValue(DetachedValue(n, child).value, child, x).value != StepSet(n, s, d)
  {
    NoPartOfItself(d, path);
    var a, b := AddedValue(DetachedValue(n, child).value, child, x).value, StepSet(n, s, d);
    match n
    case VArray(items) =>
      var j := s.index;
      assert b.items[j] == d;
      NoIndex();
      var i := DecodedIndex(child).value;
      assert a.items == items[i := x];
    case VObject(members) =>
      var k := Fold(s.key);
      assert b.members[k] == d && a.members[k] == if Fold(child) == k then x else members[k];
  }

  lemma {:induction false} NoIndex()
    ensures DecodedIndex("-").None?
  {
  }

  // What the intended effect makes of the element where the walk stops.
  lemma {:induction false} Above(v: Value, parent: Path, k: nat, y: Value, e: Value) returns (d: Value)
    requires k + 1 < |parent| && Has(v, parent)
    ensures var p, s, rest := parent[..k + 1], parent[k + 1], parent[k + 2..];
            && Has(v, p) && HasStep(Get(v, p), s) && Has(d, rest) && Get(d, rest) == y
            && (Set(v, parent, y) != v ==> d != StepTo(Get(v, p), s))
            && (Set(v, p, e) == Set(v, parent, y) ==> e == StepSet(Get(v, p), s, d))
  {
    var p, s, rest := parent[..k + 1], parent[k + 1], parent[k + 2..];
    assert parent == p + parent[k + 1..] && parent[k + 1..][1..] == rest;
    Through(v, p, parent[k + 1..], y);
    var n := Get(v, p);
    d := Set(StepTo(n, s), rest, y);
    GetSet(StepTo(n, s), rest, y);
    GetSet(v, p, e);
    GetSet(v, p, StepSet(n, s, d));
    if d == StepTo(n, s) {
      StepSame(n, s);
      SetSame(v, p);
    }
  }

  lemma {:induction false} StepSame(n: Value, s: Token)
    requires HasStep(n, s)
    ensures StepSet(n, s, StepTo(n, s)) == n
  {
    SetSame(n, [s]);
    assert [s][1..] == [];
  }

  lemma {:induction false} FirstArrayStep(parent: Path) returns (k: nat)
    requires (forall i :: 0 <= i < |parent| ==> Plain(parent[i])) && !Walkable(parent)
    ensures StopsAt(parent, k)
  {
    k := 0;
    while !parent[k].Index?
      invariant k + 1 < |parent| && forall i :: 0 <= i < k ==> parent[i].Name?
      decreases |parent| - k
    {
      k := k + 1;
    }
  }

  // A patch about something below an element of an array, unless it is a child of it.
  ghost predicate Missing(doc: Json, patch: Json, parent: Path, t: Token, k: nat) {
    && Tidy(doc, false) && StopsAt(parent, k) && Plain(t)
    && Field(patch, "path", false) == Some(String(PathString(parent + [t])))
    && (Field(patch, "value", false).Some? ==> Tidy(Field(patch, "value", false).value, false))
  }

  // The document with the intended effect is not the one with the actual effect.
  lemma {:induction false} RemoveMisses(doc: Json, patch: Json, parent: Path, t: Token, k: nat)
    requires Missing(doc, patch, parent, t, k) && OperationOf(patch, false) == REMOVE
    ensures !RightStep(doc, patch, parent + [t])
  {
    hide Tidy, Meaning, DetachedAt, DetachedValue, Splits, PathString, StepRemoved, Walkable;
    if RightStep(doc, patch, parent + [t]) {
      var v, p, child := Meaning(doc, false), parent[..k + 1], TokenText(t);
      assert (parent + [t])[..|parent|] == parent && Has(v, parent);
      NotRoot(parent, t);
      var y := StepRemoved(Get(v, parent), t);
      var e := DetachedAt(doc, PathString(parent + [t]), false);
      assert e.Some?;
      Along(v, parent, k);
      DetachesHigh(doc, parent, k, t);
      var d := Above(v, parent, k, y, DetachedValue(Get(v, p), child).value);
      RemovesAnother(Get(v, p), child, parent[k + 1], d);
    }
  }

  lemma {:induction false} AddMisses(doc: Json, patch: Json, parent: Path, t: Token, k: nat)
    requires Missing(doc, patch, parent, t, k) && OperationOf(patch, false) == ADD
    ensures !RightStep(doc, patch, parent + [t])
  {
    hide Tidy, Meaning, AddedAt, AddedValue, Splits, PathString, StepAdded, Walkable;
    if RightStep(doc, patch, parent + [t]) {
      var v, p, child := Meaning(doc, false), parent[..k + 1], TokenText(t);
      var x := Field(patch, "value", false).value;
      assert (parent + [t])[..|parent|] == parent && Has(v, parent);
      NotRoot(parent, t);
      var n, w := Get(v, parent), Meaning(x, false);
      Along(v, parent, k);
      AddsHigh(doc, parent, k, t, x);
      var d := Above(v, parent, k, StepAdded(n, t, w), AddedValue(Get(v, p), child, w).value);
      var at := AddedThere(n, t, w);
      ThroughBack(d, parent[k + 2..], [at]);
      AddsAnother(Get(v, p), child, w, parent[k + 1], d, parent[k + 2..] + [at]);
    }
  }

  lemma {:induction false} ReplaceMisses(doc: Json, patch: Json, parent: Path, t: Token, k: nat)
    requires Missing(doc, patch, parent, t, k) && OperationOf(patch, false) == REPLACE
    ensures !RightStep(doc, patch, parent + [t])
  {
    hide Tidy, Meaning, DetachedAt, AddedAt, DetachedValue, AddedValue, Splits, PathString, StepSet, Walkable;
    if RightStep(doc, patch, parent + [t]) {
      var v, p, child := Meaning(doc, false), parent[..k + 1], TokenText(t);
      var x := Field(patch, "value", false).value;
      assert (parent + [t])[..|parent|] == parent && Has(v, parent);
      NotRoot(parent, t);
      var n, w := Get(v, parent), Meaning(x, false);
      Along(v, parent, k);
      DetachesHigh(doc, parent, k, t);
      var without := DetachedAt(doc, PathString(parent + [t]), false).value.doc;
      var e := DetachedValue(Get(v, p), child).value;
      GetSet(v, p, e);
      AddsHigh(without, parent, k, t, x);
      SetSet(v, p, e, AddedValue(e, child, w).value);
      var d := Above(v, parent, k, StepSet(n, t, w), AddedValue(e, child, w).value);
      SetThere(n, t, w);
      ThroughBack(d, parent[k + 2..], [t]);
      ReplacesAnother(Get(v, p), child, w, parent[k + 1], d, parent[k + 2..] + [t]);
    }
  }

  lemma {:induction false} NotRoot(parent: Path, t: Token)
    ensures PathString(parent + [t]) != ""
  {
  }

  lemma {:induction false} Along(v: Value, parent: Path, k: nat)
    requires Has(v, parent) && k < |parent|
    ensures Has(v, parent[..k + 1])
  {
    assert parent == parent[..k + 1] + parent[k + 1..];
    Through(v, parent[..k + 1], parent[k + 1..], v);
  }

  // Where the new child is.
  lemma {:induction false} AddedThere(n: Value, t: Token, w: Value) returns (at: Token)
    requires CanAdd(n, t)
    ensures Has(StepAdded(n, t, w), [at]) && Get(StepAdded(n, t, w), [at]) == w
  {
    at := if t.Name? && n.VArray? then Index(|n.items|) else t;
    assert [at][1..] == [];
    assert HasStep(StepAdded(n, t, w), at) && StepTo(StepAdded(n, t, w), at) == w;
  }

  lemma {:induction false} SetThere(n: Value, t: Token, w: Value)
    requires HasStep(n, t)
    ensures Has(StepSet(n, t, w), [t]) && Get(StepSet(n, t, w), [t]) == w
  {
    assert [t][1..] == [];
  }

  // A patch whose path the walk cannot follow never changes the document as it is meant to.
  lemma {:induction false} Unfollowed(doc: Json, patch: Json, target: Path)
    requires Tidy(doc, false) && forall i :: 0 <= i < |target| ==> Plain(target[i])
    requires Field(patch, "path", false) == Some(String(PathString(target)))
    requires Field(patch, "value", false).Some? ==> Tidy(Field(patch, "value", false).value, false)
    requires !Followed(target)
    ensures !RightStep(doc, patch, target)
  {
    hide Tidy, Applied, PathString, Meaning;
    var parent, t := target[..|target| - 1], target[|target| - 1];
    assert target == parent + [t];
    var k := FirstArrayStep(parent);
    match OperationOf(patch, false)
    case REMOVE => RemoveMisses(doc, patch, parent, t, k);
    case ADD => AddMisses(doc, patch, parent, t, k);
    case REPLACE => ReplaceMisses(doc, patch, parent, t, k);
    case _ =>
  }

  // ----- The run is right at every patch exactly if no difference is out of reach

  lemma {:induction false} RightRunIsFollowed(doc: Json, patches: seq<Json>, targets: seq<Path>)
    requires Tidy(doc, false) && Addresses(patches, targets) && RightRun(doc, patches, targets)
    ensures AllFollowed(targets)
    decreases |patches|
  {
    hide IsAbout, Applied, Followed;
    if patches != [] {
      var patch, target := patches[0], targets[0];
      assert IsAbout(patch, target);
      if !Followed(target) {
        MustFollow(doc, patch, target);
      }
      var p, t := patches[1..], targets[1..];
      assert forall i :: 0 <= i < |p| ==> p[i] == patches[i + 1] && t[i] == targets[i + 1];
      RightRunIsFollowed(Applied(doc, patch, false).doc, p, t);
      assert targets == [target] + t;
      AllFollowedJoin([target], t);
    }
  }

  lemma {:induction false} MustFollow(doc: Json, patch: Json, target: Path)
    requires Tidy(doc, false) && IsAbout(patch, target) && RightStep(doc, patch, target)
    ensures Followed(target)
  {
    hide Tidy, RightStep, Followed, PathString, Field;
    if !Followed(target) {
      Unfollowed(doc, patch, target);
    }
  }

  lemma {:induction false} RightRunIffWithinReach(doc: Json, from: Json, to: Json)
    requires Tidy(from, false) && Tidy(to, false) && Addressable(from) && Addressable(to)
    requires Tidy(doc, false) && Alike(doc, from, false)
    ensures RightRun(doc, Diff("", from, to, false), Targets([], from, to)) <==> WithinReach(from, to, 2)
  {
    hide Tidy, Alike, RightRun, AllFollowed, WithinReach, Addresses;
    ReachIsExact(from, to);
    if WithinReach(from, to, 2) {
      PatchRoundTrip.PatchRoundTrip(doc, from, to);
    }
    if RightRun(doc, Diff("", from, to, false), Targets([], from, to)) {
      RightRunIsFollowed(doc, Diff("", from, to, false), Targets([], from, to));
    }
  }
}
