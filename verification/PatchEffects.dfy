/**
  What one remove, add or replace patch does to the meaning of a document: it changes
  exactly the part its path names, as RFC 6902 asks, if the pointer walk can follow the
  path. The effects are those on a container, lifted along the path to the whole
  document.
 */
module PatchEffects {
  import opened CStrings
  import opened Json
  import opened Pointers
  import opened PointerSearch
  import opened Paths
  import opened ApplyPatch
  import opened PatchDiff

  // ----- Taking a patch and its path apart

  lemma {:induction false} PatchFields(op: string, path: string, value: Option<Json>)
    ensures Field(Patch(op, path, value), "op", false) == Some(String(op))
    ensures Field(Patch(op, path, value), "path", false) == Some(String(path))
    ensures Field(Patch(op, path, value), "value", false) == value
  {
    var ms := Patch(op, path, value).members;
    assert |Key("op", false)| == 2 && |Key("path", false)| == 4 && |Key("value", false)| == 5;
    assert ms[0] == Member("op", String(op)) && ms[1] == Member("path", String(path));
    FoundAt(ms, "op", 0);
    FoundAt(ms, "path", 1);
    match value
    case None => assert |ms| == 2;
    case Some(v) =>
      assert ms[2] == Member("value", v);
      FoundAt(ms, "value", 2);
  }

  lemma {:induction false} FoundAt(ms: seq<Member>, name: string, i: nat)
    requires i < |ms| && ms[i].key == name
    requires forall j :: 0 <= j < i ==> Key(ms[j].key, false) != Key(name, false)
    ensures FindMember(ms, name, false) == Some(i)
  {
  }

  lemma {:induction false} LastSlashIs(path: string, k: nat)
    requires k < |path| && path[k] == '/' && '/' !in path[k + 1..]
    ensures LastSlash(path) == Some(k)
    decreases |path|
  {
  }

  // A path text as apply_patch splits it.
  ghost predicate Splits(path: string, parent: string, child: string) {
    && LastSlash(path) == Some(|parent|)
    && path[..|parent|] == parent
    && Decoded(path[|parent| + 1..]) == child
  }

  lemma {:induction false} SplitPath(parent: Path, t: Token)
    requires Plain(t)
    ensures Splits(PathString(parent + [t]), PathString(parent), TokenText(t))
  {
    PathStringSnoc(parent, t);
    if t.Index? {
      DigitsSlashFree(t.index);
    }
    SplitText(PathString(parent), TokenText(t));
  }

  lemma {:induction false} SplitText(parent: string, child: string)
    requires '/' !in child && '~' !in child
    ensures Splits(parent + "/" + child, parent, child)
  {
    var p := parent + "/" + child;
    assert p[|parent| + 1..] == child;
    LastSlashIs(p, |parent|);
    DecodedPlain(child, 0);
  }

  // ----- Removing a child

  ghost function StepRemoved(v: Value, t: Token): Value
    requires HasStep(v, t)
  {
    match t
    case Name(key) => VObject(v.members - {Fold(key)})
    case Index(i) => VArray(Without(v.items, i))
  }

  lemma {:induction false} ChildDetachedEffect(node: Json, t: Token)
    requires Tidy(node, false) && Plain(t) && HasStep(Meaning(node, false), t)
    ensures var d := ChildDetached(node, TokenText(t));
            d.Some? && Tidy(d.value.doc, false) && Meaning(d.value.doc, false) == StepRemoved(Meaning(node, false), t)
  {
    match t
    case Index(i) =>
      assert Decimal(i) + "" == Decimal(i);
      IndexOfDecimal(i, "");
      WithoutItem(node.items, i);
    case Name(key) =>
      FindMeaning(node.members, key, false);
      MeaningWithout(node.members, false, FindMember(node.members, key, false).value);
  }

  lemma {:induction false} WithoutItem(items: seq<Json>, i: nat)
    requires i < |items| && Tidy(Array(items), false)
    ensures Tidy(Array(Without(items, i)), false)
    ensures Meaning(Array(Without(items, i)), false) == VArray(Without(Meaning(Array(items), false).items, i))
  {
  }

  // detach_path, once the parent is found.
  lemma {:induction false} DetachedIs(doc: Json, path: string, parent: string, child: string, pos: Position)
    requires Splits(path, parent, child) && Resolve(doc, parent, false) == Some(pos)
    ensures DetachedAt(doc, path, false)
         == match ChildDetached(At(doc, pos), child)
            case None => None
            case Some(d) => Some(Detached(d.item, Put(doc, pos, d.doc)))
  {
  }

  lemma {:induction false} DetachEffect(doc: Json, parent: Path, t: Token, path: string)
    requires Tidy(doc, false) && Walkable(parent) && Plain(t)
    requires Splits(path, PathString(parent), TokenText(t))
    requires Has(Meaning(doc, false), parent) && HasStep(Get(Meaning(doc, false), parent), t)
    ensures var d := DetachedAt(doc, path, false);
            && d.Some? && Tidy(d.value.doc, false)
            && Meaning(d.value.doc, false)
               == Set(Meaning(doc, false), parent, StepRemoved(Get(Meaning(doc, false), parent), t))
  {
    hide DetachedAt, Splits, Resolve, ChildDetached, Tidy, Has, Get;
    var pos := Locate(doc, parent);
    LeadsTo(doc, parent, pos);
    DetachedIs(doc, path, PathString(parent), TokenText(t), pos);
    ChildDetachedEffect(At(doc, pos), t);
    Replaces(doc, parent, pos, ChildDetached(At(doc, pos), TokenText(t)).value.doc);
  }

  // ----- Adding a child

  // What adding at a token makes of a container.
  ghost function StepAdded(v: Value, t: Token, x: Value): Value
    requires CanAdd(v, t)
  {
    match t
    case Name(key) => if v.VObject? then VObject(v.members[Fold(key) := x]) else VArray(v.items + [x])
    case Index(i) => VArray(Inserted(v.items, i, x))
  }

  // The name "-" stands for the end of an array.
  ghost predicate CanAdd(v: Value, t: Token) {
    match t
    case Name(key) => v.VObject? || (v.VArray? && key == "-")
    case Index(i) => v.VArray? && i <= |v.items|
  }

  lemma {:induction false} ChildAddedEffect(node: Json, t: Token, x: Json)
    requires Tidy(node, false) && Tidy(x, false) && Plain(t) && CanAdd(Meaning(node, false), t)
    ensures var out := ChildAdded(node, TokenText(t), x);
            && out.status == 0 && Tidy(out.doc, false)
            && Meaning(out.doc, false) == StepAdded(Meaning(node, false), t, Meaning(x, false))
  {
    match node
    case Object(members) =>
      WithMemberMeaning(members, t.key, x);
    case Array(items) =>
      match t {
        case Index(i) =>
          assert Decimal(i) + "" == Decimal(i);
          IndexOfDecimal(i, "");
          assert Decimal(i)[0] != "-"[0];
          InsertedItem(items, i, x);
        case Name(_) =>
          AppendedItem(items, x);
      }
  }

  lemma {:induction false} WithMemberMeaning(members: seq<Member>, key: string, v: Json)
    requires TidyMembers(members, false) && Tidy(v, false)
    ensures TidyMembers(WithMember(members, key, v), false)
    ensures MembersMeaning(WithMember(members, key, v), false)
         == MembersMeaning(members, false)[Fold(key) := Meaning(v, false)]
  {
    hide FindMember, TidyMembers, Meaning, Tidy, Fold;
    TidyIsDistinct(members);
    FindMeaning(members, key, false);
    match FindMember(members, key, false)
    case Some(i) =>
      TidyWithout(members, i);
      TidyAppend(Without(members, i), Member(key, v));
      var m := MembersMeaning(members, false);
      assert (m - {Fold(key)})[Fold(key) := Meaning(v, false)] == m[Fold(key) := Meaning(v, false)];
    case None =>
      TidyAppend(members, Member(key, v));
  }

  lemma {:induction false} TidyIsDistinct(ms: seq<Member>)
    requires TidyMembers(ms, false)
    ensures Distinct(ms, false)
  {
  }

  lemma {:induction false} TidyWithout(ms: seq<Member>, i: nat)
    requires TidyMembers(ms, false) && i < |ms|
    ensures TidyMembers(Without(ms, i), false)
    ensures MembersMeaning(Without(ms, i), false) == MembersMeaning(ms, false) - {Fold(ms[i].key)}
  {
    hide Tidy, Distinct;
    MeaningWithout(ms, false, i);
    var rest := Without(ms, i);
    assert forall j :: 0 <= j < |rest| ==> rest[j] == ms[if j < i then j else j + 1];
  }

  lemma {:induction false} TidyAppend(ms: seq<Member>, m: Member)
    requires TidyMembers(ms, false) && Tidy(m.value, false) && Fold(m.key) !in MembersMeaning(ms, false)
    ensures TidyMembers(ms + [m], false)
    ensures MembersMeaning(ms + [m], false) == MembersMeaning(ms, false)[Fold(m.key) := Meaning(m.value, false)]
  {
    hide Tidy, Distinct;
    MeaningAppend(ms, false, m);
    var all := ms + [m];
    assert forall j :: 0 <= j < |all| ==> all[j] == if j < |ms| then ms[j] else m;
  }

  lemma {:induction false} InsertedItem(items: seq<Json>, i: nat, v: Json)
    requires i <= |items| && Tidy(Array(items), false) && Tidy(v, false)
    ensures Tidy(Array(Inserted(items, i, v)), false)
    ensures Meaning(Array(Inserted(items, i, v)), false)
         == VArray(Inserted(Meaning(Array(items), false).items, i, Meaning(v, false)))
  {
  }

  lemma {:induction false} AppendedItem(items: seq<Json>, v: Json)
    requires Tidy(Array(items), false) && Tidy(v, false)
    ensures Tidy(Array(items + [v]), false)
    ensures Meaning(Array(items + [v]), false) == VArray(Meaning(Array(items), false).items + [Meaning(v, false)])
  {
  }

  lemma {:induction false} AddEffect(doc: Json, parent: Path, t: Token, x: Json, path: string)
    requires Tidy(doc, false) && Tidy(x, false) && Walkable(parent) && Plain(t)
    requires Splits(path, PathString(parent), TokenText(t))
    requires Has(Meaning(doc, false), parent) && CanAdd(Get(Meaning(doc, false), parent), t)
    ensures var out := AddedAt(doc, path, x, false);
            && out.status == 0 && Tidy(out.doc, false)
            && Meaning(out.doc, false)
               == Set(Meaning(doc, false), parent, StepAdded(Get(Meaning(doc, false), parent), t, Meaning(x, false)))
  {
    var pos := Locate(doc, parent);
    LeadsTo(doc, parent, pos);
    ChildAddedEffect(At(doc, pos), t, x);
    Replaces(doc, parent, pos, ChildAdded(At(doc, pos), TokenText(t), x).doc);
  }

  // ----- Whole patches

  lemma {:induction false} RunRemove(doc: Json, path: string)
    requires path != ""
    ensures Applied(doc, Patch("remove", path, None), false)
         == match DetachedAt(doc, path, false)
            case None => Outcome(13, doc)
            case Some(d) => Outcome(0, d.doc)
  {
    PatchFields("remove", path, None);
  }

  lemma {:induction false} RunAdd(doc: Json, path: string, x: Json)
    requires path != ""
    ensures Applied(doc, Patch("add", path, Some(x)), false) == AddedAt(doc, path, x, false)
  {
    PatchFields("add", path, Some(x));
  }

  lemma {:induction false} RunReplace(doc: Json, path: string, x: Json)
    ensures Applied(doc, Patch("replace", path, Some(x)), false)
         == if path == "" then Outcome(0, x)
            else match DetachedAt(doc, path, false)
                 case None => Outcome(13, doc)
                 case Some(d) => AddedAt(d.doc, path, x, false)
  {
    PatchFields("replace", path, Some(x));
  }

  lemma {:induction false} RemoveApplied(doc: Json, parent: Path, t: Token)
    requires Tidy(doc, false) && Walkable(parent) && Plain(t)
    requires Has(Meaning(doc, false), parent) && HasStep(Get(Meaning(doc, false), parent), t)
    ensures var out := Applied(doc, Patch("remove", PathString(parent + [t]), None), false);
            && out.status == 0 && Tidy(out.doc, false)
            && Meaning(out.doc, false)
               == Set(Meaning(doc, false), parent, StepRemoved(Get(Meaning(doc, false), parent), t))
  {
    var path := PathString(parent + [t]);
    SplitPath(parent, t);
    RunRemove(doc, path);
    DetachEffect(doc, parent, t, path);
  }

  lemma {:induction false} AddApplied(doc: Json, parent: Path, t: Token, x: Json)
    requires Tidy(doc, false) && Tidy(x, false) && Walkable(parent) && Plain(t)
    requires Has(Meaning(doc, false), parent) && CanAdd(Get(Meaning(doc, false), parent), t)
    ensures var out := Applied(doc, Patch("add", PathString(parent + [t]), Some(x)), false);
            && out.status == 0 && Tidy(out.doc, false)
            && Meaning(out.doc, false)
               == Set(Meaning(doc, false), parent, StepAdded(Get(Meaning(doc, false), parent), t, Meaning(x, false)))
  {
    var path := PathString(parent + [t]);
    SplitPath(parent, t);
    RunAdd(doc, path, x);
    AddEffect(doc, parent, t, x, path);
  }

  // Replacing detaches the old item and adds the new one in its place.
  lemma {:induction false} ReplaceApplied(doc: Json, path: Path, x: Json)
    requires Tidy(doc, false) && Tidy(x, false) && Has(Meaning(doc, false), path)
    requires path != [] ==> Walkable(path[..|path| - 1]) && Plain(path[|path| - 1])
    ensures var out := Applied(doc, Patch("replace", PathString(path), Some(x)), false);
            && out.status == 0 && Tidy(out.doc, false)
            && Meaning(out.doc, false) == Set(Meaning(doc, false), path, Meaning(x, false))
  {
    hide Tidy, Splits, Applied, AddedAt, DetachedAt;
    RunReplace(doc, PathString(path), x);
    if path != [] {
      var parent, t := path[..|path| - 1], path[|path| - 1];
      assert path == parent + [t];
      HasParent(Meaning(doc, false), parent, t);
      Extend(Meaning(doc, false), parent, t);
      SplitPath(parent, t);
      ReplaceEffect(doc, parent, t, x, PathString(path));
    }
  }

  lemma {:induction false} HasParent(v: Value, parent: Path, t: Token)
    requires Has(v, parent + [t])
    ensures Has(v, parent)
  {
    if parent != [] {
      assert (parent + [t])[1..] == parent[1..] + [t];
      HasParent(StepTo(v, parent[0]), parent[1..], t);
    }
  }

  lemma {:induction false} RemoveThenAdd(v: Value, t: Token, x: Value)
    requires HasStep(v, t)
    ensures CanAdd(StepRemoved(v, t), t)
    ensures StepAdded(StepRemoved(v, t), t, x) == StepSet(v, t, x)
  {
    match t
    case Name(key) => assert (v.members - {Fold(key)})[Fold(key) := x] == v.members[Fold(key) := x];
    case Index(i) => assert Inserted(Without(v.items, i), i, x) == v.items[i := x];
  }

  lemma {:induction false} ReplaceEffect(doc: Json, parent: Path, t: Token, x: Json, path: string)
    requires Tidy(doc, false) && Tidy(x, false) && Walkable(parent) && Plain(t)
    requires Splits(path, PathString(parent), TokenText(t))
    requires Has(Meaning(doc, false), parent) && HasStep(Get(Meaning(doc, false), parent), t)
    ensures var d := DetachedAt(doc, path, false);
            && d.Some?
            && var out := AddedAt(d.value.doc, path, x, false);
            && out.status == 0 && Tidy(out.doc, false)
            && Meaning(out.doc, false)
               == Set(Meaning(doc, false), parent, StepSet(Get(Meaning(doc, false), parent), t, Meaning(x, false)))
  {
    var v, n := Meaning(doc, false), Get(Meaning(doc, false), parent);
    DetachEffect(doc, parent, t, path);
    GetSet(v, parent, StepRemoved(n, t));
    RemoveThenAdd(n, t, Meaning(x, false));
    AddEffect(DetachedAt(doc, path, false).value.doc, parent, t, x, path);
    SetSet(v, parent, StepRemoved(n, t), StepSet(n, t, Meaning(x, false)));
  }
}
