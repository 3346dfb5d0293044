/**
  The status of every patch, whether its paths lead anywhere or not, told on the meaning
  of the document and on lists of tokens.
 */
module PatchStatuses {
  import opened CStrings
  import opened Json
  import opened CompareJson
  import opened Pointers
  import opened PointerSearch
  import opened Paths
  import opened ApplyPatch
  import opened PatchDiff
  import opened PatchEffects
  import opened PatchOperations
  import opened PatchDecides

  // ----- Where the pointer walk ends

  // The walk leads somewhere. An array takes any token for an index that is read as one,
  // and ends the walk, unless that token is empty; an object has to have the member.
  ghost predicate Reaches(v: Value, path: Path, cs: bool) {
    path == [] ||
    var t := TokenText(path[0]);
    match v
    case VObject(members) => Key(t, cs) in members && Reaches(members[Key(t, cs)], path[1..], cs)
    case VArray(items) =>
      (match DecodedIndex(t)
       case None => false
       case Some(i) => i < |items| && (t == "" ==> Reaches(items[i], path[1..], cs)))
    case _ => false
  }

  ghost function Reached(v: Value, path: Path, cs: bool): Value
    requires Reaches(v, path, cs)
  {
    if path == [] then v
    else
      var t := TokenText(path[0]);
      match v
      case VObject(members) => Reached(members[Key(t, cs)], path[1..], cs)
      case VArray(items) =>
        var i := DecodedIndex(t).value;
        if t == "" then Reached(items[i], path[1..], cs) else items[i]
  }

  lemma {:induction false} PlainText(t: Token)
    requires Plain(t)
    ensures '/' !in TokenText(t) && '~' !in TokenText(t)
  {
    if t.Index? {
      DigitsSlashFree(t.index);
    }
  }

  lemma {:induction false} SameRun(t: string, below: string, position: nat, index: nat)
    requires '/' !in t && position <= |t| && (below == "" || below[0] == '/')
    ensures IndexRun(t + below, position, index) == IndexRun(t, position, index)
    decreases |t| - position
  {
    var p := t + below;
    if position < |t| && p[position] >= '0' && p[0] <= '9' {
      SameRun(t, below, position + 1, Wrap(10 * index + (p[position] as int - '0' as int)));
    }
  }

  // What follows a token does not change the index that it is taken for.
  lemma {:induction false} SameIndex(t: string, below: string)
    requires '/' !in t && (below == "" || below[0] == '/')
    ensures DecodedIndex(t + below) == DecodedIndex(t)
  {
    SameRun(t, below, 0, 0);
    var p := t + below;
    assert forall i :: 0 <= i < |t| ==> p[i] == t[i] && t[i] != '/';
    assert below != "" ==> p[|t|] == '/';
  }

  lemma {:induction false} StartsWithSlash(path: Path)
    ensures PathString(path) == "" || PathString(path)[0] == '/'
  {
  }

  // The walk finds a node exactly if the path leads somewhere, and it is the one there.
  lemma {:induction false} ResolvesIff(doc: Json, path: Path, cs: bool)
    requires Tidy(doc, cs) && PlainPath(path)
    ensures var r := Resolve(doc, PathString(path), cs);
            && (r.Some? <==> Reaches(Meaning(doc, cs), path, cs))
            && (r.Some? ==> Tidy(At(doc, r.value), cs)
                            && Meaning(At(doc, r.value), cs) == Reached(Meaning(doc, cs), path, cs))
    decreases path
  {
    if path != [] {
      var t, rest := TokenText(path[0]), path[1..];
      PlainText(path[0]);
      StartsWithSlash(rest);
      var below := PathString(rest);
      assert PathString(path) == "/" + (t + below);
      match doc
      case Object(ms) => ObjectStep(ms, path, cs);
      case Array(items) => ArrayStep(items, path, cs);
      case _ =>
    }
  }

  lemma {:induction false} ObjectStep(ms: seq<Member>, path: Path, cs: bool)
    requires TidyMembers(ms, cs) && PlainPath(path) && path != []
    ensures var r, v := Resolve(Object(ms), PathString(path), cs), VObject(MembersMeaning(ms, cs));
            && (r.Some? <==> Reaches(v, path, cs))
            && (r.Some? ==> Tidy(At(Object(ms), r.value), cs)
                            && Meaning(At(Object(ms), r.value), cs) == Reached(v, path, cs))
    decreases path, 0
  {
    hide Resolve, Tidy, Meaning;
    var t, below := TokenText(path[0]), PathString(path[1..]);
    PlainText(path[0]);
    StartsWithSlash(path[1..]);
    PlainEncoded(t);
    ResolveObjectStep(ms, t, below, cs);
    NamedByPlain(ms, t, below, cs);
    FindMeaning(ms, t, cs);
    if FindMember(ms, t, cs).Some? {
      ResolvesIff(ms[FindMember(ms, t, cs).value].value, path[1..], cs);
    }
  }

  lemma {:induction false} ArrayStep(items: seq<Json>, path: Path, cs: bool)
    requires Tidy(Array(items), cs) && PlainPath(path) && path != []
    ensures var r, v := Resolve(Array(items), PathString(path), cs), Meaning(Array(items), cs);
            && (r.Some? <==> Reaches(v, path, cs))
            && (r.Some? ==> Tidy(At(Array(items), r.value), cs)
                            && Meaning(At(Array(items), r.value), cs) == Reached(v, path, cs))
    decreases path, 0
  {
    var t, below := TokenText(path[0]), PathString(path[1..]);
    PlainText(path[0]);
    StartsWithSlash(path[1..]);
    SameIndex(t, below);
    var p := t + below;
    assert ("/" + p)[1..] == p;
    var i := DecodedIndex(t);
    if i.Some? && i.value < |items| {
      if t == "" {
        EntersFirst(items, below, cs);
        ResolvesIff(items[i.value], path[1..], cs);
      } else {
        StopsAtElement(items, t, below, cs);
      }
    } else {
      assert Resolve(Array(items), "/" + p, cs).None?;
    }
  }

  // An empty token is read as the index 0, and what is behind it goes on from there.
  lemma {:induction false} EntersFirst(items: seq<Json>, below: string, cs: bool)
    requires (below == "" || below[0] == '/') && DecodedIndex("" + below) == Some(0) && items != []
    ensures var r, inner := Resolve(Array(items), "/" + ("" + below), cs), Resolve(items[0], below, cs);
            && r.Some? == inner.Some?
            && (r.Some? ==> At(Array(items), r.value) == At(items[0], inner.value))
  {
    hide DecodedIndex;
    assert "" + below == below && ("/" + below)[1..] == below;
  }

  // Behind an element the walk stands in front of the index that it has just read.
  lemma {:induction false} StopsAtElement(items: seq<Json>, t: string, below: string, cs: bool)
    requires t != "" && '/' !in t && DecodedIndex(t + below) == DecodedIndex(t)
    requires DecodedIndex(t).Some? && DecodedIndex(t).value < |items|
    ensures Resolve(Array(items), "/" + (t + below), cs) == Some([DecodedIndex(t).value])
    ensures At(Array(items), [DecodedIndex(t).value]) == items[DecodedIndex(t).value]
  {
    hide DecodedIndex;
    var p, i := t + below, DecodedIndex(t).value;
    assert ("/" + p)[1..] == p && CharAt(p, 0) == t[0] != '/';
    assert Resolve(items[i], p, cs) == Some([]) && [i] + [] == [i];
  }

  // ----- Patches without what every patch needs

  ghost predicate Says(patch: Json, name: string, text: string, cs: bool) {
    Field(patch, name, cs) == Some(String(text))
  }

  ghost predicate SaysNothing(patch: Json, name: string, cs: bool) {
    match Field(patch, name, cs)
    case Some(String(_)) => false
    case _ => true
  }

  lemma {:induction false} OnlyObjectsSay(patch: Json, name: string, text: string, cs: bool)
    requires Says(patch, name, text, cs)
    ensures patch.Object?
  {
  }

  lemma {:induction false} MalformedStatus(doc: Json, patch: Json, cs: bool)
    requires Readable(patch, cs)
    ensures SaysNothing(patch, "path", cs) ==> Applied(doc, patch, cs) == Outcome(2, doc)
    ensures !SaysNothing(patch, "path", cs)
            && (SaysNothing(patch, "op", cs)
                || Field(patch, "op", cs).value.text !in {"add", "remove", "replace", "move", "copy", "test"}) ==>
              Applied(doc, patch, cs) == Outcome(3, doc)
  {
  }

  // A field of a patch is what the object says under that name, in the case mode.
  lemma {:induction false} FieldIsLookup(patch: Json, name: string, cs: bool)
    requires patch.Object? && Tidy(patch, cs)
    ensures var f, m := Field(patch, name, cs), Meaning(patch, cs).members;
            && (f.Some? <==> Key(name, cs) in m)
            && (f.Some? ==> Meaning(f.value, cs) == m[Key(name, cs)])
  {
    FindMeaning(patch.members, name, cs);
  }

  // A path without a slash has no parent.
  lemma {:induction false} SlashlessStatus(doc: Json, patch: Json, path: string, cs: bool)
    requires Says(patch, "path", path, cs) && path != "" && '/' !in path
    requires Field(patch, "from", cs).None? && Field(patch, "value", cs).Some?
    ensures Readable(patch, cs)
    ensures Says(patch, "op", "add", cs) ==> Applied(doc, patch, cs) == Outcome(9, doc)
    ensures Says(patch, "op", "remove", cs) || Says(patch, "op", "replace", cs) ==>
              Applied(doc, patch, cs) == Outcome(13, doc)
  {
    hide Field, Alike, Compared, Resolve;
    OnlyObjectsSay(patch, "path", path, cs);
    assert LastSlash(path).None?;
  }

  // ----- Test

  // A test has status 0 if its path leads to something that compares equal to its value,
  // and 1 in every other case; it changes nothing that the document means, and nothing
  // at all if there is nothing to compare.
  lemma {:induction false} TestStatus(doc: Json, patch: Json, path: Path, cs: bool)
    requires Tidy(doc, cs) && PlainPath(path)
    requires Says(patch, "op", "test", cs) && Says(patch, "path", PathString(path), cs)
    requires Field(patch, "value", cs).Some? ==> Tidy(Field(patch, "value", cs).value, cs)
    ensures Readable(patch, cs)
    ensures var v, out, x := Meaning(doc, cs), Applied(doc, patch, cs), Field(patch, "value", cs);
            && (out.status == 0 || out.status == 1)
            && Tidy(out.doc, cs) && Meaning(out.doc, cs) == v
            && (x.None? || !Reaches(v, path, cs) ==> out == Outcome(1, doc))
            && (x.Some? && Reaches(v, path, cs) ==>
                  && (out.status == 0 ==> Reached(v, path, cs) == Meaning(x.value, cs))
                  && (!cs && Reached(v, path, cs) == Meaning(x.value, cs) ==> out.status == 0))
  {
    hide Tidy, Meaning, Alike, Compared, Resolve, Reaches, Reached, PathString, Field, Put;
    OnlyObjectsSay(patch, "op", "test", cs);
    ResolvesIff(doc, path, cs);
    var x, pos := Field(patch, "value", cs), Resolve(doc, PathString(path), cs);
    FailingTestKeepsMeaning(doc, patch, cs);
    if x.Some? && pos.Some? {
      if Alike(At(doc, pos.value), x.value, cs) {
        AlikeMeansEqual(At(doc, pos.value), x.value, cs);
      }
      if !cs {
        AlikeIsEqualMeaning(At(doc, pos.value), x.value);
      }
    }
  }

  // ----- Adding

  // Where the parent is missing the status is 9.
  ghost function AddStatusAt(v: Value, parent: Path, t: Token, cs: bool): int {
    if Reaches(v, parent, cs) then AddStatus(Reached(v, parent, cs), TokenText(t)) else 9
  }

  lemma {:induction false} ChildAddedStatus(node: Json, child: string, x: Json, cs: bool)
    ensures ChildAdded(node, child, x).status == AddStatus(Meaning(node, cs), child)
  {
  }

  lemma {:induction false} AddedStatus(doc: Json, parent: Path, t: Token, x: Json, cs: bool)
    requires Tidy(doc, cs) && PlainPath(parent) && Plain(t)
    ensures var out := AddedAt(doc, PathString(parent + [t]), x, cs);
            out.status == AddStatusAt(Meaning(doc, cs), parent, t, cs) && (out.status != 0 ==> out.doc == doc)
  {
    hide Tidy, Meaning, Resolve, Reaches, Reached, PathString, ChildAdded, AddStatus;
    SplitPath(parent, t);
    ResolvesIff(doc, parent, cs);
    var pos := Resolve(doc, PathString(parent), cs);
    AddFailureKeeps(doc, PathString(parent + [t]), x, cs);
    if pos.Some? {
      ChildAddedStatus(At(doc, pos.value), TokenText(t), x, cs);
    }
  }

  // An addition has the status of adding where its path leads, or 7 without a value. If
  // that is not 0, nothing changes.
  lemma {:induction false} AddPatchStatus(doc: Json, patch: Json, parent: Path, t: Token, cs: bool)
    requires Tidy(doc, cs) && PlainPath(parent) && Plain(t)
    requires Says(patch, "op", "add", cs) && Says(patch, "path", PathString(parent + [t]), cs)
    ensures Readable(patch, cs)
    ensures var out := Applied(doc, patch, cs);
            && out.status == (if Field(patch, "value", cs).None? then 7
                              else AddStatusAt(Meaning(doc, cs), parent, t, cs))
            && (out.status != 0 ==> out.doc == doc)
  {
    hide Tidy, Meaning, AddedAt, PathString, AddStatusAt, Field, Alike, Compared;
    OnlyObjectsSay(patch, "op", "add", cs);
    SlashFirst(parent, t);
    var x := Field(patch, "value", cs);
    if x.Some? {
      AddedStatus(doc, parent, t, x.value, cs);
    }
  }

  // ----- Removing and replacing

  // Children are taken out by index, or by a name whose case does not matter in either
  // mode.
  ghost predicate HasChild(n: Value, child: string) {
    match n
    case VArray(items) => DecodedIndex(child).Some? && DecodedIndex(child).value < |items|
    case VObject(members) => exists k :: k in members && Fold(k) == Fold(child)
    case _ => false
  }

  ghost predicate CanDetach(v: Value, parent: Path, t: Token, cs: bool) {
    Reaches(v, parent, cs) && HasChild(Reached(v, parent, cs), TokenText(t))
  }

  lemma {:induction false} ChildDetachedIff(node: Json, child: string, cs: bool)
    ensures ChildDetached(node, child).Some? <==> HasChild(Meaning(node, cs), child)
  {
    if node.Object? {
      var ms := node.members;
      var i := FindMember(ms, child, false);
      if i.Some? {
        MeaningKeys(ms, cs, Key(ms[i.value].key, cs));
        FoldIdempotent(ms[i.value].key);
      } else {
        forall k | k in MembersMeaning(ms, cs)
          ensures Fold(k) != Fold(child)
        {
          MeaningKeys(ms, cs, k);
          var n :| 0 <= n < |ms| && Key(ms[n].key, cs) == k;
          FoldIdempotent(ms[n].key);
        }
      }
    }
  }

  lemma {:induction false} DetachedIff(doc: Json, parent: Path, t: Token, cs: bool)
    requires Tidy(doc, cs) && PlainPath(parent) && Plain(t)
    ensures DetachedAt(doc, PathString(parent + [t]), cs).Some? <==> CanDetach(Meaning(doc, cs), parent, t, cs)
  {
    hide Tidy, Meaning, Resolve, Reaches, Reached, PathString, ChildDetached, HasChild;
    SplitPath(parent, t);
    ResolvesIff(doc, parent, cs);
    var pos := Resolve(doc, PathString(parent), cs);
    if pos.Some? {
      ChildDetachedIff(At(doc, pos.value), TokenText(t), cs);
    }
  }

  // A removal or replacement of what is not there has status 13 and changes nothing;
  // another removal has status 0. A replacement without a value has status 7.
  lemma {:induction false} RemovePatchStatus(doc: Json, patch: Json, parent: Path, t: Token, cs: bool)
    requires Tidy(doc, cs) && PlainPath(parent) && Plain(t)
    requires Says(patch, "op", "remove", cs) || Says(patch, "op", "replace", cs)
    requires Says(patch, "path", PathString(parent + [t]), cs)
    ensures Readable(patch, cs)
    ensures var out, there := Applied(doc, patch, cs), CanDetach(Meaning(doc, cs), parent, t, cs);
            && (!there ==> out == Outcome(13, doc))
            && (there && Says(patch, "op", "remove", cs) ==> out.status == 0)
            && (there && Says(patch, "op", "replace", cs) && Field(patch, "value", cs).None? ==> out.status == 7)
  {
    hide Tidy, Meaning, AddedAt, DetachedAt, PathString, CanDetach, Field, Alike, Compared;
    OnlyObjectsSay(patch, "path", PathString(parent + [t]), cs);
    SlashFirst(parent, t);
    DetachedIff(doc, parent, t, cs);
  }

  // ----- Copying and moving

  // A copy has the status of adding where its path leads, or 4 without a source, or 5
  // if the source leads nowhere.
  lemma {:induction false} CopyPatchStatus(doc: Json, patch: Json, source: Path, parent: Path, t: Token, cs: bool)
    requires Tidy(doc, cs) && PlainPath(source) && PlainPath(parent) && Plain(t)
    requires Says(patch, "op", "copy", cs) && Says(patch, "path", PathString(parent + [t]), cs)
    requires Field(patch, "from", cs).None? || Says(patch, "from", PathString(source), cs)
    ensures Readable(patch, cs)
    ensures var v, out := Meaning(doc, cs), Applied(doc, patch, cs);
            && out.status == (if Field(patch, "from", cs).None? then 4
                              else if !Reaches(v, source, cs) then 5
                              else AddStatusAt(v, parent, t, cs))
            && (out.status != 0 ==> out.doc == doc)
  {
    hide Tidy, Meaning, AddedAt, DetachedAt, PathString, Reaches, AddStatusAt, Resolve, Field, Alike, Compared;
    OnlyObjectsSay(patch, "op", "copy", cs);
    SlashFirst(parent, t);
    if Field(patch, "from", cs).Some? {
      ResolvesIff(doc, source, cs);
      var pos := Resolve(doc, PathString(source), cs);
      if pos.Some? {
        AddedStatus(doc, parent, t, At(doc, pos.value), cs);
      }
    }
  }

  // A move from nowhere has status 5 and changes nothing.
  lemma {:induction false} MovePatchStatus(
    doc: Json, patch: Json, source: Path, s: Token, path: string, cs: bool)
    requires Tidy(doc, cs) && PlainPath(source) && Plain(s)
    requires Says(patch, "op", "move", cs) && Says(patch, "path", path, cs)
    requires Field(patch, "from", cs).None? || Says(patch, "from", PathString(source + [s]), cs)
    ensures Readable(patch, cs)
    ensures Field(patch, "from", cs).None? ==> Applied(doc, patch, cs) == Outcome(4, doc)
    ensures Field(patch, "from", cs).Some? && !CanDetach(Meaning(doc, cs), source, s, cs) ==>
              Applied(doc, patch, cs) == Outcome(5, doc)
  {
    hide Tidy, Meaning, AddedAt, DetachedAt, PathString, CanDetach, Field, Alike, Compared;
    OnlyObjectsSay(patch, "op", "move", cs);
    if Field(patch, "from", cs).Some? {
      DetachedIff(doc, source, s, cs);
    }
  }

  // Where it has an item, it has the status of adding that to what is left. If that is
  // not 0, the item is lost.
  lemma {:induction false} MovedStatus(doc: Json, patch: Json, source: Path, s: Token, parent: Path, t: Token)
    requires Tidy(doc, false) && Walkable(source) && Plain(s) && PlainPath(parent) && Plain(t)
    requires Has(Meaning(doc, false), source) && HasStep(Get(Meaning(doc, false), source), s)
    requires Says(patch, "op", "move", false) && Says(patch, "path", PathString(parent + [t]), false)
    requires Says(patch, "from", PathString(source + [s]), false)
    ensures var v, out := Meaning(doc, false), Applied(doc, patch, false);
            var rest := Set(v, source, StepRemoved(Get(v, source), s));
            && out.status == AddStatusAt(rest, parent, t, false)
            && (out.status != 0 ==> Meaning(out.doc, false) == rest)
  {
    hide Tidy, Meaning, AddedAt, DetachedAt, PathString, AddStatusAt, Has, Get, Set, HasStep, StepRemoved;
    var from := PathString(source + [s]);
    SplitPath(source, s);
    DetachEffect(doc, source, s, from);
    var d := DetachedAt(doc, from, false).value;
    AddedStatus(d.doc, parent, t, d.item, false);
  }

  // ----- The root

  // Adding or replacing at the root gives the value itself; removing it leaves no document.
  lemma {:induction false} RootStatus(doc: Json, patch: Json, cs: bool)
    requires Says(patch, "path", "", cs)
    ensures Says(patch, "op", "add", cs) || Says(patch, "op", "replace", cs) ==>
              Readable(patch, cs)
              && Applied(doc, patch, cs)
                 == match Field(patch, "value", cs) case None => Outcome(7, doc) case Some(x) => Outcome(0, x)
    ensures Says(patch, "op", "remove", cs) ==> Readable(patch, cs) && Applied(doc, patch, cs) == Outcome(0, Invalid)
  {
    hide Field, Alike, Compared, Resolve, DetachedAt, AddedAt;
    OnlyObjectsSay(patch, "path", "", cs);
  }

  // ----- Paths that suit the document

  // Along the path, as far as it exists, each token is one that RFC 6901 has for the
  // node it is applied to.
  ghost predicate SuitsAlong(v: Value, path: Path) {
    path == [] || (Suits(v, path[0]) && (HasStep(v, path[0]) ==> SuitsAlong(StepTo(v, path[0]), path[1..])))
  }

  // For those the walk leads somewhere exactly if the path exists.
  lemma {:induction false} ReachesWhatIsThere(v: Value, path: Path)
    requires Walkable(path) && SuitsAlong(v, path)
    ensures Reaches(v, path, false) <==> Has(v, path)
    ensures Has(v, path) ==> Reached(v, path, false) == Get(v, path)
  {
    if path != [] {
      var t := path[0];
      DetachedWhereApplicable(v, t);
      if HasStep(v, t) {
        if t.Index? {
          PlainIndex(t.index);
          assert path[1..] == [];
        } else {
          ReachesWhatIsThere(StepTo(v, t), path[1..]);
        }
      }
    }
  }

  // A name that is read as an index leads to an element.
  lemma {:induction false} NameLeadsToElement()
    ensures var doc := Array([True]);
            !Has(Meaning(doc, false), [Name("0")]) && Resolve(doc, PathString([Name("0")]), false) == Some([0])
  {
    PlainIndex(0);
    assert Decimal(0) == "0";
    var path := [Name("0")];
    assert path[1..] == [] && PathString(path) == "/" + ("0" + "");
    ResolveArrayStep([True], 0, "", false);
  }
}
