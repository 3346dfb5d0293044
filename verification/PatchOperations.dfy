/**
  The three operations that the generator never writes: test, copy and move, as section
  4 of RFC 6902 asks, for patch objects of any form; and what a patch of any form leaves
  of a document when it fails.
 */
module PatchOperations {
  import opened CStrings
  import opened Json
  import opened CompareJson
  import opened Pointers
  import opened Paths
  import opened ApplyPatch
  import opened PointerSearch
  import opened PatchEffects

  ghost predicate HasText(patch: Json, name: string, text: string) {
    Field(patch, name, false) == Some(String(text))
  }

  // A test decides equality up to member order and key case. It may sort what it
  // compares, which changes nothing that the document means.
  lemma {:induction false} TestDecides(doc: Json, patch: Json, path: Path, x: Json)
    requires Tidy(doc, false) && Tidy(x, false) && Walkable(path) && Has(Meaning(doc, false), path)
    requires OperationOf(patch, false) == TEST && HasText(patch, "path", PathString(path))
    requires Field(patch, "value", false) == Some(x)
    ensures var v, out := Meaning(doc, false), Applied(doc, patch, false);
            && out.status == (if Get(v, path) == Meaning(x, false) then 0 else 1)
            && Tidy(out.doc, false) && Meaning(out.doc, false) == v
  {
    hide Tidy, Meaning, Alike, Compared;
    var pos := Locate(doc, path);
    LeadsTo(doc, path, pos);
    var node := At(doc, pos);
    AlikeIsEqualMeaning(node, x);
    ComparedKeepsMeaning(node, x, false, false);
    Replaces(doc, path, pos, Compared(node, x, false));
    SetSame(Meaning(doc, false), path);
    RunTest(doc, patch, PathString(path), x, pos);
  }

  lemma {:induction false} RunTest(doc: Json, patch: Json, path: string, x: Json, pos: Position)
    requires OperationOf(patch, false) == TEST && HasText(patch, "path", path)
    requires Field(patch, "value", false) == Some(x) && Resolve(doc, path, false) == Some(pos)
    ensures Applied(doc, patch, false)
         == Outcome(if Alike(At(doc, pos), x, false) then 0 else 1, Put(doc, pos, Compared(At(doc, pos), x, false)))
  {
    hide Alike, Compared, Resolve, Put;
  }

  lemma {:induction false} RunCopy(doc: Json, patch: Json, from: string, path: string)
    requires OperationOf(patch, false) == COPY && HasText(patch, "path", path) && HasText(patch, "from", from)
    ensures Applied(doc, patch, false)
         == match Resolve(doc, from, false)
            case None => Outcome(5, doc)
            case Some(pos) => AddedAt(doc, path, At(doc, pos), false)
  {
  }

  lemma {:induction false} RunMove(doc: Json, patch: Json, from: string, path: string)
    requires OperationOf(patch, false) == MOVE && HasText(patch, "path", path) && HasText(patch, "from", from)
    ensures Applied(doc, patch, false)
         == match DetachedAt(doc, from, false)
            case None => Outcome(5, doc)
            case Some(d) => AddedAt(d.doc, path, d.item, false)
  {
  }

  // A copy adds what the other path leads to.
  lemma {:induction false} CopyApplied(doc: Json, patch: Json, from: Path, parent: Path, t: Token)
    requires Tidy(doc, false) && Walkable(from) && Has(Meaning(doc, false), from)
    requires Walkable(parent) && Plain(t) && Has(Meaning(doc, false), parent)
    requires CanAdd(Get(Meaning(doc, false), parent), t)
    requires OperationOf(patch, false) == COPY && HasText(patch, "path", PathString(parent + [t]))
    requires HasText(patch, "from", PathString(from))
    ensures var v, out := Meaning(doc, false), Applied(doc, patch, false);
            && out.status == 0 && Tidy(out.doc, false)
            && Meaning(out.doc, false) == Set(v, parent, StepAdded(Get(v, parent), t, Get(v, from)))
  {
    hide Tidy, Meaning, AddedAt, Applied, OperationOf, Resolve;
    var path := PathString(parent + [t]);
    RunCopy(doc, patch, PathString(from), path);
    SplitPath(parent, t);
    var pos := Locate(doc, from);
    LeadsTo(doc, from, pos);
    AddEffect(doc, parent, t, At(doc, pos), path);
  }

  lemma {:induction false} ChildDetachedItem(node: Json, t: Token)
    requires Tidy(node, false) && Plain(t) && HasStep(Meaning(node, false), t)
    ensures var d := ChildDetached(node, TokenText(t));
            d.Some? && Tidy(d.value.item, false) && Meaning(d.value.item, false) == StepTo(Meaning(node, false), t)
  {
    match t
    case Index(i) =>
      assert Decimal(i) + "" == Decimal(i);
      IndexOfDecimal(i, "");
    case Name(key) =>
      FindMeaning(node.members, key, false);
  }

  lemma {:induction false} DetachedItem(doc: Json, parent: Path, t: Token, path: string)
    requires Tidy(doc, false) && Walkable(parent) && Plain(t)
    requires Splits(path, PathString(parent), TokenText(t))
    requires Has(Meaning(doc, false), parent) && HasStep(Get(Meaning(doc, false), parent), t)
    ensures var d := DetachedAt(doc, path, false);
            d.Some? && Tidy(d.value.item, false)
              && Meaning(d.value.item, false) == StepTo(Get(Meaning(doc, false), parent), t)
  {
    hide Tidy, Meaning, ChildDetached, DetachedAt, Resolve, Splits, StepTo;
    var pos := Locate(doc, parent);
    LeadsTo(doc, parent, pos);
    DetachedIs(doc, path, PathString(parent), TokenText(t), pos);
    ChildDetachedItem(At(doc, pos), t);
  }

  // A move removes and then adds; the target is looked up where the source is gone.
  lemma {:induction false} MoveApplied(doc: Json, patch: Json, source: Path, s: Token, parent: Path, t: Token)
    requires Tidy(doc, false) && Walkable(source) && Plain(s) && Walkable(parent) && Plain(t)
    requires Has(Meaning(doc, false), source) && HasStep(Get(Meaning(doc, false), source), s)
    requires var v := Meaning(doc, false);
             var rest := Set(v, source, StepRemoved(Get(v, source), s));
             Has(rest, parent) && CanAdd(Get(rest, parent), t)
    requires OperationOf(patch, false) == MOVE && HasText(patch, "path", PathString(parent + [t]))
    requires HasText(patch, "from", PathString(source + [s]))
    ensures var v, out := Meaning(doc, false), Applied(doc, patch, false);
            var rest := Set(v, source, StepRemoved(Get(v, source), s));
            && out.status == 0 && Tidy(out.doc, false)
            && Meaning(out.doc, false) == Set(rest, parent, StepAdded(Get(rest, parent), t, StepTo(Get(v, source), s)))
  {
    hide Tidy, Meaning, AddedAt, DetachedAt, StepRemoved, StepAdded, StepTo, Applied, OperationOf;
    var from, path := PathString(source + [s]), PathString(parent + [t]);
    RunMove(doc, patch, from, path);
    SplitPath(source, s);
    SplitPath(parent, t);
    DetachEffect(doc, source, s, from);
    DetachedItem(doc, source, s, from);
    var d := DetachedAt(doc, from, false).value;
    AddEffect(d.doc, parent, t, d.item, path);
  }

  // ----- Failures

  // What a replace or a move takes out before it can fail.
  ghost function Taken(doc: Json, patch: Json, cs: bool): Option<Detached> {
    var op, path, from := OperationOf(patch, cs), Field(patch, "path", cs), Field(patch, "from", cs);
    if path.None? || !path.value.String? then None
    else if op == REPLACE then DetachedAt(doc, path.value.text, cs)
    else if op == MOVE && from.Some? && from.value.String? then DetachedAt(doc, from.value.text, cs)
    else None
  }

  // A patch other than a test that fails has changed the document exactly if it
  // had taken an item out, to replace or move it: then that item is lost.
  lemma {:induction false} FailureMayLoseItem(doc: Json, patch: Json, cs: bool)
    requires Readable(patch, cs) && Applied(doc, patch, cs).status != 0 && OperationOf(patch, cs) != TEST
    ensures Applied(doc, patch, cs).doc != doc <==> Taken(doc, patch, cs).Some?
    ensures Taken(doc, patch, cs).Some? ==> Applied(doc, patch, cs).doc == Taken(doc, patch, cs).value.doc
  {
    hide DetachedAt, Alike, AddedAt, Resolve, OperationOf, Field;
    var path, from, value := Field(patch, "path", cs), Field(patch, "from", cs), Field(patch, "value", cs);
    if path.Some? && path.value.String? {
      var text := path.value.text;
      DetachingChanges(doc, text, cs);
      if value.Some? {
        AddFailureKeeps(doc, text, value.value, cs);
        if DetachedAt(doc, text, cs).Some? {
          AddFailureKeeps(DetachedAt(doc, text, cs).value.doc, text, value.value, cs);
        }
      }
      if OperationOf(patch, cs) in {MOVE, COPY} && from.Some? {
        DetachingChanges(doc, from.value.text, cs);
        AddFailureAfterFrom(doc, from.value.text, text, cs);
      }
    }
  }

  // A failing test changes no more than the order of members.
  lemma {:induction false} FailingTestKeepsMeaning(doc: Json, patch: Json, cs: bool)
    requires Tidy(doc, cs) && Readable(patch, cs) && OperationOf(patch, cs) == TEST
    ensures Tidy(Applied(doc, patch, cs).doc, cs)
    ensures Meaning(Applied(doc, patch, cs).doc, cs) == Meaning(doc, cs)
  {
    hide Alike, Compared, Resolve, OperationOf, Field;
    var path, value := Field(patch, "path", cs), Field(patch, "value", cs);
    if path.Some? && path.value.String? && value.Some? {
      var pos := Resolve(doc, path.value.text, cs);
      if pos.Some? {
        TidyBelow(doc, pos.value, cs);
        ComparedKeepsMeaning(At(doc, pos.value), value.value, cs, cs);
        PutKeepsMeaning(doc, pos.value, Compared(At(doc, pos.value), value.value, cs), cs);
      }
    }
  }

  lemma {:induction false} TidyBelow(v: Json, pos: Position, cs: bool)
    requires Tidy(v, cs) && Valid(v, pos)
    ensures Tidy(At(v, pos), cs)
  {
    if pos != [] {
      TidyBelow(Child(v, pos[0]), pos[1..], cs);
    }
  }

  lemma {:induction false} PutKeepsMeaning(v: Json, pos: Position, x: Json, cs: bool)
    requires Tidy(v, cs) && Valid(v, pos) && Tidy(x, cs) && Meaning(x, cs) == Meaning(At(v, pos), cs)
    ensures Tidy(Put(v, pos, x), cs) && Meaning(Put(v, pos, x), cs) == Meaning(v, cs)
    decreases pos
  {
    if pos != [] {
      var i, y := pos[0], Put(Child(v, pos[0]), pos[1..], x);
      PutKeepsMeaning(Child(v, i), pos[1..], x, cs);
      match v
      case Array(items) => SameItem(items, i, y, cs);
      case Object(members) => SameMember(members, i, y, cs);
    }
  }

  lemma {:induction false} SameItem(items: seq<Json>, i: nat, y: Json, cs: bool)
    requires Tidy(Array(items), cs) && i < |items| && Tidy(y, cs) && Meaning(y, cs) == Meaning(items[i], cs)
    ensures Tidy(Array(items[i := y]), cs) && Meaning(Array(items[i := y]), cs) == Meaning(Array(items), cs)
  {
    assert Meaning(Array(items[i := y]), cs).items == Meaning(Array(items), cs).items;
  }

  lemma {:induction false} SameMember(ms: seq<Member>, i: nat, y: Json, cs: bool)
    requires TidyMembers(ms, cs) && i < |ms| && Tidy(y, cs) && Meaning(y, cs) == Meaning(ms[i].value, cs)
    ensures var r := ms[i := Member(ms[i].key, y)];
            TidyMembers(r, cs) && MembersMeaning(r, cs) == MembersMeaning(ms, cs)
  {
    MeaningAt(ms, cs, i);
    MeaningUpdate(ms, cs, i, y);
    var m := MembersMeaning(ms, cs);
    assert m[Key(ms[i].key, cs) := Meaning(y, cs)] == m;
  }

  // Taking out a child leaves another document.
  lemma {:induction false} DetachingChanges(doc: Json, path: string, cs: bool)
    ensures DetachedAt(doc, path, cs).Some? ==> path != "" && DetachedAt(doc, path, cs).value.doc != doc
  {
    hide Resolve, Put;
    var d := DetachedAt(doc, path, cs);
    if d.Some? {
      var k := LastSlash(path).value;
      var pos := Resolve(doc, path[..k], cs).value;
      var child := ChildDetached(At(doc, pos), Decoded(path[k + 1..])).value.doc;
      PutElsewhere(doc, pos, child, []);
    }
  }

  lemma {:induction false} AddFailureAfterFrom(doc: Json, from: string, path: string, cs: bool)
    ensures var d := DetachedAt(doc, from, cs);
            d.Some? && AddedAt(d.value.doc, path, d.value.item, cs).status != 0 ==>
              AddedAt(d.value.doc, path, d.value.item, cs).doc == d.value.doc
    ensures var pos := Resolve(doc, from, cs);
            pos.Some? && AddedAt(doc, path, At(doc, pos.value), cs).status != 0 ==>
              AddedAt(doc, path, At(doc, pos.value), cs).doc == doc
  {
    hide DetachedAt, AddedAt, Resolve;
    var d, pos := DetachedAt(doc, from, cs), Resolve(doc, from, cs);
    if d.Some? {
      AddFailureKeeps(d.value.doc, path, d.value.item, cs);
    }
    if pos.Some? {
      AddFailureKeeps(doc, path, At(doc, pos.value), cs);
    }
  }

  // Adding changes nothing when it reports a failure.
  lemma {:induction false} AddFailureKeeps(doc: Json, path: string, x: Json, cs: bool)
    ensures AddedAt(doc, path, x, cs).status != 0 ==> AddedAt(doc, path, x, cs).doc == doc
  {
    hide Resolve;
    var k := LastSlash(path);
    if k.Some? && Resolve(doc, path[..k.value], cs).Some? {
      PutSame(doc, Resolve(doc, path[..k.value], cs).value);
    }
  }
}
