/**
  What a patch does at a parent that the pointer walk reaches, applicable or not: when
  it succeeds, by the text of its last token, and what it then makes of the document.
 */
module PatchDecides {
  import opened CStrings
  import opened Json
  import opened Pointers
  import opened PointerSearch
  import opened Paths
  import opened ApplyPatch
  import opened PatchDiff
  import opened PatchEffects
  import opened PatchOperations

  // ----- What detaching and adding make of a node, by the text of the token

  ghost predicate IsScalar(n: Value) {
    !n.VArray? && !n.VObject?
  }

  // The status of adding to a node: a scalar takes anything, and stays as it is.
  ghost function AddStatus(n: Value, child: string): int {
    match n
    case VArray(items) =>
      if child == "-" then 0
      else (match DecodedIndex(child)
            case None => 11
            case Some(i) => if i <= |items| then 0 else 10)
    case _ => 0
  }

  ghost function DetachedValue(n: Value, child: string): Option<Value> {
    match n
    case VArray(items) =>
      (match DecodedIndex(child)
       case Some(i) => if i < |items| then Some(VArray(Without(items, i))) else None
       case None => None)
    case VObject(members) => if Fold(child) in members then Some(VObject(members - {Fold(child)})) else None
    case _ => None
  }

  ghost function AddedValue(n: Value, child: string, x: Value): Option<Value> {
    match n
    case VArray(items) =>
      if child == "-" then Some(VArray(items + [x]))
      else (match DecodedIndex(child)
            case Some(i) => if i <= |items| then Some(VArray(Inserted(items, i, x))) else None
            case None => None)
    case VObject(members) => Some(VObject(members[Fold(child) := x]))
    case _ => Some(n)
  }

  lemma {:induction false} ChildDetachedMeaning(node: Json, child: string)
    requires Tidy(node, false)
    ensures var d, e := ChildDetached(node, child), DetachedValue(Meaning(node, false), child);
            && (d.Some? <==> e.Some?)
            && (d.Some? ==> Tidy(d.value.doc, false) && Meaning(d.value.doc, false) == e.value)
  {
    match node
    case Array(items) =>
      var i := DecodedIndex(child);
      if i.Some? && i.value < |items| {
        WithoutItem(items, i.value);
      }
    case Object(members) =>
      FindMeaning(members, child, false);
      var i := FindMember(members, child, false);
      if i.Some? {
        TidyWithout(members, i.value);
      }
    case _ =>
  }

  lemma {:induction false} ChildAddedMeaning(node: Json, child: string, x: Json)
    requires Tidy(node, false) && Tidy(x, false)
    ensures var out, e := ChildAdded(node, child, x), AddedValue(Meaning(node, false), child, Meaning(x, false));
            && out.status == AddStatus(Meaning(node, false), child)
            && (out.status == 0 <==> e.Some?)
            && (out.status == 0 ==> Tidy(out.doc, false) && Meaning(out.doc, false) == e.value)
            && (IsScalar(Meaning(node, false)) ==> out.doc == node)
  {
    match node
    case Array(items) =>
      var i := DecodedIndex(child);
      if child == "-" {
        AppendedItem(items, x);
      } else if i.Some? && i.value <= |items| {
        InsertedItem(items, i.value, x);
      }
    case Object(members) =>
      WithMemberMeaning(members, child, x);
    case _ =>
  }

  // ----- The same at a position of the document

  // The last part of apply_patch, once the parent is found.
  lemma {:induction false} AddedIs(doc: Json, path: string, parent: string, child: string, x: Json, pos: Position)
    requires Splits(path, parent, child) && Resolve(doc, parent, false) == Some(pos)
    ensures var out := ChildAdded(At(doc, pos), child, x);
            AddedAt(doc, path, x, false) == Outcome(out.status, Put(doc, pos, out.doc))
  {
    hide Resolve, ChildAdded;
  }

  lemma {:induction false} DetachesAt(doc: Json, path: string, p: Path, pos: Position, parent: string, child: string)
    requires Tidy(doc, false) && Splits(path, parent, child)
    requires Resolve(doc, parent, false) == Some(pos) && Leads(doc, p, pos)
    ensures Has(Meaning(doc, false), p)
    ensures var v, d := Meaning(doc, false), DetachedAt(doc, path, false);
            var e := DetachedValue(Get(v, p), child);
            && (d.Some? <==> e.Some?)
            && (d.Some? ==> Tidy(d.value.doc, false) && Meaning(d.value.doc, false) == Set(v, p, e.value))
  {
    hide Tidy, Meaning, ChildDetached, DetachedAt, DetachedValue, Splits;
    LeadsTo(doc, p, pos);
    DetachedIs(doc, path, parent, child, pos);
    ChildDetachedMeaning(At(doc, pos), child);
    var d := ChildDetached(At(doc, pos), child);
    if d.Some? {
      Replaces(doc, p, pos, d.value.doc);
    }
  }

  lemma {:induction false} AddsAt(
    doc: Json, path: string, p: Path, pos: Position, parent: string, child: string, x: Json)
    requires Tidy(doc, false) && Tidy(x, false) && Splits(path, parent, child)
    requires Resolve(doc, parent, false) == Some(pos) && Leads(doc, p, pos)
    ensures Has(Meaning(doc, false), p)
    ensures var v, out := Meaning(doc, false), AddedAt(doc, path, x, false);
            var e := AddedValue(Get(v, p), child, Meaning(x, false));
            && out.status == AddStatus(Get(v, p), child) && (out.status == 0 <==> e.Some?)
            && (out.status == 0 ==> Tidy(out.doc, false) && Meaning(out.doc, false) == Set(v, p, e.value))
            && (IsScalar(Get(v, p)) ==> out.doc == doc)
  {
    hide Tidy, Meaning, ChildAdded, AddedAt, AddedValue, Splits, AddStatus, IsScalar;
    LeadsTo(doc, p, pos);
    AddedIs(doc, path, parent, child, x, pos);
    ChildAddedMeaning(At(doc, pos), child, x);
    PutSame(doc, pos);
    var out := ChildAdded(At(doc, pos), child, x);
    if out.status == 0 {
      Replaces(doc, p, pos, out.doc);
    }
  }

  // ----- Whole patches

  // The patch is about the child t of the node that a path leads to.
  ghost predicate IsAt(doc: Json, patch: Json, parent: Path, t: Token) {
    && Tidy(doc, false) && Walkable(parent) && Plain(t) && Has(Meaning(doc, false), parent)
    && HasText(patch, "path", PathString(parent + [t]))
  }

  // A removal succeeds exactly if the child is there.
  lemma {:induction false} RemoveDecides(doc: Json, patch: Json, parent: Path, t: Token)
    requires IsAt(doc, patch, parent, t) && OperationOf(patch, false) == REMOVE
    ensures var v, out := Meaning(doc, false), Applied(doc, patch, false);
            var e := DetachedValue(Get(v, parent), TokenText(t));
            && out.status == (if e.Some? then 0 else 13)
            && (e.Some? ==> Tidy(out.doc, false) && Meaning(out.doc, false) == Set(v, parent, e.value))
            && (e.None? ==> out.doc == doc)
  {
    hide Tidy, Meaning, DetachedAt, DetachedValue, Splits, PathString, Resolve;
    SlashFirst(parent, t);
    var pos := Locate(doc, parent);
    SplitPath(parent, t);
    DetachesAt(doc, PathString(parent + [t]), parent, pos, PathString(parent), TokenText(t));
  }

  // An addition succeeds exactly if the node is an object, or an array with that
  // place, or a scalar; a scalar stays as it is.
  lemma {:induction false} AddDecides(doc: Json, patch: Json, parent: Path, t: Token, x: Json)
    requires IsAt(doc, patch, parent, t) && OperationOf(patch, false) == ADD
    requires Field(patch, "value", false) == Some(x) && Tidy(x, false)
    ensures var v, out := Meaning(doc, false), Applied(doc, patch, false);
            var n := Get(v, parent);
            var e := AddedValue(n, TokenText(t), Meaning(x, false));
            && out.status == AddStatus(n, TokenText(t)) && (out.status == 0 <==> e.Some?)
            && (out.status == 0 ==> Tidy(out.doc, false) && Meaning(out.doc, false) == Set(v, parent, e.value))
            && (IsScalar(n) ==> out == Outcome(0, doc))
  {
    hide Tidy, Meaning, AddedAt, AddedValue, Splits, PathString, Resolve;
    SlashFirst(parent, t);
    var pos := Locate(doc, parent);
    SplitPath(parent, t);
    AddsAt(doc, PathString(parent + [t]), parent, pos, PathString(parent), TokenText(t), x);
  }

  lemma {:induction false} SlashFirst(parent: Path, t: Token)
    ensures PathString(parent + [t]) != ""
  {
  }

  // A move succeeds exactly if its source is there and it can be added to what is
  // left. Below a scalar it loses the item.
  lemma {:induction false} MoveDecides(doc: Json, patch: Json, source: Path, s: Token, parent: Path, t: Token)
    requires Tidy(doc, false) && Walkable(source) && Plain(s) && Walkable(parent) && Plain(t)
    requires Has(Meaning(doc, false), source) && HasStep(Get(Meaning(doc, false), source), s)
    requires Has(Set(Meaning(doc, false), source, StepRemoved(Get(Meaning(doc, false), source), s)), parent)
    requires OperationOf(patch, false) == MOVE && HasText(patch, "path", PathString(parent + [t]))
    requires HasText(patch, "from", PathString(source + [s]))
    ensures var v, out := Meaning(doc, false), Applied(doc, patch, false);
            var rest := Set(v, source, StepRemoved(Get(v, source), s));
            var n := Get(rest, parent);
            var e := AddedValue(n, TokenText(t), StepTo(Get(v, source), s));
            && out.status == AddStatus(n, TokenText(t)) && (out.status == 0 <==> e.Some?)
            && (out.status == 0 ==> Tidy(out.doc, false) && Meaning(out.doc, false) == Set(rest, parent, e.value))
            && (IsScalar(n) ==> Meaning(out.doc, false) == rest)
  {
    hide Tidy, Meaning, AddedAt, DetachedAt, StepRemoved, StepTo, Applied, OperationOf, AddedValue, Splits, AddStatus;
    hide Resolve;
    var from, path := PathString(source + [s]), PathString(parent + [t]);
    RunMove(doc, patch, from, path);
    SplitPath(source, s);
    SplitPath(parent, t);
    DetachEffect(doc, source, s, from);
    DetachedItem(doc, source, s, from);
    var d := DetachedAt(doc, from, false).value;
    var pos := Locate(d.doc, parent);
    AddsAt(d.doc, path, parent, pos, PathString(parent), TokenText(t), d.item);
  }

  // ----- The tokens that RFC 6902 has for a container

  // A name for an object, an index or "-" for an array.
  ghost predicate Suits(n: Value, t: Token) {
    match n
    case VArray(_) => t.Index? || t.key == "-"
    case VObject(_) => t.Name?
    case _ => true
  }

  // For these, adding succeeds exactly where it is applicable, and below a scalar.
  lemma {:induction false} AddedWhereApplicable(n: Value, t: Token, x: Value)
    requires Plain(t) && Suits(n, t)
    ensures AddedValue(n, TokenText(t), x).Some? <==> CanAdd(n, t) || IsScalar(n)
    ensures CanAdd(n, t) ==> AddedValue(n, TokenText(t), x).value == StepAdded(n, t, x)
    ensures IsScalar(n) ==> !CanAdd(n, t) && AddedValue(n, TokenText(t), x) == Some(n)
  {
    if t.Index? {
      PlainIndex(t.index);
    }
  }

  lemma {:induction false} DetachedWhereApplicable(n: Value, t: Token)
    requires Plain(t) && Suits(n, t)
    ensures DetachedValue(n, TokenText(t)).Some? <==> HasStep(n, t)
    ensures HasStep(n, t) ==> DetachedValue(n, TokenText(t)).value == StepRemoved(n, t)
  {
    if t.Index? {
      PlainIndex(t.index);
    }
  }

  lemma {:induction false} PlainIndex(i: nat)
    requires i < SIZE_LIMIT
    ensures DecodedIndex(Decimal(i)) == Some(i) && Decimal(i) != "-"
  {
    assert Decimal(i) + "" == Decimal(i);
    IndexOfDecimal(i, "");
    assert Decimal(i)[0] != "-"[0];
  }
}
