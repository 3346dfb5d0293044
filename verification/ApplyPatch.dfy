/**
  The JSON Patch (RFC 6902) interpreter: what apply_patch does to a document for
  every patch object, well formed or not, with its status codes.
 */
module ApplyPatch {
  import opened CStrings
  import opened Json
  import opened CompareJson
  import opened Pointers
  import opened PointerSearch

  datatype Operation = INVALID | ADD | REMOVE | REPLACE | MOVE | COPY | TEST

  // The status returned and the document left behind.
  datatype Outcome = Outcome(status: int, doc: Json)

  datatype Detached = Detached(item: Json, doc: Json)

  // get_object_item on an item that need not be an object.
  function Field(v: Json, name: string, cs: bool): Option<Json> {
    match v
    case Object(members) =>
      (match FindMember(members, name, cs)
       case None => None
       case Some(i) => Some(members[i].value))
    case _ => None
  }

  // decode_patch_operation
  function OperationOf(patch: Json, cs: bool): Operation {
    match Field(patch, "op", cs)
    case Some(String(op)) =>
      if op == "add" then ADD
      else if op == "remove" then REMOVE
      else if op == "replace" then REPLACE
      else if op == "move" then MOVE
      else if op == "copy" then COPY
      else if op == "test" then TEST
      else INVALID
    case _ => INVALID
  }

  // strrchr(path, '/')
  function LastSlash(path: string): (r: Option<nat>)
    ensures r.Some? ==> r.value < |path| && path[r.value] == '/' && '/' !in path[r.value + 1..]
    ensures r.None? ==> '/' !in path
  {
    if path == "" then None
    else if path[|path| - 1] == '/' then Some(|path| - 1)
    else LastSlash(path[..|path| - 1])
  }

  // Taking a child out of an array or object; whatever the case flag, a member
  // is looked up case-insensitively.
  function ChildDetached(parent: Json, child: string): Option<Detached> {
    match parent
    case Array(items) =>
      (match DecodedIndex(child)
       case Some(i) => if i < |items| then Some(Detached(items[i], Array(Without(items, i)))) else None
       case None => None)
    case Object(members) =>
      (match FindMember(members, child, false)
       case Some(i) => Some(Detached(members[i].value, Object(Without(members, i))))
       case None => None)
    case _ => None
  }

  // detach_path
  function DetachedAt(doc: Json, path: string, cs: bool): Option<Detached> {
    match LastSlash(path)
    case None => None
    case Some(k) =>
      match Resolve(doc, path[..k], cs)
      case None => None
      case Some(pos) =>
        match ChildDetached(At(doc, pos), Decoded(path[k + 1..]))
        case None => None
        case Some(d) => Some(Detached(d.item, Put(doc, pos, d.doc)))
  }

  // cJSON_DeleteItemFromObject followed by cJSON_AddItemToObject
  function WithMember(members: seq<Member>, key: string, value: Json): seq<Member> {
    (match FindMember(members, key, false)
     case Some(i) => Without(members, i)
     case None => members) + [Member(key, value)]
  }

  // The new member is the last one; the others keep their order, without the first that
  // had its name, in whatever case.
  lemma {:induction false} MemberGoesLast(members: seq<Member>, key: string, value: Json)
    ensures var r := WithMember(members, key, value);
            && r != [] && r[|r| - 1] == Member(key, value)
            && ((forall j :: 0 <= j < |members| ==> Fold(members[j].key) != Fold(key)) ==> r[..|r| - 1] == members)
            && forall i :: 0 <= i < |members| && Fold(members[i].key) == Fold(key)
                           && (forall j :: 0 <= j < i ==> Fold(members[j].key) != Fold(key)) ==>
                 r[..|r| - 1] == members[..i] + members[i + 1..]
  {
  }

  // Putting a child into an array or object. Below a scalar this reports success
  // and does nothing.
  function ChildAdded(parent: Json, child: string, value: Json): (r: Outcome)
    ensures r.status != 0 ==> r.doc == parent
  {
    match parent
    case Array(items) =>
      if child == "-" then Outcome(0, Array(items + [value]))
      else (match DecodedIndex(child)
            case None => Outcome(11, parent)
            case Some(i) => if i <= |items| then Outcome(0, Array(Inserted(items, i, value))) else Outcome(10, parent))
    case Object(members) => Outcome(0, Object(WithMember(members, child, value)))
    case _ => Outcome(0, parent)
  }

  // The last part of apply_patch.
  function AddedAt(doc: Json, path: string, value: Json, cs: bool): Outcome {
    match LastSlash(path)
    case None => Outcome(9, doc)
    case Some(k) =>
      match Resolve(doc, path[..k], cs)
      case None => Outcome(9, doc)
      case Some(pos) =>
        var added := ChildAdded(At(doc, pos), Decoded(path[k + 1..]), value);
        Outcome(added.status, Put(doc, pos, added.doc))
  }

  lemma {:induction false} PutSame(v: Json, pos: Position)
    requires Valid(v, pos)
    ensures Put(v, pos, At(v, pos)) == v
  {
    if pos != [] {
      PutSame(Child(v, pos[0]), pos[1..]);
    }
  }

  // A "from" that is present must be a string: apply_patch reads it unchecked. The
  // case-sensitive lookup compares the key of every child, and elements have none.
  predicate Readable(patch: Json, cs: bool) {
    && !(cs && patch.Array? && patch.items != [])
    && (OperationOf(patch, cs) in {MOVE, COPY} && Field(patch, "from", cs).Some? ==>
          Field(patch, "from", cs).value.String?)
  }

  // apply_patch
  function Applied(doc: Json, patch: Json, cs: bool): Outcome
    requires Readable(patch, cs)
  {
    var path := Field(patch, "path", cs);
    if path.None? || !path.value.String? then Outcome(2, doc)
    else
      var op := OperationOf(patch, cs);
      var text := path.value.text;
      var value := Field(patch, "value", cs);
      if op == INVALID then Outcome(3, doc)
      else if op == TEST then
        match (Resolve(doc, text, cs), value)
        case (Some(pos), Some(v)) =>
          var node := At(doc, pos);
          Outcome(if Alike(node, v, cs) then 0 else 1, Put(doc, pos, Compared(node, v, cs)))
        case _ => Outcome(1, doc)
      else if text == "" && op == REMOVE then Outcome(0, Invalid)
      else if text == "" && op in {REPLACE, ADD} then
        if value.None? then Outcome(7, doc) else Outcome(0, value.value)
      else if op == ADD then
        if value.None? then Outcome(7, doc) else AddedAt(doc, text, value.value, cs)
      else if op in {REMOVE, REPLACE} then
        (match DetachedAt(doc, text, cs)
         case None => Outcome(13, doc)
         case Some(d) =>
           if op == REMOVE then Outcome(0, d.doc)
           else if value.None? then Outcome(7, d.doc)
           else AddedAt(d.doc, text, value.value, cs))
      else
        match Field(patch, "from", cs)
        case None => Outcome(4, doc)
        case Some(from) =>
          if op == MOVE then
            (match DetachedAt(doc, from.text, cs)
             case None => Outcome(5, doc)
             case Some(d) => AddedAt(d.doc, text, d.item, cs))
          else
            (match Resolve(doc, from.text, cs)
             case None => Outcome(5, doc)
             case Some(pos) => AddedAt(doc, text, At(doc, pos), cs))
  }

  // A test moves no head: the child lists it sorts stay well-formed. Any other
  // patch keeps well-formed lists well-formed.
  predicate HeadsKept(doc: Json, patch: Json, cs: bool) {
    var path, value := Field(patch, "path", cs), Field(patch, "value", cs);
    OperationOf(patch, cs) == TEST && path.Some? && path.value.String? && value.Some? ==>
      match Resolve(doc, path.value.text, cs)
      case None => true
      case Some(pos) => HeadsStay(At(doc, pos), value.value, cs)
  }

  // No test before the last patch of the run moves a head.
  predicate RunKeepsHeads(doc: Json, patches: seq<Json>, cs: bool)
    requires forall i :: 0 <= i < |patches| ==> Readable(patches[i], cs)
    decreases |patches|
  {
    |patches| <= 1
    || var first := Applied(doc, patches[0], cs);
       first.status != 0 || (HeadsKept(doc, patches[0], cs) && RunKeepsHeads(first.doc, patches[1..], cs))
  }

  // Patches are applied in order until one fails; what was done stays done.
  function AppliedAll(doc: Json, patches: seq<Json>, cs: bool): Outcome
    requires forall i :: 0 <= i < |patches| ==> Readable(patches[i], cs)
    decreases |patches|
  {
    if patches == [] then Outcome(0, doc)
    else
      var first := Applied(doc, patches[0], cs);
      if first.status != 0 then first else AppliedAll(first.doc, patches[1..], cs)
  }

  lemma {:induction false} AppliedAllConcat(doc: Json, a: seq<Json>, b: seq<Json>, cs: bool)
    requires forall i :: 0 <= i < |a| ==> Readable(a[i], cs)
    requires forall i :: 0 <= i < |b| ==> Readable(b[i], cs)
    requires AppliedAll(doc, a, cs).status == 0
    ensures AppliedAll(doc, a + b, cs) == AppliedAll(AppliedAll(doc, a, cs).doc, b, cs)
    decreases |a|
  {
    hide Applied, Readable;
    if a == [] {
      assert a + b == b;
    } else {
      var rest := a[1..];
      assert (a + b)[1..] == rest + b;
      assert forall i :: 0 <= i < |rest| ==> rest[i] == a[i + 1];
      AppliedAllConcat(Applied(doc, a[0], cs).doc, rest, b, cs);
    }
  }

  // Neither is at or below the other.
  predicate Aside(p: Position, q: Position) {
    !(p <= q) && !(q <= p)
  }

  // The new node is there, and aside from it nothing has changed.
  lemma {:induction false} PutElsewhere(v: Json, pos: Position, x: Json, p: Position)
    requires Valid(v, pos)
    ensures Valid(Put(v, pos, x), pos) && At(Put(v, pos, x), pos) == x
    ensures Aside(p, pos) ==> (Valid(Put(v, pos, x), p) <==> Valid(v, p))
    ensures Aside(p, pos) && Valid(v, p) ==> At(Put(v, pos, x), p) == At(v, p)
    decreases pos
  {
    if pos != [] {
      var below := if p == [] then [] else p[1..];
      PutElsewhere(Child(v, pos[0]), pos[1..], x, below);
      assert pos == [pos[0]] + pos[1..];
      assert p != [] ==> p == [p[0]] + p[1..];
    }
  }

  // A document that patches are applied to in place. It is intact as long as no
  // child list has got another head by being sorted; detaching that head would
  // write to its old predecessor.
  class Document {
    var root: Json
    var intact: bool

    constructor (root: Json)
      ensures this.root == root && intact
    {
      this.root, intact := root, true;
    }

    // The node at a position is overwritten; the rest of the tree stays.
    method Overwrite(pos: Position, v: Json)
      requires Valid(root, pos)
      modifies this`root
      ensures root == Put(old(root), pos, v)
      ensures Valid(root, pos) && At(root, pos) == v
      ensures forall p {:induction false} :: Aside(p, pos) ==> (Valid(root, p) <==> Valid(old(root), p))
      ensures forall p {:induction false} :: Aside(p, pos) && Valid(root, p) ==> At(root, p) == At(old(root), p)
    {
      PutElsewhere(root, pos, v, []);
      forall p | Aside(p, pos)
        ensures Valid(Put(root, pos, v), p) <==> Valid(root, p)
        ensures Valid(root, p) ==> At(Put(root, pos, v), p) == At(root, p)
      {
        PutElsewhere(root, pos, v, p);
      }
      root := Put(root, pos, v);
    }

    method DetachPath(path: string, cs: bool) returns (item: Option<Json>)
      modifies this`root
      ensures intact ==> (item.Some? <==> DetachedAt(old(root), path, cs).Some?)
      ensures intact && item.Some? ==> Detached(item.value, root) == DetachedAt(old(root), path, cs).value
      ensures intact && item.None? ==> root == old(root)
    {
      hide Decoded, Resolve, DecodedIndex;
      var slash := LastSlash(path);
      if slash.None? {
        return None;
      }
      var child := Decoded(path[slash.value + 1..]);
      var parent := GetItemFromPointer(root, path[..slash.value], cs);
      if parent.None? {
        return None;
      }
      match At(root, parent.value) {
        case Array(items) =>
          var index := DecodeArrayIndex(child);
          if index.None? || index.value >= |items| {
            return None;
          }
          item := Some(items[index.value]);
          Overwrite(parent.value, Array(Without(items, index.value)));
        case Object(members) =>
          var which := FindMember(members, child, false);
          if which.None? {
            return None;
          }
          item := Some(members[which.value].value);
          Overwrite(parent.value, Object(Without(members, which.value)));
        case _ =>
          return None;
      }
    }

    method AddAtPath(path: string, value: Json, cs: bool) returns (status: int)
      modifies this`root
      ensures intact ==> Outcome(status, root) == AddedAt(old(root), path, value, cs)
    {
      hide Decoded, Resolve, DecodedIndex, WithMember;
      var slash := LastSlash(path);
      if slash.None? {
        return 9;
      }
      var child := Decoded(path[slash.value + 1..]);
      var parent := GetItemFromPointer(root, path[..slash.value], cs);
      if parent.None? {
        return 9;
      }
      PutSame(root, parent.value);
      match At(root, parent.value) {
        case Array(items) =>
          if child == "-" {
            Overwrite(parent.value, Array(items + [value]));
          } else {
            var index := DecodeArrayIndex(child);
            if index.None? {
              return 11;
            }
            if index.value > |items| {
              return 10;
            }
            Overwrite(parent.value, Array(Inserted(items, index.value, value)));
          }
        case Object(members) =>
          Overwrite(parent.value, Object(WithMember(members, child, value)));
        case _ =>
      }
      status := 0;
    }

    method ApplyPatch(patch: Json, cs: bool) returns (status: int)
      requires Readable(patch, cs)
      modifies this
      ensures old(intact) ==> Outcome(status, root) == Applied(old(root), patch, cs)
      ensures intact == (old(intact) && HeadsKept(old(root), patch, cs))
    {
      var path := Field(patch, "path", cs);
      if path.None? || !path.value.String? {
        return 2;
      }
      var text := path.value.text;
      var opcode := OperationOf(patch, cs);
      if opcode == INVALID {
        return 3;
      } else if opcode == TEST {
        var pos := GetItemFromPointer(root, text, cs);
        var expected := Field(patch, "value", cs);
        if pos.None? || expected.None? {
          return 1;
        }
        var node := At(root, pos.value);
        var same, left, _ := CompareJson.CompareJson(node, expected.value, cs);
        intact := intact && HeadsStay(node, expected.value, cs);
        Overwrite(pos.value, left);
        return if same then 0 else 1;
      }
      if text == "" {
        if opcode == REMOVE {
          root := Invalid;
          return 0;
        }
        if opcode == REPLACE || opcode == ADD {
          var value := Field(patch, "value", cs);
          if value.None? {
            return 7;
          }
          root := value.value;
          return 0;
        }
      }
      if opcode == REMOVE || opcode == REPLACE {
        var item := DetachPath(text, cs);
        if item.None? {
          return 13;
        }
        if opcode == REMOVE {
          return 0;
        }
      }
      var value: Option<Json>;
      if opcode == MOVE || opcode == COPY {
        var from := Field(patch, "from", cs);
        if from.None? {
          return 4;
        }
        if opcode == MOVE {
          value := DetachPath(from.value.text, cs);
        } else {
          var source := GetItemFromPointer(root, from.value.text, cs);
          value := if source.None? then None else Some(At(root, source.value));
        }
        if value.None? {
          return 5;
        }
      } else {
        value := Field(patch, "value", cs);
        if value.None? {
          return 7;
        }
      }
      status := AddAtPath(text, value.value, cs);
    }

    // cJSONUtils_ApplyPatches (cs false) and cJSONUtils_ApplyPatchesCaseSensitive.
    method ApplyPatches(patches: Json, cs: bool) returns (status: int)
      requires patches.Array? ==> forall i :: 0 <= i < |patches.items| ==> Readable(patches.items[i], cs)
      modifies this
      ensures !patches.Array? ==> status == 1 && root == old(root)
      ensures patches.Array? && old(intact) && RunKeepsHeads(old(root), patches.items, cs) ==>
                Outcome(status, root) == AppliedAll(old(root), patches.items, cs)
    {
      if !patches.Array? {
        return 1;
      }
      var i := 0;
      status := 0;
      while i < |patches.items|
        invariant 0 <= i <= |patches.items| && status == 0
        invariant old(intact) && RunKeepsHeads(old(root), patches.items, cs) ==>
                    && RunKeepsHeads(root, patches.items[i..], cs) && (intact || i == |patches.items|)
                    && AppliedAll(old(root), patches.items, cs) == AppliedAll(root, patches.items[i..], cs)
      {
        hide Applied, HeadsKept, Readable, Field;
        assert patches.items[i..][0] == patches.items[i] && patches.items[i..][1..] == patches.items[i + 1..];
        status := ApplyPatch(patches.items[i], cs);
        if status != 0 {
          return;
        }
        i := i + 1;
      }
    }
  }
}
