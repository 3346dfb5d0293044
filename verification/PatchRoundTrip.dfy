/**
  The patches between two documents turn the first into the second, where they can.
 */
module PatchRoundTrip {
  import opened CStrings
  import opened Json
  import opened SortMembers
  import opened CompareJson
  import opened Pointers
  import opened PointerSearch
  import opened Paths
  import opened ApplyPatch
  import opened PatchDiff
  import opened PatchEffects
  import opened PatchTargets

  // Keys that are written into pointers as they stand, and arrays no longer than
  // an index can count.
  ghost predicate Addressable(v: Json) {
    SlashFree(v) && TildeFree(v) && Fits(v)
  }

  ghost predicate TildeFree(v: Json) {
    match v
    case Array(items) => forall i :: 0 <= i < |items| ==> TildeFree(items[i])
    case Object(members) => forall i :: 0 <= i < |members| ==> '~' !in members[i].key && TildeFree(members[i].value)
    case _ => true
  }

  ghost predicate AddressableMembers(ms: seq<Member>) {
    SlashFreeMembers(ms) && FitsMembers(ms) && forall i :: 0 <= i < |ms| ==> '~' !in ms[i].key && TildeFree(ms[i].value)
  }

  // How far below a node patches may reach: without bound (2) until an array
  // element is entered; then to its members (1); then no further (0).
  type Room = n: nat | n <= 2

  function RoomBelow(room: Room, arrayStep: bool): Room
    requires room > 0
  {
    if room == 2 then if arrayStep then 1 else 2 else 0
  }

  // No difference lies out of reach. Where there is no room left, containers of
  // one type must already be equal.
  predicate WithinReach(from: Json, to: Json, room: Room) {
    match (from, to)
    case (Array(x), Array(y)) =>
      if room == 0 then Alike(from, to, false)
      else forall i :: 0 <= i < |x| && i < |y| ==> WithinReach(x[i], y[i], RoomBelow(room, true))
    case (Object(x), Object(y)) =>
      if room == 0 then Alike(from, to, false)
      else forall i, j :: 0 <= i < |x| && 0 <= j < |y| && Fold(x[i].key) == Fold(y[j].key) ==>
                            WithinReach(x[i].value, y[j].value, RoomBelow(room, false))
    case _ => true
  }

  ghost predicate MembersWithinReach(from: seq<Member>, to: seq<Member>, room: Room)
    requires room > 0
  {
    forall i, j :: 0 <= i < |from| && 0 <= j < |to| && Fold(from[i].key) == Fold(to[j].key) ==>
                     WithinReach(from[i].value, to[j].value, RoomBelow(room, false))
  }

  // The room that a path leaves.
  ghost predicate Leaves(path: Path, room: Room) {
    && (path != [] ==> Walkable(path[..|path| - 1]) && Plain(path[|path| - 1]))
    && (room >= 1 ==> Walkable(path))
    && (room == 2 ==> forall i :: 0 <= i < |path| ==> path[i].Name?)
  }

  lemma {:induction false} LeavesBelow(path: Path, room: Room, t: Token)
    requires Leaves(path, room) && room > 0 && Plain(t)
    ensures Leaves(path + [t], RoomBelow(room, t.Index?))
  {
  }

  // ----- What a run of patches achieves

  // The part at path means v.
  ghost predicate Ready(doc: Json, path: Path, v: Value) {
    Tidy(doc, false) && Has(Meaning(doc, false), path) && Get(Meaning(doc, false), path) == v
  }

  // The patches all succeed, each with its intended effect, and together they turn
  // the part at path into v.
  ghost predicate Turns(doc: Json, patches: seq<Json>, targets: seq<Path>, path: Path, v: Value) {
    && RightRun(doc, patches, targets)
    && (forall i :: 0 <= i < |patches| ==> Readable(patches[i], false))
    && (forall i :: 0 <= i < |patches| ==> OperationOf(patches[i], false) != TEST)
    && Has(Meaning(doc, false), path)
    && var out := AppliedAll(doc, patches, false);
    && out.status == 0
    && Tidy(out.doc, false)
    && Meaning(out.doc, false) == Set(Meaning(doc, false), path, v)
  }

  ghost function After(doc: Json, patches: seq<Json>): Json {
    if forall i :: 0 <= i < |patches| ==> Readable(patches[i], false) then AppliedAll(doc, patches, false).doc else doc
  }

  lemma {:induction false} TurnsNone(doc: Json, path: Path)
    requires Tidy(doc, false) && Has(Meaning(doc, false), path)
    ensures Turns(doc, [], [], path, Get(Meaning(doc, false), path))
  {
    SetSame(Meaning(doc, false), path);
  }

  lemma {:induction false} TurnsOne(
    doc: Json, op: string, text: string, value: Option<Json>, target: Path, path: Path, v: Value)
    requires op in {"add", "remove", "replace"} && Has(Meaning(doc, false), path)
    requires RightStep(doc, Patch(op, text, value), target)
    requires Meaning(Applied(doc, Patch(op, text, value), false).doc, false) == Set(Meaning(doc, false), path, v)
    ensures Turns(doc, [Patch(op, text, value)], [target], path, v)
  {
    PatchReadable(op, text, value);
    var p := [Patch(op, text, value)];
    assert p[1..] == [] && [target][1..] == [];
  }

  lemma {:induction false} PatchReadable(op: string, text: string, value: Option<Json>)
    ensures op in {"add", "remove", "replace"} ==> Readable(Patch(op, text, value), false)
    ensures op in {"add", "remove", "replace"} ==> OperationOf(Patch(op, text, value), false) != TEST
  {
  }

  lemma {:induction false} TurnsThen(
    doc: Json, a: seq<Json>, s: seq<Path>, b: seq<Json>, t: seq<Path>, path: Path, v: Value, w: Value)
    requires Turns(doc, a, s, path, v) && Turns(After(doc, a), b, t, path, w)
    ensures Turns(doc, a + b, s + t, path, w)
  {
    AppliedAllConcat(doc, a, b, false);
    RightRunJoins(doc, a, s, b, t);
    SetSet(Meaning(doc, false), path, v, w);
  }

  lemma {:induction false} TurnsReaches(doc: Json, a: seq<Json>, s: seq<Path>, path: Path, v: Value)
    requires Turns(doc, a, s, path, v)
    ensures Ready(After(doc, a), path, v)
  {
    GetSet(Meaning(doc, false), path, v);
  }

  // A change to one part of a node, seen as a change to the node.
  lemma {:induction false} TurnsBelow(doc: Json, a: seq<Json>, s: seq<Path>, path: Path, t: Token, x: Value)
    requires Has(Meaning(doc, false), path) && HasStep(Get(Meaning(doc, false), path), t)
    requires Turns(doc, a, s, path + [t], x)
    ensures Turns(doc, a, s, path, StepSet(Get(Meaning(doc, false), path), t, x))
  {
    Extend(Meaning(doc, false), path, t);
  }

  // ----- Equal documents need no patches, and only they do

  lemma {:induction false} NoPatchesIffAlike(path: string, from: Json, to: Json, cs: bool)
    requires SlashFree(from) && SlashFree(to)
    ensures Diff(path, from, to, cs) == [] <==> Alike(from, to, cs)
    decreases Height(from), 0, 0
  {
    match (from, to)
    case (Array(x), Array(y)) =>
      NoItemPatchesIffAlike(path, 0, x, y, cs);
    case (Object(x), Object(y)) =>
      SortedHeight(x, cs);
      SortedSlashFree(x, cs);
      SortedSlashFree(y, cs);
      NoMemberPatchesIffAlike(path, Sort(x, cs), Sort(y, cs), cs);
    case _ =>
  }

  lemma {:induction false} NoItemPatchesIffAlike(path: string, index: nat, from: seq<Json>, to: seq<Json>, cs: bool)
    requires forall i :: 0 <= i < |from| ==> SlashFree(from[i])
    requires forall i :: 0 <= i < |to| ==> SlashFree(to[i])
    ensures DiffItems(path, index, from, to, cs) == [] <==> AlikeItems(from, to, cs)
    decreases ItemsHeight(from), 1, |from|
  {
    if from != [] && to != [] {
      NoPatchesIffAlike(path + "/" + Decimal(index), from[0], to[0], cs);
      NoItemPatchesIffAlike(path, index + 1, from[1..], to[1..], cs);
    }
  }

  lemma {:induction false} NoMemberPatchesIffAlike(path: string, from: seq<Member>, to: seq<Member>, cs: bool)
    requires SlashFreeMembers(from) && SlashFreeMembers(to)
    ensures DiffMembers(path, from, to, cs) == [] <==> AlikeMembers(from, to, cs)
    decreases MembersHeight(from), 1, |from|
  {
    if from != [] && to != [] {
      if Order(Key(from[0].key, cs), Key(to[0].key, cs)) == 0 {
        NoPatchesIffAlike(PathTo(path, from[0].key), from[0].value, to[0].value, cs);
        NoMemberPatchesIffAlike(path, from[1..], to[1..], cs);
      }
    }
  }

  // ----- The round trip, by induction over the generator

  lemma {:induction false} DiffTurns(doc: Json, path: Path, from: Json, to: Json, room: Room)
    requires Tidy(from, false) && Tidy(to, false) && Addressable(from) && Addressable(to)
    requires WithinReach(from, to, room) && Leaves(path, room)
    requires Ready(doc, path, Meaning(from, false))
    ensures Turns(doc, Diff(PathString(path), from, to, false), Targets(path, from, to), path, Meaning(to, false))
    decreases Height(from), 0, 0
  {
    hide Walkable, Sort, Turns, Fold, PathString, Alike;
    if room == 0 && SameType(from, to) && (from.Array? || from.Object?) {
      NothingTurns(doc, path, from, to);
    } else if from.Array? && to.Array? {
      assert [] + Items(from.items) == Items(from.items) && [] + Items(to.items) == Items(to.items);
      ItemsTurn(doc, path, 0, from.items, to.items, [], room);
    } else if from.Object? && to.Object? {
      var s, t := Sort(from.members, false), Sort(to.members, false);
      SortedHeight(from.members, false);
      SortedSide(from.members);
      SortedSide(to.members);
      SortedWithinReach(from.members, to.members, room);
      MembersTurn(doc, path, s, t, map[], room);
    } else {
      ScalarTurns(doc, path, from, to);
    }
  }

  lemma {:induction false} NothingTurns(doc: Json, path: Path, from: Json, to: Json)
    requires Tidy(from, false) && Tidy(to, false) && SlashFree(from) && SlashFree(to) && Alike(from, to, false)
    requires Ready(doc, path, Meaning(from, false))
    ensures Turns(doc, Diff(PathString(path), from, to, false), Targets(path, from, to), path, Meaning(to, false))
  {
    hide Turns, Alike, Diff, Targets;
    NoPatchesIffAlike(PathString(path), from, to, false);
    NoTargetsIffAlike(path, from, to);
    AlikeIsEqualMeaning(from, to);
    TurnsNone(doc, path);
  }

  // Anything but two containers of one type is replaced as a whole.
  lemma {:induction false} ScalarTurns(doc: Json, path: Path, from: Json, to: Json)
    requires Tidy(to, false) && SlashFree(from) && SlashFree(to)
    requires !(SameType(from, to) && (from.Array? || from.Object?))
    requires path != [] ==> Walkable(path[..|path| - 1]) && Plain(path[|path| - 1])
    requires Ready(doc, path, Meaning(from, false))
    ensures Turns(doc, Diff(PathString(path), from, to, false), Targets(path, from, to), path, Meaning(to, false))
  {
    hide RightStep, Intended, Turns, Walkable, Tidy, Applied, PathString, Has;
    if SameType(from, to) && from == to {
      TurnsNone(doc, path);
    } else {
      ReplaceApplied(doc, path, to);
      RightReplace(doc, path, to);
      TurnsOne(doc, "replace", PathString(path), Some(to), path, path, Meaning(to, false));
    }
  }

  // The same for the part of a node that one more token leads to.
  lemma {:induction false} DiffTurnsBelow(doc: Json, path: Path, t: Token, v: Value, from: Json, to: Json, room: Room)
    requires Tidy(from, false) && Tidy(to, false) && Addressable(from) && Addressable(to)
    requires room > 0 && Leaves(path, room) && Plain(t) && WithinReach(from, to, RoomBelow(room, t.Index?))
    requires Ready(doc, path, v) && HasStep(v, t) && StepTo(v, t) == Meaning(from, false)
    ensures Turns(doc, Diff(PathString(path) + "/" + TokenText(t), from, to, false), Targets(path + [t], from, to),
                  path, StepSet(v, t, Meaning(to, false)))
    decreases Height(from), 0, 1
  {
    LeavesBelow(path, room, t);
    Extend(Meaning(doc, false), path, t);
    PathStringSnoc(path, t);
    DiffTurns(doc, path + [t], from, to, RoomBelow(room, t.Index?));
    TurnsBelow(doc, Diff(PathString(path + [t]), from, to, false), Targets(path + [t], from, to), path, t,
               Meaning(to, false));
  }

  // ----- The walk over two arrays

  ghost function Items(items: seq<Json>): (r: seq<Value>)
    ensures |r| == |items|
  {
    Meaning(Array(items), false).items
  }

  ghost predicate GoodItems(items: seq<Json>) {
    Tidy(Array(items), false) && Addressable(Array(items))
  }

  lemma {:induction false} ItemsTail(items: seq<Json>)
    requires items != [] && GoodItems(items)
    ensures Items(items)[0] == Meaning(items[0], false) && Items(items[1..]) == Items(items)[1..]
    ensures GoodItems(items[1..])
    ensures Tidy(items[0], false) && Addressable(items[0])
  {
  }

  // done holds the elements that are settled, from and to what is left of both arrays.
  ghost predicate Stroll(doc: Json, path: Path, index: nat, from: seq<Json>, to: seq<Json>, done: seq<Value>,
                         room: Room) {
    && room > 0 && Leaves(path, room)
    && GoodItems(from) && GoodItems(to)
    && (from != [] ==> index == |done| && |done| + |from| <= SIZE_LIMIT)
    && (forall i :: 0 <= i < |from| && i < |to| ==> WithinReach(from[i], to[i], RoomBelow(room, true)))
    && Ready(doc, path, VArray(done + Items(from)))
  }

  lemma {:induction false} ItemsTurn(
    doc: Json, path: Path, index: nat, from: seq<Json>, to: seq<Json>, done: seq<Value>, room: Room)
    requires Stroll(doc, path, index, from, to, done, room)
    ensures Turns(doc, DiffItems(PathString(path), index, from, to, false), ItemTargets(path, index, from, to),
                  path, VArray(done + Items(to)))
    decreases ItemsHeight(from), 1, |from| + |to|, 1
  {
    if from == [] && to == [] {
      TurnsNone(doc, path);
    } else if from == [] {
      StrollTo(doc, path, index, to, done, room);
    } else if to == [] {
      StrollFrom(doc, path, index, from, done, room);
    } else {
      StrollBoth(doc, path, index, from, to, done, room);
    }
  }

  lemma {:induction false} Shift<T>(done: seq<T>, rest: seq<T>)
    requires rest != []
    ensures done + [rest[0]] + rest[1..] == done + rest
  {
  }

  lemma {:induction false} StrollBoth(
    doc: Json, path: Path, index: nat, from: seq<Json>, to: seq<Json>, done: seq<Value>, room: Room)
    requires Stroll(doc, path, index, from, to, done, room) && from != [] && to != []
    ensures Turns(doc, DiffItems(PathString(path), index, from, to, false), ItemTargets(path, index, from, to),
                  path, VArray(done + Items(to)))
    decreases ItemsHeight(from), 1, |from| + |to|, 0
  {
    hide Turns, Ready, Diff, Meaning, Has, Get, Tidy;
    var p, next := PathString(path), done + [Meaning(to[0], false)];
    var a, mid := Diff(p + "/" + Decimal(index), from[0], to[0], false), VArray(next + Items(from[1..]));
    ItemsTail(from);
    ItemsTail(to);
    ItemTurns(doc, path, from, to[0], done, room);
    var s := Targets(path + [Index(index)], from[0], to[0]);
    TurnsReaches(doc, a, s, path, mid);
    ItemsTurn(After(doc, a), path, index + 1, from[1..], to[1..], next, room);
    Shift(done, Items(to));
    TurnsThen(doc, a, s, DiffItems(p, index + 1, from[1..], to[1..], false),
              ItemTargets(path, index + 1, from[1..], to[1..]), path, mid, VArray(done + Items(to)));
  }

  lemma {:induction false} StrollFrom(
    doc: Json, path: Path, index: nat, from: seq<Json>, done: seq<Value>, room: Room)
    requires Stroll(doc, path, index, from, [], done, room) && from != []
    ensures Turns(doc, DiffItems(PathString(path), index, from, [], false), ItemTargets(path, index, from, []),
                  path, VArray(done + Items([])))
    decreases ItemsHeight(from), 1, |from|, 0
  {
    hide Turns, Ready, Diff, Meaning, Has, Get, Tidy;
    var p, mid := PathString(path), VArray(done + Items(from[1..]));
    var a := [Patch("remove", PathTo(p, Decimal(index)), None)];
    ItemsTail(from);
    LeftoverRemoved(doc, path, done, Items(from));
    var s := [path + [Index(index)]];
    TurnsReaches(doc, a, s, path, mid);
    ItemsTurn(After(doc, a), path, index, from[1..], [], done, room);
    TurnsThen(doc, a, s, DiffItems(p, index, from[1..], [], false), ItemTargets(path, index, from[1..], []), path, mid,
              VArray(done + Items([])));
  }

  lemma {:induction false} StrollTo(
    doc: Json, path: Path, index: nat, to: seq<Json>, done: seq<Value>, room: Room)
    requires Stroll(doc, path, index, [], to, done, room) && to != []
    ensures Turns(doc, DiffItems(PathString(path), index, [], to, false), ItemTargets(path, index, [], to),
                  path, VArray(done + Items(to)))
    decreases 0, 1, |to|, 0
  {
    hide Turns, Ready, Diff, Meaning, Has, Get, Tidy;
    var p, next := PathString(path), done + [Meaning(to[0], false)];
    var a := [Patch("add", PathTo(p, "-"), Some(to[0]))];
    ItemsTail(to);
    assert done + Items([]) == done && next + Items([]) == next;
    NewAppended(doc, path, done, to[0]);
    var s := [path + [Name("-")]];
    TurnsReaches(doc, a, s, path, VArray(next));
    ItemsTurn(After(doc, a), path, index, [], to[1..], next, room);
    Shift(done, Items(to));
    TurnsThen(doc, a, s, DiffItems(p, index, [], to[1..], false), ItemTargets(path, index, [], to[1..]), path,
              VArray(next), VArray(done + Items(to)));
  }

  lemma {:induction false} ItemTurns(doc: Json, path: Path, from: seq<Json>, to: Json, done: seq<Value>, room: Room)
    requires room > 0 && Leaves(path, room) && |done| < SIZE_LIMIT
    requires from != [] && GoodItems(from) && Tidy(to, false) && Addressable(to)
    requires WithinReach(from[0], to, RoomBelow(room, true))
    requires Ready(doc, path, VArray(done + Items(from)))
    ensures Turns(doc, Diff(PathString(path) + "/" + Decimal(|done|), from[0], to, false),
                  Targets(path + [Index(|done|)], from[0], to), path,
                  VArray(done + [Meaning(to, false)] + Items(from[1..])))
    decreases ItemsHeight(from), 0, 2
  {
    var t, v := Index(|done|), VArray(done + Items(from));
    ItemHeight(from, 0);
    ItemsTail(from);
    DiffTurnsBelow(doc, path, t, v, from[0], to, room);
    PutFirst(done, Items(from), Meaning(to, false));
  }

  lemma {:induction false} PutFirst<T>(done: seq<T>, rest: seq<T>, x: T)
    requires rest != []
    ensures (done + rest)[|done| := x] == done + [x] + rest[1..]
  {
  }

  lemma {:induction false} LeftoverRemoved(doc: Json, path: Path, done: seq<Value>, fv: seq<Value>)
    requires Walkable(path) && |done| < SIZE_LIMIT && fv != [] && Ready(doc, path, VArray(done + fv))
    ensures '/' !in Decimal(|done|)
    ensures Turns(doc, [Patch("remove", PathTo(PathString(path), Decimal(|done|)), None)], [path + [Index(|done|)]],
                  path, VArray(done + fv[1..]))
  {
    var t := Index(|done|);
    DigitsSlashFree(|done|);
    PathStringSnoc(path, t);
    RemoveApplied(doc, path, t);
    RightRemove(doc, path, t);
    assert Without(done + fv, |done|) == done + fv[1..];
    TurnsOne(doc, "remove", PathString(path + [t]), None, path + [t], path, VArray(done + fv[1..]));
  }

  lemma {:induction false} NewAppended(doc: Json, path: Path, done: seq<Value>, x: Json)
    requires Walkable(path) && Tidy(x, false) && Ready(doc, path, VArray(done))
    ensures Turns(doc, [Patch("add", PathTo(PathString(path), "-"), Some(x))], [path + [Name("-")]],
                  path, VArray(done + [Meaning(x, false)]))
  {
    var t := Name("-");
    PathStringSnoc(path, t);
    PlainEncoded("-");
    AddApplied(doc, path, t, x);
    RightAdd(doc, path, t, x);
    TurnsOne(doc, "add", PathString(path + [t]), Some(x), path + [t], path, VArray(done + [Meaning(x, false)]));
  }

  // ----- The merge walk over two sorted member lists

  // One of the lists that are left; done maps the keys that are settled.
  ghost predicate Side(ms: seq<Member>, done: map<string, Value>) {
    && TidyMembers(ms, false)
    && AddressableMembers(ms)
    && Ranked(ms)
    && forall i :: 0 <= i < |ms| ==> Fold(ms[i].key) !in done
  }

  lemma {:induction false} SortedSide(ms: seq<Member>)
    requires TidyMembers(ms, false) && AddressableMembers(ms)
    ensures Side(Sort(ms, false), map[])
    ensures map[] + MembersMeaning(Sort(ms, false), false) == MembersMeaning(ms, false)
  {
    hide Sort, Fold;
    SortKeepsMeaning(ms, false, false);
    SortRanks(ms);
    var s := Sort(ms, false);
    forall i | 0 <= i < |s|
      ensures s[i] in ms
    {
      SortedElement(ms, false, i);
    }
  }

  lemma {:induction false} SortedWithinReach(x: seq<Member>, y: seq<Member>, room: Room)
    requires room > 0 && MembersWithinReach(x, y, room)
    ensures MembersWithinReach(Sort(x, false), Sort(y, false), room)
  {
    var s, t := Sort(x, false), Sort(y, false);
    forall i, j | 0 <= i < |s| && 0 <= j < |t| && Fold(s[i].key) == Fold(t[j].key)
      ensures WithinReach(s[i].value, t[j].value, RoomBelow(room, false))
    {
      SortedElement(x, false, i);
      SortedElement(y, false, j);
    }
  }

  // The head of a side, taken off.
  lemma {:induction false} SideTail(ms: seq<Member>, done: map<string, Value>, x: Value)
    requires ms != [] && Side(ms, done)
    ensures MembersMeaning(ms, false) == MembersMeaning(ms[1..], false)[Fold(ms[0].key) := Meaning(ms[0].value, false)]
    ensures Fold(ms[0].key) !in MembersMeaning(ms[1..], false)
    ensures Side(ms[1..], done)
    ensures Side(ms[1..], done[Fold(ms[0].key) := x])
    ensures Tidy(ms[0].value, false) && Addressable(ms[0].value) && Plain(Name(ms[0].key))
  {
    var k := Fold(ms[0].key);
    MeaningKeys(ms[1..], false, k);
    forall i | 0 <= i < |ms[1..]|
      ensures Fold(ms[1..][i].key) != k
    {
      OrderZero(k, Fold(ms[i + 1].key));
    }
  }

  lemma {:induction false} SideKeeps(ms: seq<Member>, done: map<string, Value>, k: string, x: Value)
    requires Side(ms, done) && forall i :: 0 <= i < |ms| ==> Fold(ms[i].key) != k
    ensures Side(ms, done[k := x])
  {
  }

  lemma {:induction false} ReachTail(from: seq<Member>, to: seq<Member>, room: Room)
    requires room > 0 && MembersWithinReach(from, to, room)
    ensures from != [] ==> MembersWithinReach(from[1..], to, room)
    ensures to != [] ==> MembersWithinReach(from, to[1..], room)
    ensures from != [] && to != [] && Fold(from[0].key) == Fold(to[0].key) ==>
              WithinReach(from[0].value, to[0].value, RoomBelow(room, false))
  {
  }

  ghost predicate Walk(doc: Json, path: Path, from: seq<Member>, to: seq<Member>, done: map<string, Value>,
                       room: Room) {
    && room > 0 && Leaves(path, room)
    && Side(from, done) && Side(to, done) && MembersWithinReach(from, to, room)
    && Ready(doc, path, VObject(done + MembersMeaning(from, false)))
  }

  lemma {:induction false} MembersTurn(
    doc: Json, path: Path, from: seq<Member>, to: seq<Member>, done: map<string, Value>, room: Room)
    requires Walk(doc, path, from, to, done, room)
    ensures Turns(doc, DiffMembers(PathString(path), from, to, false), MemberTargets(path, from, to),
                  path, VObject(done + MembersMeaning(to, false)))
    decreases MembersHeight(from), 1, |from| + |to|, 1
  {
    if from == [] && to == [] {
      TurnsNone(doc, path);
    } else if MergeOrder(from, to, false) == 0 {
      WalkBoth(doc, path, from, to, done, room);
    } else if MergeOrder(from, to, false) < 0 {
      WalkFrom(doc, path, from, to, done, room);
    } else {
      WalkTo(doc, path, from, to, done, room);
    }
  }

  lemma {:induction false} WalkBoth(
    doc: Json, path: Path, from: seq<Member>, to: seq<Member>, done: map<string, Value>, room: Room)
    requires Walk(doc, path, from, to, done, room)
    requires (from != [] || to != []) && MergeOrder(from, to, false) == 0
    ensures Turns(doc, DiffMembers(PathString(path), from, to, false), MemberTargets(path, from, to),
                  path, VObject(done + MembersMeaning(to, false)))
    decreases MembersHeight(from), 1, |from| + |to|, 0
  {
    hide Turns, Ready, TidyMembers, Ranked, MembersWithinReach, WithinReach, Diff, Meaning, Tidy, Addressable, Fold,
         Has, Get;
    var k, x := Fold(from[0].key), Meaning(to[0].value, false);
    var mid := VObject(done[k := x] + MembersMeaning(from[1..], false));
    var a := Diff(PathTo(PathString(path), from[0].key), from[0].value, to[0].value, false);
    OrderZero(k, Fold(to[0].key));
    SideTail(from, done, x);
    SideTail(to, done, x);
    ReachTail(from, to, room);
    ReachTail(from[1..], to, room);
    MemberTurns(doc, path, from, to[0], done, room);
    var s := Targets(path + [Name(from[0].key)], from[0].value, to[0].value);
    TurnsReaches(doc, a, s, path, mid);
    MembersTurn(After(doc, a), path, from[1..], to[1..], done[k := x], room);
    Settle(done, MembersMeaning(to[1..], false), k, x);
    TurnsThen(doc, a, s, DiffMembers(PathString(path), from[1..], to[1..], false),
              MemberTargets(path, from[1..], to[1..]), path, mid, VObject(done + MembersMeaning(to, false)));
  }

  lemma {:induction false} WalkFrom(
    doc: Json, path: Path, from: seq<Member>, to: seq<Member>, done: map<string, Value>, room: Room)
    requires Walk(doc, path, from, to, done, room)
    requires (from != [] || to != []) && MergeOrder(from, to, false) < 0
    ensures Turns(doc, DiffMembers(PathString(path), from, to, false), MemberTargets(path, from, to),
                  path, VObject(done + MembersMeaning(to, false)))
    decreases MembersHeight(from), 1, |from| + |to|, 0
  {
    hide Turns, Ready, TidyMembers, Ranked, MembersWithinReach, WithinReach, Diff, Meaning, Tidy, Addressable, Fold,
         Has, Get;
    var mid := VObject(done + MembersMeaning(from[1..], false));
    var a := [Patch("remove", PathTo(PathString(path), from[0].key), None)];
    SideTail(from, done, VNull);
    ReachTail(from, to, room);
    RemovalTurns(doc, path, from, done);
    var s := [path + [Name(from[0].key)]];
    TurnsReaches(doc, a, s, path, mid);
    MembersTurn(After(doc, a), path, from[1..], to, done, room);
    TurnsThen(doc, a, s, DiffMembers(PathString(path), from[1..], to, false), MemberTargets(path, from[1..], to), path,
              mid, VObject(done + MembersMeaning(to, false)));
  }

  lemma {:induction false} WalkTo(
    doc: Json, path: Path, from: seq<Member>, to: seq<Member>, done: map<string, Value>, room: Room)
    requires Walk(doc, path, from, to, done, room)
    requires (from != [] || to != []) && MergeOrder(from, to, false) > 0
    ensures Turns(doc, DiffMembers(PathString(path), from, to, false), MemberTargets(path, from, to),
                  path, VObject(done + MembersMeaning(to, false)))
    decreases MembersHeight(from), 1, |from| + |to|, 0
  {
    hide Turns, Ready, TidyMembers, Ranked, MembersWithinReach, WithinReach, Diff, Meaning, Tidy, Addressable, Fold,
         Has, Get;
    var k, x := Fold(to[0].key), Meaning(to[0].value, false);
    var mid := VObject(done[k := x] + MembersMeaning(from, false));
    var a := [Patch("add", PathTo(PathString(path), to[0].key), Some(to[0].value))];
    SideTail(to, done, x);
    NotAhead(from, to);
    SideKeeps(from, done, k, x);
    ReachTail(from, to, room);
    AdditionTurns(doc, path, from, to[0], done);
    var s := [path + [Name(to[0].key)]];
    TurnsReaches(doc, a, s, path, mid);
    MembersTurn(After(doc, a), path, from, to[1..], done[k := x], room);
    Settle(done, MembersMeaning(to[1..], false), k, x);
    TurnsThen(doc, a, s, DiffMembers(PathString(path), from, to[1..], false), MemberTargets(path, from, to[1..]), path,
              mid, VObject(done + MembersMeaning(to, false)));
  }

  lemma {:induction false} Settle(done: map<string, Value>, rest: map<string, Value>, k: string, x: Value)
    requires k !in rest
    ensures done[k := x] + rest == done + rest[k := x]
  {
  }

  lemma {:induction false} Announce(done: map<string, Value>, rest: map<string, Value>, k: string, x: Value)
    requires k !in rest
    ensures (done + rest)[k := x] == done[k := x] + rest
  {
  }

  lemma {:induction false} RemovalTurns(doc: Json, path: Path, from: seq<Member>, done: map<string, Value>)
    requires Walkable(path) && from != [] && Side(from, done)
    requires Ready(doc, path, VObject(done + MembersMeaning(from, false)))
    ensures Turns(doc, [Patch("remove", PathTo(PathString(path), from[0].key), None)], [path + [Name(from[0].key)]],
                  path, VObject(done + MembersMeaning(from[1..], false)))
  {
    var key := from[0].key;
    SideTail(from, done, VNull);
    EncodedIsRightIffPlain(key);
    PathStringSnoc(path, Name(key));
    RemoveApplied(doc, path, Name(key));
    RightRemove(doc, path, Name(key));
    SettleHead(done, MembersMeaning(from[1..], false), Fold(key), Meaning(from[0].value, false), VNull);
    TurnsOne(doc, "remove", PathString(path + [Name(key)]), None, path + [Name(key)], path,
             VObject(done + MembersMeaning(from[1..], false)));
  }

  lemma {:induction false} AdditionTurns(doc: Json, path: Path, from: seq<Member>, to: Member, done: map<string, Value>)
    requires Walkable(path) && Plain(Name(to.key)) && Tidy(to.value, false)
    requires Fold(to.key) !in done && forall i :: 0 <= i < |from| ==> Fold(from[i].key) != Fold(to.key)
    requires Ready(doc, path, VObject(done + MembersMeaning(from, false)))
    ensures Turns(doc, [Patch("add", PathTo(PathString(path), to.key), Some(to.value))], [path + [Name(to.key)]], path,
                  VObject(done[Fold(to.key) := Meaning(to.value, false)] + MembersMeaning(from, false)))
  {
    var k, x := Fold(to.key), Meaning(to.value, false);
    EncodedIsRightIffPlain(to.key);
    PathStringSnoc(path, Name(to.key));
    AddApplied(doc, path, Name(to.key), to.value);
    MeaningKeys(from, false, k);
    Announce(done, MembersMeaning(from, false), k, x);
    assert k !in done + MembersMeaning(from, false);
    RightAdd(doc, path, Name(to.key), to.value);
    TurnsOne(doc, "add", PathString(path + [Name(to.key)]), Some(to.value), path + [Name(to.key)], path,
             VObject(done[k := x] + MembersMeaning(from, false)));
  }

  // When the second list is behind, its head is nowhere in the first.
  lemma {:induction false} NotAhead(from: seq<Member>, to: seq<Member>)
    requires Ranked(from) && to != [] && MergeOrder(from, to, false) > 0
    ensures forall i :: 0 <= i < |from| ==> Fold(from[i].key) != Fold(to[0].key)
  {
    forall i | 0 <= i < |from|
      ensures Fold(from[i].key) != Fold(to[0].key)
    {
      OrderFlip(Fold(from[0].key), Fold(to[0].key));
      OrderZero(Fold(from[i].key), Fold(to[0].key));
      if i > 0 {
        OrderFlip(Fold(from[0].key), Fold(from[i].key));
      }
    }
  }

  lemma {:induction false} MemberTurns(
    doc: Json, path: Path, from: seq<Member>, to: Member, done: map<string, Value>, room: Room)
    requires room > 0 && Leaves(path, room) && from != [] && Side(from, done)
    requires Tidy(to.value, false) && Addressable(to.value)
    requires WithinReach(from[0].value, to.value, RoomBelow(room, false))
    requires Ready(doc, path, VObject(done + MembersMeaning(from, false)))
    ensures Turns(doc, Diff(PathTo(PathString(path), from[0].key), from[0].value, to.value, false),
                  Targets(path + [Name(from[0].key)], from[0].value, to.value), path,
                  VObject(done[Fold(from[0].key) := Meaning(to.value, false)] + MembersMeaning(from[1..], false)))
    decreases MembersHeight(from), 0, 2
  {
    var t, v := Name(from[0].key), VObject(done + MembersMeaning(from, false));
    SideTail(from, done, VNull);
    EncodedIsRightIffPlain(t.key);
    MemberHeight(from, 0);
    DiffTurnsBelow(doc, path, t, v, from[0].value, to.value, room);
    SettleHead(done, MembersMeaning(from[1..], false), Fold(t.key), Meaning(from[0].value, false),
               Meaning(to.value, false));
  }

  lemma {:induction false} SettleHead(done: map<string, Value>, rest: map<string, Value>, k: string, was: Value,
                                      x: Value)
    requires k !in rest && k !in done
    ensures (done + rest[k := was])[k := x] == done[k := x] + rest
    ensures done + rest[k := was] - {k} == done + rest
  {
  }

  // ----- The theorem

  // Without tests nothing is sorted while patches are applied.
  lemma {:induction false} NoTestsKeepHeads(doc: Json, patches: seq<Json>, cs: bool)
    requires forall i :: 0 <= i < |patches| ==> Readable(patches[i], cs)
    requires forall i :: 0 <= i < |patches| ==> OperationOf(patches[i], cs) != TEST
    ensures RunKeepsHeads(doc, patches, cs)
    decreases |patches|
  {
    hide Applied, Readable, OperationOf;
    if |patches| > 1 {
      var rest := patches[1..];
      assert forall i :: 0 <= i < |rest| ==> rest[i] == patches[i + 1];
      NoTestsKeepHeads(Applied(doc, patches[0], cs).doc, rest, cs);
    }
  }

  lemma {:induction false} PatchRoundTrip(doc: Json, from: Json, to: Json)
    requires Tidy(from, false) && Tidy(to, false) && Addressable(from) && Addressable(to)
    requires WithinReach(from, to, 2)
    requires Tidy(doc, false) && Alike(doc, from, false)
    ensures var patches := Diff("", from, to, false);
            && (forall i :: 0 <= i < |patches| ==> Readable(patches[i], false))
            && RightRun(doc, patches, Targets([], from, to)) && RunKeepsHeads(doc, patches, false)
            && AppliedAll(doc, patches, false).status == 0
            && Alike(AppliedAll(doc, patches, false).doc, to, false)
  {
    hide RightRun, Readable, Tidy, Alike, Meaning;
    AlikeIsEqualMeaning(doc, from);
    DiffTurns(doc, [], from, to, 2);
    NoTestsKeepHeads(doc, Diff("", from, to, false), false);
    AlikeIsEqualMeaning(AppliedAll(doc, Diff("", from, to, false), false).doc, to);
  }
}
