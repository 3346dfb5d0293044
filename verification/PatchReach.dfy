/**
  How far generated patches reach: the condition of the round trip holds exactly if
  the pointer walk can follow the path of every generated patch.

  The targets of the patches are listed in the order of the patches, as tokens rather
  than as text, and a target is followed if its parent is where the walk ends. Documents
  with flat arrays reach every other one. Examples show what a patch out of reach does.
 */
module PatchReach {
  import opened CStrings
  import opened Json
  import opened SortMembers
  import opened CompareJson
  import opened Pointers
  import opened PointerSearch
  import opened Paths
  import opened ApplyPatch
  import opened PatchDiff
  import opened PatchEffects
  import opened PatchTargets
  import opened PatchRoundTrip

  // ----- The generated patches name their targets

  // A patch with the text of its target as path, written as it stands.
  ghost predicate IsAbout(patch: Json, target: Path) {
    && Field(patch, "path", false) == Some(String(PathString(target)))
    && (Field(patch, "value", false).Some? ==> Tidy(Field(patch, "value", false).value, false))
    && PlainPath(target)
  }

  ghost predicate Addresses(patches: seq<Json>, targets: seq<Path>) {
    |patches| == |targets| && forall i :: 0 <= i < |patches| ==> IsAbout(patches[i], targets[i])
  }

  lemma {:induction false} AddressesJoin(a: seq<Json>, s: seq<Path>, b: seq<Json>, t: seq<Path>)
    requires Addresses(a, s) && Addresses(b, t)
    ensures Addresses(a + b, s + t)
  {
    hide IsAbout;
  }

  lemma {:induction false} AddressesOne(op: string, path: Path, t: Token, suffix: string, value: Option<Json>)
    requires '/' !in suffix && '~' !in suffix && TokenText(t) == suffix
    requires PlainPath(path) && Plain(t) && (value.Some? ==> Tidy(value.value, false))
    ensures Addresses([Patch(op, PathTo(PathString(path), suffix), value)], [path + [t]])
  {
    hide Field, Tidy;
    PathStringSnoc(path, t);
    PlainEncoded(suffix);
    PatchFields(op, PathTo(PathString(path), suffix), value);
  }

  lemma {:induction false} DiffAddresses(path: Path, from: Json, to: Json)
    requires Tidy(from, false) && Tidy(to, false) && Addressable(from) && Addressable(to) && PlainPath(path)
    ensures Addresses(Diff(PathString(path), from, to, false), Targets(path, from, to))
    decreases Height(from), 0, 0
  {
    hide Addresses, Plain, Sort;
    match (from, to)
    case (Array(x), Array(y)) =>
      ItemsAddress(path, 0, x, y);
    case (Object(x), Object(y)) =>
      ObjectAddresses(path, x, y);
    case _ =>
      ScalarAddresses(path, from, to);
  }

  lemma {:induction false} ObjectAddresses(path: Path, x: seq<Member>, y: seq<Member>)
    requires TidyMembers(x, false) && TidyMembers(y, false) && PlainPath(path)
    requires AddressableMembers(x) && AddressableMembers(y)
    ensures SlashFreeMembers(Sort(x, false)) && SlashFreeMembers(Sort(y, false))
    ensures Addresses(DiffMembers(PathString(path), Sort(x, false), Sort(y, false), false),
                      MemberTargets(path, Sort(x, false), Sort(y, false)))
    decreases MembersHeight(x), 2, 0
  {
    hide Addresses, Sort;
    SortedHeight(x, false);
    SortedSide(x);
    SortedSide(y);
    MembersAddress(path, Sort(x, false), Sort(y, false));
  }

  lemma {:induction false} ScalarAddresses(path: Path, from: Json, to: Json)
    requires SlashFree(from) && SlashFree(to) && Tidy(to, false) && PlainPath(path)
    requires !(SameType(from, to) && (from.Array? || from.Object?))
    ensures Addresses(Diff(PathString(path), from, to, false), Targets(path, from, to))
  {
    PatchFields("replace", PathString(path), Some(to));
  }

  lemma {:induction false} ItemsAddress(path: Path, index: nat, from: seq<Json>, to: seq<Json>)
    requires GoodItems(from) && GoodItems(to) && PlainPath(path)
    requires from != [] ==> index + |from| <= SIZE_LIMIT
    ensures Addresses(DiffItems(PathString(path), index, from, to, false), ItemTargets(path, index, from, to))
    decreases ItemsHeight(from), 1, |from| + |to|
  {
    hide Diff, Targets, Addresses, PathString, PathTo;
    var p := PathString(path);
    if from != [] {
      ItemsTail(from);
    }
    if to != [] {
      ItemsTail(to);
    }
    if from != [] && to != [] {
      PathStringSnoc(path, Index(index));
      DiffAddresses(path + [Index(index)], from[0], to[0]);
      ItemsAddress(path, index + 1, from[1..], to[1..]);
      AddressesJoin(Diff(p + "/" + Decimal(index), from[0], to[0], false),
                    Targets(path + [Index(index)], from[0], to[0]),
                    DiffItems(p, index + 1, from[1..], to[1..], false),
                    ItemTargets(path, index + 1, from[1..], to[1..]));
    } else if from != [] {
      DigitsSlashFree(index);
      AddressesOne("remove", path, Index(index), Decimal(index), None);
      ItemsAddress(path, index, from[1..], to);
      AddressesJoin([Patch("remove", PathTo(p, Decimal(index)), None)], [path + [Index(index)]],
                    DiffItems(p, index, from[1..], to, false), ItemTargets(path, index, from[1..], to));
    } else if to != [] {
      AddressesOne("add", path, Name("-"), "-", Some(to[0]));
      ItemsAddress(path, index, from, to[1..]);
      AddressesJoin([Patch("add", PathTo(p, "-"), Some(to[0]))], [path + [Name("-")]],
                    DiffItems(p, index, from, to[1..], false), ItemTargets(path, index, from, to[1..]));
    } else {
      NoneAddress();
    }
  }

  lemma {:induction false} NoneAddress()
    ensures Addresses([], [])
  {
  }

  lemma {:induction false} MembersAddress(path: Path, from: seq<Member>, to: seq<Member>)
    requires Side(from, map[]) && Side(to, map[]) && PlainPath(path)
    ensures Addresses(DiffMembers(PathString(path), from, to, false), MemberTargets(path, from, to))
    decreases MembersHeight(from), 1, |from| + |to|
  {
    hide Diff, Targets, Addresses, PathString;
    var p := PathString(path);
    if from != [] {
      SideTail(from, map[], VNull);
    }
    if to != [] {
      SideTail(to, map[], VNull);
    }
    if from == [] && to == [] {
      NoneAddress();
    } else if MergeOrder(from, to, false) == 0 {
      var k := from[0].key;
      PathStringSnoc(path, Name(k));
      PlainEncoded(k);
      DiffAddresses(path + [Name(k)], from[0].value, to[0].value);
      MembersAddress(path, from[1..], to[1..]);
      AddressesJoin(Diff(PathTo(p, k), from[0].value, to[0].value, false),
                    Targets(path + [Name(k)], from[0].value, to[0].value),
                    DiffMembers(p, from[1..], to[1..], false), MemberTargets(path, from[1..], to[1..]));
    } else if MergeOrder(from, to, false) < 0 {
      var k := from[0].key;
      AddressesOne("remove", path, Name(k), k, None);
      MembersAddress(path, from[1..], to);
      AddressesJoin([Patch("remove", PathTo(p, k), None)], [path + [Name(k)]],
                    DiffMembers(p, from[1..], to, false), MemberTargets(path, from[1..], to));
    } else {
      var k := to[0].key;
      AddressesOne("add", path, Name(k), k, Some(to[0].value));
      MembersAddress(path, from, to[1..]);
      AddressesJoin([Patch("add", PathTo(p, k), Some(to[0].value))], [path + [Name(k)]],
                    DiffMembers(p, from, to[1..], false), MemberTargets(path, from, to[1..]));
    }
  }

  // ----- Which targets the walk can follow

  // The walk can follow the path of the node that the patch changes.
  ghost predicate Followed(target: Path) {
    target != [] ==> Walkable(target[..|target| - 1]) && Plain(target[|target| - 1])
  }

  ghost predicate AllFollowed(targets: seq<Path>) {
    forall i :: 0 <= i < |targets| ==> Followed(targets[i])
  }

  lemma {:induction false} AllFollowedJoin(s: seq<Path>, t: seq<Path>)
    ensures AllFollowed(s + t) <==> AllFollowed(s) && AllFollowed(t)
  {
    if AllFollowed(s + t) {
      forall i | 0 <= i < |s|
        ensures Followed(s[i])
      {
        assert (s + t)[i] == s[i];
      }
      forall i | 0 <= i < |t|
        ensures Followed(t[i])
      {
        assert (s + t)[|s| + i] == t[i];
      }
    }
  }

  // The room that a path leaves, and not more.
  ghost predicate LeavesOnly(path: Path, room: Room) {
    && Leaves(path, room)
    && (room == 1 ==> path != [] && path[|path| - 1].Index?)
    && (room == 0 ==> !Walkable(path))
  }

  lemma {:induction false} LeavesOnlyBelow(path: Path, room: Room, t: Token)
    requires LeavesOnly(path, room) && room > 0 && Plain(t)
    ensures LeavesOnly(path + [t], RoomBelow(room, t.Index?))
    ensures Followed(path + [t])
  {
  }

  // ----- Every target lies at the path or below it

  ghost predicate Below(targets: seq<Path>, path: Path) {
    forall i :: 0 <= i < |targets| ==> path < targets[i]
  }

  ghost predicate AtOrBelow(targets: seq<Path>, path: Path) {
    forall i :: 0 <= i < |targets| ==> path <= targets[i]
  }

  lemma {:induction false} BelowJoin(s: seq<Path>, t: seq<Path>, path: Path, token: Token)
    requires AtOrBelow(s, path + [token]) && Below(t, path)
    ensures Below(s + t, path)
  {
  }

  lemma {:induction false} TargetsBelow(path: Path, from: Json, to: Json)
    ensures AtOrBelow(Targets(path, from, to), path)
    ensures SameType(from, to) && (from.Array? || from.Object?) ==> Below(Targets(path, from, to), path)
    decreases Height(from), 0, 0
  {
    match (from, to)
    case (Array(x), Array(y)) =>
      ItemTargetsBelow(path, 0, x, y);
    case (Object(x), Object(y)) =>
      SortedHeight(x, false);
      MemberTargetsBelow(path, Sort(x, false), Sort(y, false));
    case _ =>
  }

  lemma {:induction false} ItemTargetsBelow(path: Path, index: nat, from: seq<Json>, to: seq<Json>)
    ensures Below(ItemTargets(path, index, from, to), path)
    decreases ItemsHeight(from), 1, |from| + |to|
  {
    hide Targets;
    if from != [] && to != [] {
      TargetsBelow(path + [Index(index)], from[0], to[0]);
      ItemTargetsBelow(path, index + 1, from[1..], to[1..]);
      BelowJoin(Targets(path + [Index(index)], from[0], to[0]), ItemTargets(path, index + 1, from[1..], to[1..]),
                path, Index(index));
    } else if from != [] {
      ItemTargetsBelow(path, index, from[1..], to);
      BelowJoin([path + [Index(index)]], ItemTargets(path, index, from[1..], to), path, Index(index));
    } else if to != [] {
      ItemTargetsBelow(path, index, from, to[1..]);
      BelowJoin([path + [Name("-")]], ItemTargets(path, index, from, to[1..]), path, Name("-"));
    }
  }

  lemma {:induction false} MemberTargetsBelow(path: Path, from: seq<Member>, to: seq<Member>)
    ensures Below(MemberTargets(path, from, to), path)
    decreases MembersHeight(from), 1, |from| + |to|
  {
    hide Targets;
    if from == [] && to == [] {
    } else if MergeOrder(from, to, false) == 0 {
      var t := Name(from[0].key);
      TargetsBelow(path + [t], from[0].value, to[0].value);
      MemberTargetsBelow(path, from[1..], to[1..]);
      BelowJoin(Targets(path + [t], from[0].value, to[0].value), MemberTargets(path, from[1..], to[1..]), path, t);
    } else if MergeOrder(from, to, false) < 0 {
      var t := Name(from[0].key);
      MemberTargetsBelow(path, from[1..], to);
      BelowJoin([path + [t]], MemberTargets(path, from[1..], to), path, t);
    } else {
      var t := Name(to[0].key);
      MemberTargetsBelow(path, from, to[1..]);
      BelowJoin([path + [t]], MemberTargets(path, from, to[1..]), path, t);
    }
  }

  // What lies below a path that cannot be walked cannot be followed.
  lemma {:induction false} NotFollowed(path: Path, target: Path)
    requires !Walkable(path) && path < target
    ensures !Followed(target)
  {
  }

  // ----- The condition is exact

  lemma {:induction false} ReachIffFollowed(path: Path, from: Json, to: Json, room: Room)
    requires Tidy(from, false) && Tidy(to, false) && Addressable(from) && Addressable(to) && LeavesOnly(path, room)
    ensures WithinReach(from, to, room) <==> AllFollowed(Targets(path, from, to))
    decreases Height(from), 0, 0
  {
    hide LeavesOnly, Followed, Alike, RoomBelow;
    match (from, to)
    case (Array(x), Array(y)) =>
      if room == 0 {
        PathFollowed(path, room);
        NoRoom(path, from, to);
      } else {
        ItemsReach(path, 0, x, y, room);
      }
    case (Object(x), Object(y)) =>
      if room == 0 {
        PathFollowed(path, room);
        NoRoom(path, from, to);
      } else {
        ObjectReach(path, x, y, room);
      }
    case _ =>
      PathFollowed(path, room);
  }

  lemma {:induction false} ObjectReach(path: Path, x: seq<Member>, y: seq<Member>, room: Room)
    requires TidyMembers(x, false) && TidyMembers(y, false) && AddressableMembers(x) && AddressableMembers(y)
    requires LeavesOnly(path, room) && room > 0
    ensures MembersWithinReach(x, y, room) <==> AllFollowed(MemberTargets(path, Sort(x, false), Sort(y, false)))
    decreases MembersHeight(x), 2, 0
  {
    hide LeavesOnly, Followed, MembersWithinReach, Sort;
    SortedHeight(x, false);
    SortedSide(x);
    SortedSide(y);
    SortedReach(x, y, room);
    MembersReach(path, Sort(x, false), Sort(y, false), room);
  }

  lemma {:induction false} PathFollowed(path: Path, room: Room)
    requires LeavesOnly(path, room)
    ensures Followed(path) && (room == 0 ==> !Walkable(path))
  {
  }

  // Where there is no room, only the absence of patches will do.
  lemma {:induction false} NoRoom(path: Path, from: Json, to: Json)
    requires Addressable(from) && Addressable(to) && SameType(from, to) && (from.Array? || from.Object?)
    requires !Walkable(path)
    ensures Alike(from, to, false) <==> AllFollowed(Targets(path, from, to))
  {
    hide Targets, Diff, Alike, Addressable;
    TargetsBelow(path, from, to);
    NoTargetsIffAlike(path, from, to);
    var targets := Targets(path, from, to);
    if targets != [] {
      NotFollowed(path, targets[0]);
    }
  }

  ghost predicate ItemsWithinReach(from: seq<Json>, to: seq<Json>, room: Room)
    requires room > 0
  {
    forall i :: 0 <= i < |from| && i < |to| ==> WithinReach(from[i], to[i], RoomBelow(room, true))
  }

  lemma {:induction false} ItemsReachTail(from: seq<Json>, to: seq<Json>, room: Room)
    requires room > 0 && from != [] && to != []
    ensures ItemsWithinReach(from, to, room)
        <==> WithinReach(from[0], to[0], RoomBelow(room, true)) && ItemsWithinReach(from[1..], to[1..], room)
  {
  }

  lemma {:induction false} ItemsReach(path: Path, index: nat, from: seq<Json>, to: seq<Json>, room: Room)
    requires GoodItems(from) && GoodItems(to) && LeavesOnly(path, room) && room > 0
    requires from != [] ==> index + |from| <= SIZE_LIMIT
    ensures ItemsWithinReach(from, to, room) <==> AllFollowed(ItemTargets(path, index, from, to))
    decreases ItemsHeight(from), 1, |from| + |to|
  {
    hide WithinReach, LeavesOnly, Targets, Followed, Tidy, RoomBelow;
    if from != [] && to != [] {
      var t := Index(index);
      ItemsTail(from);
      ItemsTail(to);
      LeavesOnlyBelow(path, room, t);
      ReachIffFollowed(path + [t], from[0], to[0], RoomBelow(room, true));
      ItemsReach(path, index + 1, from[1..], to[1..], room);
      ItemsReachTail(from, to, room);
      AllFollowedJoin(Targets(path + [t], from[0], to[0]), ItemTargets(path, index + 1, from[1..], to[1..]));
    } else if from != [] {
      ItemsTail(from);
      LeavesOnlyBelow(path, room, Index(index));
      ItemsReach(path, index, from[1..], to, room);
      AllFollowedJoin([path + [Index(index)]], ItemTargets(path, index, from[1..], to));
    } else if to != [] {
      ItemsTail(to);
      LeavesOnlyBelow(path, room, Name("-"));
      ItemsReach(path, index, from, to[1..], room);
      AllFollowedJoin([path + [Name("-")]], ItemTargets(path, index, from, to[1..]));
    }
  }

  // Sorting both sides does not change which members meet.
  lemma {:induction false} SortedReach(x: seq<Member>, y: seq<Member>, room: Room)
    requires room > 0
    ensures MembersWithinReach(x, y, room) <==> MembersWithinReach(Sort(x, false), Sort(y, false), room)
  {
    if MembersWithinReach(x, y, room) {
      SortedWithinReach(x, y, room);
    }
    if MembersWithinReach(Sort(x, false), Sort(y, false), room) {
      forall i, j | 0 <= i < |x| && 0 <= j < |y| && Fold(x[i].key) == Fold(y[j].key)
        ensures WithinReach(x[i].value, y[j].value, RoomBelow(room, false))
      {
        var k := ElementSorted(x, false, i);
        var l := ElementSorted(y, false, j);
      }
    }
  }

  // The heads meet each other, or the one in front meets nothing.
  lemma {:induction false} MeetingHeads(from: seq<Member>, to: seq<Member>, room: Room)
    requires room > 0 && Ranked(from) && Ranked(to) && (from != [] || to != [])
    ensures MergeOrder(from, to, false) == 0 ==>
              (MembersWithinReach(from, to, room) <==>
                 WithinReach(from[0].value, to[0].value, RoomBelow(room, false))
                   && MembersWithinReach(from[1..], to[1..], room))
    ensures MergeOrder(from, to, false) < 0 ==>
              (MembersWithinReach(from, to, room) <==> MembersWithinReach(from[1..], to, room))
    ensures MergeOrder(from, to, false) > 0 ==>
              (MembersWithinReach(from, to, room) <==> MembersWithinReach(from, to[1..], room))
  {
    hide WithinReach, RoomBelow, Order;
    if MergeOrder(from, to, false) == 0 {
      OrderZero(Fold(from[0].key), Fold(to[0].key));
      RankedTail(from);
      RankedTail(to);
    } else if MergeOrder(from, to, false) > 0 {
      NotAhead(from, to);
    } else {
      NotBehind(from, to);
    }
  }

  lemma {:induction false} RankedTail(ms: seq<Member>)
    requires Ranked(ms) && ms != []
    ensures forall i :: 0 < i < |ms| ==> Fold(ms[i].key) != Fold(ms[0].key)
  {
    forall i | 0 < i < |ms|
      ensures Fold(ms[i].key) != Fold(ms[0].key)
    {
      OrderZero(Fold(ms[0].key), Fold(ms[i].key));
    }
  }

  lemma {:induction false} NotBehind(from: seq<Member>, to: seq<Member>)
    requires Ranked(to) && from != [] && MergeOrder(from, to, false) < 0
    ensures forall i :: 0 <= i < |to| ==> Fold(from[0].key) != Fold(to[i].key)
  {
    forall i | 0 <= i < |to|
      ensures Fold(from[0].key) != Fold(to[i].key)
    {
      OrderFlip(Fold(from[0].key), Fold(to[0].key));
      OrderZero(Fold(from[0].key), Fold(to[i].key));
      if i > 0 {
        OrderFlip(Fold(to[0].key), Fold(to[i].key));
      }
    }
  }

  lemma {:induction false} MembersReach(path: Path, from: seq<Member>, to: seq<Member>, room: Room)
    requires Side(from, map[]) && Side(to, map[]) && LeavesOnly(path, room) && room > 0
    ensures MembersWithinReach(from, to, room) <==> AllFollowed(MemberTargets(path, from, to))
    decreases MembersHeight(from), 1, |from| + |to|
  {
    hide WithinReach, LeavesOnly, Targets, Followed, Tidy, RoomBelow, MembersWithinReach, Ranked, Addressable,
         MergeOrder;
    if from == [] && to == [] {
      NothingMeets(room);
    } else {
      if from != [] {
        SideTail(from, map[], VNull);
        LeavesOnlyBelow(path, room, Name(from[0].key));
      }
      if to != [] {
        SideTail(to, map[], VNull);
        LeavesOnlyBelow(path, room, Name(to[0].key));
      }
      MeetingHeads(from, to, room);
      if MergeOrder(from, to, false) == 0 {
        var t := Name(from[0].key);
        ReachIffFollowed(path + [t], from[0].value, to[0].value, RoomBelow(room, false));
        MembersReach(path, from[1..], to[1..], room);
        AllFollowedJoin(Targets(path + [t], from[0].value, to[0].value), MemberTargets(path, from[1..], to[1..]));
      } else if MergeOrder(from, to, false) < 0 {
        MembersReach(path, from[1..], to, room);
        AllFollowedJoin([path + [Name(from[0].key)]], MemberTargets(path, from[1..], to));
      } else {
        MembersReach(path, from, to[1..], room);
        AllFollowedJoin([path + [Name(to[0].key)]], MemberTargets(path, from, to[1..]));
      }
    }
  }

  lemma {:induction false} NothingMeets(room: Room)
    requires room > 0
    ensures MembersWithinReach([], [], room)
  {
  }

  // The condition of the round trip, in terms of what is generated.
  lemma {:induction false} ReachIsExact(from: Json, to: Json)
    requires Tidy(from, false) && Tidy(to, false) && Addressable(from) && Addressable(to)
    ensures Addresses(Diff("", from, to, false), Targets([], from, to))
    ensures WithinReach(from, to, 2) <==> AllFollowed(Targets([], from, to))
  {
    DiffAddresses([], from, to);
    ReachIffFollowed([], from, to, 2);
  }

  // ----- Out of reach
  //
  // Below an array element's members the walk stops early, and a patch then lands on
  // the wrong node.

  lemma {:induction false} NameStep(doc: Json, key: string, below: string) returns (i: nat)
    requires Tidy(doc, false) && Plain(Name(key)) && HasStep(Meaning(doc, false), Name(key))
    requires below == "" || below[0] == '/'
    ensures doc.Object? && i < |doc.members| && Fold(doc.members[i].key) == Fold(key)
    ensures Tidy(doc.members[i].value, false)
    ensures Meaning(doc.members[i].value, false) == StepTo(Meaning(doc, false), Name(key))
    ensures Resolve(doc, "/" + (key + below), false) == Step(i, Resolve(doc.members[i].value, below, false))
  {
    var ms := doc.members;
    FindMeaning(ms, key, false);
    i := FindMember(ms, key, false).value;
    EncodedIsRightIffPlain(key);
    ResolveObjectStep(ms, key, below, false);
    NamedByPlain(ms, key, below, false);
  }

  // The first array step ends the walk, whatever follows it.
  lemma {:induction false} WalkStops(doc: Json, path: Path, k: nat) returns (pos: Position)
    requires Tidy(doc, false) && k < |path| && Walkable(path[..k + 1]) && path[k].Index?
    requires Has(Meaning(doc, false), path[..k + 1])
    ensures Resolve(doc, PathString(path), false) == Some(pos) && Leads(doc, path[..k + 1], pos)
    decreases k
  {
    hide Resolve, Tidy;
    var head, below := path[..k + 1], PathString(path[1..]);
    assert head[0] == path[0];
    if k == 0 {
      ResolveArrayStep(doc.items, path[0].index, below, false);
      pos := [path[0].index];
    } else {
      assert head[1..] == path[1..][..k];
      var i := NameStep(doc, path[0].key, below);
      assert Walkable(path[1..][..k]) && Has(StepTo(Meaning(doc, false), path[0]), head[1..]);
      var rest := WalkStops(doc.members[i].value, path[1..], k - 1);
      pos := [i] + rest;
    }
  }

  // The walk ends at the element of the array, whatever follows.
  lemma {:induction false} ResolvesTooHigh(items: seq<Json>, i: nat, child: string)
    requires '/' !in child && '~' !in child
    ensures Splits("/0/" + Decimal(i) + "/" + child, "/0/" + Decimal(i), child)
    ensures Resolve(Array([Array(items)]), "/0/" + Decimal(i), false) == Some([0])
  {
    hide Resolve, Decimal;
    SplitText("/0/" + Decimal(i), child);
    var below := "/" + Decimal(i);
    Digits();
    assert "/" + (Decimal(0) + below) == "/0/" + Decimal(i);
    ResolveArrayStep([Array(items)], 0, below, false);
  }

  lemma {:induction false} PutRow(items: seq<Json>, row: Json)
    ensures At(Array([Array(items)]), [0]) == Array(items)
    ensures Put(Array([Array(items)]), [0], row) == Array([row])
  {
  }

  lemma {:induction false} RemovesTooHigh(items: seq<Json>, i: nat, k: nat)
    requires k < |items| && k < SIZE_LIMIT
    ensures '/' !in Decimal(k)
    ensures DetachedAt(Array([Array(items)]), "/0/" + Decimal(i) + "/" + Decimal(k), false)
         == Some(Detached(items[k], Array([Array(Without(items, k))])))
  {
    hide Resolve, Splits, DetachedAt;
    DigitsSlashFree(k);
    ResolvesTooHigh(items, i, Decimal(k));
    assert Decimal(k) + "" == Decimal(k);
    IndexOfDecimal(k, "");
    PutRow(items, Array(Without(items, k)));
    DetachedIs(Array([Array(items)]), "/0/" + Decimal(i) + "/" + Decimal(k), "/0/" + Decimal(i), Decimal(k), [0]);
  }

  lemma {:induction false} InsertsTooHigh(items: seq<Json>, i: nat, k: nat, x: Json)
    requires k <= |items| && k < SIZE_LIMIT
    ensures AddedAt(Array([Array(items)]), "/0/" + Decimal(i) + "/" + Decimal(k), x, false)
         == Outcome(0, Array([Array(Inserted(items, k, x))]))
  {
    hide Resolve, Decimal, LastSlash;
    DigitsSlashFree(k);
    ResolvesTooHigh(items, i, Decimal(k));
    assert Decimal(k) + "" == Decimal(k);
    IndexOfDecimal(k, "");
    assert Decimal(k)[0] != "-"[0];
    PutRow(items, Array(Inserted(items, k, x)));
  }

  lemma {:induction false} AppendsTooHigh(items: seq<Json>, i: nat, x: Json)
    ensures AddedAt(Array([Array(items)]), "/0/" + Decimal(i) + "/-", x, false)
         == Outcome(0, Array([Array(items + [x])]))
  {
    hide Resolve, Decimal, LastSlash;
    ResolvesTooHigh(items, i, "-");
    assert "/0/" + Decimal(i) + "/" + "-" == "/0/" + Decimal(i) + "/-";
    PutRow(items, Array(items + [x]));
  }

  // A replacement two levels below an array element hits the element's own children.
  lemma {:induction false} ReplacesTooHigh(items: seq<Json>, i: nat, k: nat, x: Json)
    requires k < |items| && k < SIZE_LIMIT
    ensures Applied(Array([Array(items)]), Patch("replace", "/0/" + Decimal(i) + "/" + Decimal(k), Some(x)), false)
         == Outcome(0, Array([Array(items[k := x])]))
  {
    hide Applied, AddedAt, DetachedAt, Decimal;
    RunReplace(Array([Array(items)]), "/0/" + Decimal(i) + "/" + Decimal(k), x);
    RemovesTooHigh(items, i, k);
    InsertsTooHigh(Without(items, k), i, k, x);
    assert Inserted(Without(items, k), k, x) == items[k := x];
  }

  function Nested(v: Json): (r: Json)
    ensures SlashFree(v) ==> SlashFree(Array([v])) && SlashFree(Array([Array([v])])) && SlashFree(r)
  {
    Array([Array([Array([v])])])
  }

  // A text three arrays deep: the patch is applied with success, and the result is
  // another document.
  lemma {:induction false} DeepDifferenceIsLost(x: string, y: string)
    requires x != y
    ensures Diff("", Nested(String(x)), Nested(String(y)), false) == [Patch("replace", "/0/0/0", Some(String(y)))]
    ensures Applied(Nested(String(x)), Patch("replace", "/0/0/0", Some(String(y))), false)
         == Outcome(0, Array([Array([String(y)])]))
    ensures !Alike(Array([Array([String(y)])]), Nested(String(y)), false)
  {
    hide Diff, Decimal, Applied, Alike, Patch;
    DeepDiff(String(x), String(y));
    ReplacesTooHigh([Array([String(x)])], 0, 0, String(y));
    Digits();
    assert "/0/" + "0" + "/" + "0" == "/0/0/0";
    assert [Array([String(x)])][0 := String(y)] == [String(y)];
    TooFlat(y);
  }

  lemma {:induction false} Digits()
    ensures Decimal(0) == "0" && Decimal(1) == "1"
  {
  }

  lemma {:induction false} TooFlat(y: string)
    ensures !Alike(Array([Array([String(y)])]), Nested(String(y)), false)
  {
    assert !Alike(String(y), Array([String(y)]), false);
    assert !AlikeItems([String(y)], [Array([String(y)])], false);
    assert !AlikeItems([Array([String(y)])], [Array([Array([String(y)])])], false);
  }

  lemma {:induction false} DeepDiff(x: Json, y: Json)
    requires x.String? && y.String? && x != y
    ensures Diff("", Nested(x), Nested(y), false) == [Patch("replace", "/0/0/0", Some(y))]
  {
    hide Diff, Decimal;
    assert SlashFree(Nested(x)) && SlashFree(Nested(y));
    OneItem("", Array([Array([x])]), Array([Array([y])]));
    OneItem("/0", Array([x]), Array([y]));
    OneItem("/0/0", x, y);
    Scalars("/0/0/0", x, y);
    assert "" + "/0" == "/0" && "/0" + "/0" == "/0/0" && "/0/0" + "/0" == "/0/0/0";
  }

  lemma {:induction false} Scalars(path: string, x: Json, y: Json)
    requires x.String? && y.String? && x != y
    ensures Diff(path, x, y, false) == [Patch("replace", path, Some(y))]
  {
  }

  lemma {:induction false} OneItem(path: string, x: Json, y: Json)
    requires SlashFree(x) && SlashFree(y)
    ensures Diff(path, Array([x]), Array([y]), false) == Diff(path + "/0", x, y, false)
  {
    OneItemDiff(path, x, y);
    hide DiffItems;
  }

  lemma {:induction false} OneItemDiff(path: string, x: Json, y: Json)
    requires SlashFree(x) && SlashFree(y)
    ensures DiffItems(path, 0, [x], [y], false) == Diff(path + "/0", x, y, false)
  {
    hide Diff;
    assert Decimal(0) == "0" && path + "/" + "0" == path + "/0";
    assert [x][1..] == [] && [y][1..] == [];
    assert DiffItems(path, 1, [], [], false) == [];
  }

  // Patches that miss may still add up to the right document: here both act on the
  // element instead of on its children.
  lemma {:induction false} MissesMayCancel()
    ensures var (e, s) := (Array([]), Array([Array([])]));
            var from, to := Array([Array([e, s])]), Array([Array([s, e])]);
            && SlashFree(from) && SlashFree(to) && !WithinReach(from, to, 2)
            && Diff("", from, to, false) == [Patch("add", "/0/0/-", Some(e)), Patch("remove", "/0/1/0", None)]
            && Applied(from, Patch("add", "/0/0/-", Some(e)), false) == Outcome(0, Array([Array([e, s, e])]))
            && Applied(Array([Array([e, s, e])]), Patch("remove", "/0/1/0", None), false) == Outcome(0, to)
  {
    hide Diff, Applied;
    var e, s := Array([]), Array([Array([])]);
    SwappedDiff();
    SwappedRuns();
    SwappedOutOfReach();
  }

  lemma {:induction false} SwappedOutOfReach()
    ensures var (e, s) := (Array([]), Array([Array([])]));
            !WithinReach(Array([Array([e, s])]), Array([Array([s, e])]), 2)
  {
    var e, s := Array([]), Array([Array([])]);
    assert !AlikeItems([], [e], false);
    assert !Alike(e, s, false);
    assert !WithinReach(e, s, 0);
    var a, b := [e, s], [s, e];
    assert a[0] == e && b[0] == s && !WithinReach(Array(a), Array(b), 1);
    assert [Array(a)][0] == Array(a) && [Array(b)][0] == Array(b);
  }

  lemma {:induction false} SwappedRuns()
    ensures var (e, s) := (Array([]), Array([Array([])]));
            && Applied(Array([Array([e, s])]), Patch("add", "/0/0/-", Some(e)), false)
              == Outcome(0, Array([Array([e, s, e])]))
            && Applied(Array([Array([e, s, e])]), Patch("remove", "/0/1/0", None), false)
              == Outcome(0, Array([Array([s, e])]))
  {
    hide Applied, Decimal, AddedAt, DetachedAt, Patch;
    var e, s := Array([]), Array([Array([])]);
    Digits();
    assert "/0/" + "0" + "/-" == "/0/0/-" && "/0/" + "1" + "/" + "0" == "/0/1/0";
    RunAdd(Array([Array([e, s])]), "/0/0/-", e);
    AppendsTooHigh([e, s], 0, e);
    assert [e, s] + [e] == [e, s, e];
    RunRemove(Array([Array([e, s, e])]), "/0/1/0");
    RemovesTooHigh([e, s, e], 1, 0);
    assert Without([e, s, e], 0) == [s, e];
  }

  lemma {:induction false} SwappedDiff()
    ensures var (e, s) := (Array([]), Array([Array([])]));
            && SlashFree(Array([Array([e, s])])) && SlashFree(Array([Array([s, e])]))
            && Diff("", Array([Array([e, s])]), Array([Array([s, e])]), false)
               == [Patch("add", "/0/0/-", Some(e)), Patch("remove", "/0/1/0", None)]
  {
    hide Diff, Decimal, Patch;
    var e, s := Array([]), Array([Array([])]);
    Digits();
    assert SlashFree(e) && SlashFree(s) && SlashFree(Array([e, s])) && SlashFree(Array([s, e]));
    OneItem("", Array([e, s]), Array([s, e]));
    TwoItems("/0", e, s, s, e);
    assert "" + "/0" == "/0" && "/0" + "/0" == "/0/0" && "/0" + "/1" == "/0/1";
    OnlyDiffs("/0/0", e);
    OnlyDiffs("/0/1", e);
    assert "/0/0" + "/-" == "/0/0/-" && "/0/1" + "/0" == "/0/1/0";
  }

  lemma {:induction false} TwoItems(path: string, x0: Json, x1: Json, y0: Json, y1: Json)
    requires SlashFree(x0) && SlashFree(x1) && SlashFree(y0) && SlashFree(y1)
    ensures Diff(path, Array([x0, x1]), Array([y0, y1]), false)
         == Diff(path + "/0", x0, y0, false) + Diff(path + "/1", x1, y1, false)
  {
    assert DiffItems(path, 0, [x0, x1], [y0, y1], false)
           == Diff(path + "/0", x0, y0, false) + Diff(path + "/1", x1, y1, false) by {
      hide Diff, Decimal;
      Digits();
      assert path + "/" + "0" == path + "/0" && path + "/" + "1" == path + "/1";
      assert [x0, x1][1..] == [x1] && [y0, y1][1..] == [y1] && [x1][1..] == [] && [y1][1..] == [];
      assert DiffItems(path, 2, [], [], false) == [];
    }
    hide DiffItems;
  }

  lemma {:induction false} OnlyDiffs(path: string, x: Json)
    requires SlashFree(x)
    ensures Diff(path, Array([]), Array([x]), false) == [Patch("add", path + "/-", Some(x))]
    ensures Diff(path, Array([x]), Array([]), false) == [Patch("remove", path + "/0", None)]
  {
    assert DiffItems(path, 0, [], [x], false) == [Patch("add", path + "/-", Some(x))]
        && DiffItems(path, 0, [x], [], false) == [Patch("remove", path + "/0", None)] by {
      hide Decimal;
      Digits();
      PlainEncoded("-");
      PlainEncoded("0");
      assert path + "/" + "-" == path + "/-" && path + "/" + "0" == path + "/0";
      assert [x][1..] == [];
      assert DiffItems(path, 0, [], [], false) == [];
    }
    hide DiffItems;
  }

  // ----- A simple case

  // Arrays, wherever they are below objects, hold neither arrays nor objects.
  ghost predicate FlatArrays(v: Json) {
    match v
    case Array(items) => forall i :: 0 <= i < |items| ==> !items[i].Array? && !items[i].Object?
    case Object(members) => forall i :: 0 <= i < |members| ==> FlatArrays(members[i].value)
    case _ => true
  }

  lemma {:induction false} FlatArraysWithinReach(from: Json, to: Json)
    requires FlatArrays(from)
    ensures WithinReach(from, to, 2)
  {
    match (from, to)
    case (Object(x), Object(y)) =>
      forall i, j | 0 <= i < |x| && 0 <= j < |y|
        ensures WithinReach(x[i].value, y[j].value, 2)
      {
        FlatArraysWithinReach(x[i].value, y[j].value);
      }
    case _ =>
  }
}
