/**
  The JSON Patch generator: create_patches and compose_patch. Both trees are
  walked together; objects are sorted first and merged by key.
 */
module PatchDiff {
  import opened CStrings
  import opened Json
  import opened SortMembers
  import opened CompareJson
  import opened Pointers
  import opened PointerSearch

  // A patch object as compose_patch builds it.
  function Patch(op: string, path: string, value: Option<Json>): Json {
    Object([Member("op", String(op)), Member("path", String(path))]
           + match value case None => [] case Some(v) => [Member("value", v)])
  }

  // Operation, path and value, in this order.
  lemma {:induction false} PatchMembers(op: string, path: string, value: Json)
    ensures Patch(op, path, Some(value))
         == Object([Member("op", String(op)), Member("path", String(path)), Member("value", value)])
    ensures Patch(op, path, None) == Object([Member("op", String(op)), Member("path", String(path))])
  {
  }

  function PathTo(path: string, suffix: string): string
    requires '/' !in suffix
  {
    path + "/" + Encoded(suffix)
  }

  // create_patches
  function Diff(path: string, from: Json, to: Json, cs: bool): seq<Json>
    requires SlashFree(from) && SlashFree(to)
    decreases Height(from), 0, 0
  {
    match (from, to)
    case (Number(x), Number(y)) => if x != y then [Patch("replace", path, Some(to))] else []
    case (String(x), String(y)) => if x != y then [Patch("replace", path, Some(to))] else []
    case (Array(x), Array(y)) => DiffItems(path, 0, x, y, cs)
    case (Object(x), Object(y)) =>
      SortedHeight(x, cs);
      SortedSlashFree(x, cs);
      SortedSlashFree(y, cs);
      DiffMembers(path, Sort(x, cs), Sort(y, cs), cs)
    case _ => if SameType(from, to) then [] else [Patch("replace", path, Some(to))]
  }

  predicate SameType(a: Json, b: Json) {
    match (a, b)
    case (Invalid, Invalid) => true
    case (False, False) => true
    case (True, True) => true
    case (Null, Null) => true
    case (Number(_), Number(_)) => true
    case (String(_), String(_)) => true
    case (Array(_), Array(_)) => true
    case (Object(_), Object(_)) => true
    case _ => false
  }

  // From the element at index on: common elements first, then what is left over
  // is removed, always at the same index, or appended.
  function DiffItems(path: string, index: nat, from: seq<Json>, to: seq<Json>, cs: bool): seq<Json>
    requires forall i :: 0 <= i < |from| ==> SlashFree(from[i])
    requires forall i :: 0 <= i < |to| ==> SlashFree(to[i])
    decreases ItemsHeight(from), 1, |from| + |to|
  {
    if from != [] && to != [] then
      Diff(path + "/" + Decimal(index), from[0], to[0], cs) + DiffItems(path, index + 1, from[1..], to[1..], cs)
    else if from != [] then
      DigitsSlashFree(index);
      [Patch("remove", PathTo(path, Decimal(index)), None)] + DiffItems(path, index, from[1..], to, cs)
    else if to != [] then
      [Patch("add", PathTo(path, "-"), Some(to[0]))] + DiffItems(path, index, from, to[1..], cs)
    else []
  }

  // The merge walk over two sorted member lists.
  function DiffMembers(path: string, from: seq<Member>, to: seq<Member>, cs: bool): seq<Json>
    requires SlashFreeMembers(from) && SlashFreeMembers(to)
    decreases MembersHeight(from), 1, |from| + |to|
  {
    if from == [] && to == [] then []
    else
      var diff := MergeOrder(from, to, cs);
      if diff == 0 then
        Diff(PathTo(path, from[0].key), from[0].value, to[0].value, cs) + DiffMembers(path, from[1..], to[1..], cs)
      else if diff < 0 then
        [Patch("remove", PathTo(path, from[0].key), None)] + DiffMembers(path, from[1..], to, cs)
      else
        [Patch("add", PathTo(path, to[0].key), Some(to[0].value))] + DiffMembers(path, from, to[1..], cs)
  }

  // Which list the walk advances: both on 0, the first below, the second above.
  function MergeOrder(from: seq<Member>, to: seq<Member>, cs: bool): (r: int)
    requires from != [] || to != []
    ensures r <= 0 ==> from != []
    ensures r >= 0 ==> to != []
  {
    if from == [] then 1
    else if to == [] then -1
    else Order(Key(from[0].key, cs), Key(to[0].key, cs))
  }

  lemma {:induction false} DigitsSlashFree(n: nat)
    ensures '/' !in Decimal(n) && '~' !in Decimal(n) && Encoded(Decimal(n)) == Decimal(n)
  {
    var d := Decimal(n);
    assert forall i :: 0 <= i < |d| ==> '0' <= d[i] <= '9';
    PlainEncoded(d);
  }

  lemma {:induction false} SortedSlashFree(ms: seq<Member>, cs: bool)
    requires SlashFreeMembers(ms)
    ensures SlashFreeMembers(Sort(ms, cs))
  {
    forall i | 0 <= i < |ms|
      ensures '/' !in Sort(ms, cs)[i].key && SlashFree(Sort(ms, cs)[i].value)
    {
      SortedElement(ms, cs, i);
    }
  }

  lemma {:induction false} SlashFreeTail(ms: seq<Member>)
    requires SlashFreeMembers(ms)
    ensures ms != [] ==> SlashFreeMembers(ms[1..]) && '/' !in ms[0].key && SlashFree(ms[0].value)
  {
  }

  // ----- The generator as it runs, appending to an array of patches

  class PatchList {
    var patches: seq<Json>

    constructor ()
      ensures patches == []
    {
      patches := [];
    }

    method ComposePatch(op: string, path: string, suffix: Option<string>, value: Option<Json>)
      requires suffix.Some? ==> '/' !in suffix.value
      modifies this
      ensures patches == old(patches)
                         + [Patch(op, if suffix.Some? then PathTo(path, suffix.value) else path, value)]
    {
      var fullPath := path;
      if suffix.Some? {
        var encoded := EncodedKey(suffix.value);
        fullPath := path + "/" + encoded;
      }
      var members := [Member("op", String(op)), Member("path", String(fullPath))];
      if value.Some? {
        members := members + [Member("value", value.value)];
      }
      assert value.None? ==> members == members + [];
      patches := patches + [Object(members)];
    }

    method CreatePatches(path: string, from: Json, to: Json, cs: bool)
      requires SlashFree(from) && SlashFree(to)
      modifies this
      ensures patches == old(patches) + Diff(path, from, to, cs)
      decreases Height(from), 0
    {
      if !SameType(from, to) {
        ComposePatch("replace", path, None, Some(to));
        return;
      }
      match from {
        case Number(x) =>
          if x != to.lexeme {
            ComposePatch("replace", path, None, Some(to));
          }
        case String(x) =>
          if x != to.text {
            ComposePatch("replace", path, None, Some(to));
          }
        case Array(x) =>
          CreateItemPatches(path, x, to.items, cs);
        case Object(x) =>
          SortedHeight(x, cs);
          SortedSlashFree(x, cs);
          SortedSlashFree(to.members, cs);
          CreateMemberPatches(path, Sort(x, cs), Sort(to.members, cs), cs);
        case _ =>
      }
    }

    method CreateItemPatches(path: string, from: seq<Json>, to: seq<Json>, cs: bool)
      requires forall i :: 0 <= i < |from| ==> SlashFree(from[i])
      requires forall i :: 0 <= i < |to| ==> SlashFree(to[i])
      modifies this
      ensures patches == old(patches) + DiffItems(path, 0, from, to, cs)
      decreases ItemsHeight(from), 1
    {
      hide ItemsHeight, Height, Encoded, Decimal, Diff, SlashFree, Patch, PathTo;
      ghost var goal := patches + DiffItems(path, 0, from, to, cs);
      var index := 0;
      while index < |from| && index < |to|
        invariant 0 <= index <= |from| && index <= |to|
        invariant patches + DiffItems(path, index, from[index..], to[index..], cs) == goal
      {
        ghost var before, rest := patches, DiffItems(path, index + 1, from[index + 1..], to[index + 1..], cs);
        assert from[index..][1..] == from[index + 1..] && to[index..][1..] == to[index + 1..];
        ItemHeight(from, index);
        CreatePatches(path + "/" + Decimal(index), from[index], to[index], cs);
        Regroup(before, Diff(path + "/" + Decimal(index), from[index], to[index], cs), rest);
        index := index + 1;
      }
      assert from[index..] == [] || to[index..] == [];
      RemoveLeftover(path, index, from[index..], to[index..], cs);
      AddLeftover(path, index, to[index..], cs);
    }

    // The elements of from that to has no counterpart for.
    method RemoveLeftover(path: string, index: nat, from: seq<Json>, ghost to: seq<Json>, ghost cs: bool)
      requires forall i :: 0 <= i < |from| ==> SlashFree(from[i])
      requires forall i :: 0 <= i < |to| ==> SlashFree(to[i])
      requires from == [] || to == []
      modifies this
      ensures patches + DiffItems(path, index, [], to, cs) == old(patches) + DiffItems(path, index, from, to, cs)
    {
      hide Patch, PathTo, Decimal, SlashFree;
      ghost var goal := patches + DiffItems(path, index, from, to, cs);
      var i := 0;
      while i < |from|
        invariant 0 <= i <= |from|
        invariant patches + DiffItems(path, index, from[i..], to, cs) == goal
      {
        ghost var before, rest := patches, DiffItems(path, index, from[i + 1..], to, cs);
        assert from[i..][1..] == from[i + 1..];
        DigitsSlashFree(index);
        ComposePatch("remove", path, Some(Decimal(index)), None);
        Regroup(before, [Patch("remove", PathTo(path, Decimal(index)), None)], rest);
        i := i + 1;
      }
    }

    // The elements of to that from has no counterpart for.
    method AddLeftover(path: string, ghost index: nat, to: seq<Json>, ghost cs: bool)
      requires forall i :: 0 <= i < |to| ==> SlashFree(to[i])
      modifies this
      ensures patches == old(patches) + DiffItems(path, index, [], to, cs)
    {
      hide Patch, PathTo, SlashFree;
      ghost var goal := patches + DiffItems(path, index, [], to, cs);
      var i := 0;
      while i < |to|
        invariant 0 <= i <= |to|
        invariant patches + DiffItems(path, index, [], to[i..], cs) == goal
      {
        ghost var before, rest := patches, DiffItems(path, index, [], to[i + 1..], cs);
        assert to[i..][1..] == to[i + 1..];
        ComposePatch("add", path, Some("-"), Some(to[i]));
        Regroup(before, [Patch("add", PathTo(path, "-"), Some(to[i]))], rest);
        i := i + 1;
      }
    }

    method CreateMemberPatches(path: string, from: seq<Member>, to: seq<Member>, cs: bool)
      requires SlashFreeMembers(from) && SlashFreeMembers(to)
      modifies this
      ensures patches == old(patches) + DiffMembers(path, from, to, cs)
      decreases MembersHeight(from), 1
    {
      hide SlashFreeMembers, SlashFree, Diff, Encoded;
      ghost var goal := patches + DiffMembers(path, from, to, cs);
      var i, j := 0, 0;
      while i < |from| || j < |to|
        invariant 0 <= i <= |from| && 0 <= j <= |to|
        invariant SlashFreeMembers(from[i..]) && SlashFreeMembers(to[j..])
        invariant patches + DiffMembers(path, from[i..], to[j..], cs) == goal
        decreases |from| - i + |to| - j
      {
        ghost var before, f, t := patches, from[i..], to[j..];
        SlashFreeTail(f);
        SlashFreeTail(t);
        assert i < |from| ==> f[1..] == from[i + 1..];
        assert j < |to| ==> t[1..] == to[j + 1..];
        var diff;
        if i == |from| {
          diff := 1;
        } else if j == |to| {
          diff := -1;
        } else {
          diff := CompareStrings(from[i].key, to[j].key, cs);
        }
        assert diff == MergeOrder(f, t, cs);
        if diff == 0 {
          MemberHeight(from, i);
          var encoded := EncodedKey(from[i].key);
          CreatePatches(path + "/" + encoded, from[i].value, to[j].value, cs);
          Regroup(before, Diff(PathTo(path, f[0].key), f[0].value, t[0].value, cs),
                  DiffMembers(path, f[1..], t[1..], cs));
          i, j := i + 1, j + 1;
        } else if diff < 0 {
          ComposePatch("remove", path, Some(from[i].key), None);
          Regroup(before, [Patch("remove", PathTo(path, f[0].key), None)], DiffMembers(path, f[1..], t, cs));
          i := i + 1;
        } else {
          ComposePatch("add", path, Some(to[j].key), Some(to[j].value));
          Regroup(before, [Patch("add", PathTo(path, t[0].key), Some(t[0].value))], DiffMembers(path, f, t[1..], cs));
          j := j + 1;
        }
      }
    }
  }

  // cJSONUtils_GeneratePatches (cs false) and cJSONUtils_GeneratePatchesCaseSensitive.
  method GeneratePatches(from: Json, to: Json, cs: bool) returns (patches: Json)
    requires SlashFree(from) && SlashFree(to)
    ensures patches == Array(Diff("", from, to, cs))
  {
    var list := new PatchList();
    list.CreatePatches("", from, to, cs);
    patches := Array(list.patches);
  }
}
