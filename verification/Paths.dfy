/**
  Paths as lists of tokens: reading and replacing the part of a value that a path leads
  to, and the link to pointers as texts. A path that has array steps only at its end
  is followed to its end by the pointer walk, and replacing the node at the position found
  replaces what the path leads to.
 */
module Paths {
  import opened CStrings
  import opened Json
  import opened Pointers
  import opened PointerSearch

  datatype Token = Name(key: string) | Index(index: nat)

  type Path = seq<Token>

  // A token that is written as it stands.
  ghost predicate Plain(t: Token) {
    match t
    case Name(key) => '/' !in key && '~' !in key
    case Index(i) => i < SIZE_LIMIT
  }

  ghost predicate PlainPath(path: Path) {
    forall i :: 0 <= i < |path| ==> Plain(path[i])
  }

  function TokenText(t: Token): string {
    match t
    case Name(key) => key
    case Index(i) => Decimal(i)
  }

  function PathString(path: Path): string {
    if path == [] then "" else "/" + (TokenText(path[0]) + PathString(path[1..]))
  }

  ghost predicate HasStep(v: Value, t: Token) {
    match t
    case Name(key) => v.VObject? && Fold(key) in v.members
    case Index(i) => v.VArray? && i < |v.items|
  }

  ghost function StepTo(v: Value, t: Token): Value
    requires HasStep(v, t)
  {
    match t
    case Name(key) => v.members[Fold(key)]
    case Index(i) => v.items[i]
  }

  ghost function StepSet(v: Value, t: Token, x: Value): Value
    requires HasStep(v, t)
  {
    match t
    case Name(key) => VObject(v.members[Fold(key) := x])
    case Index(i) => VArray(v.items[i := x])
  }

  ghost predicate Has(v: Value, path: Path) {
    path == [] || (HasStep(v, path[0]) && Has(StepTo(v, path[0]), path[1..]))
  }

  ghost function Get(v: Value, path: Path): Value
    requires Has(v, path)
  {
    if path == [] then v else Get(StepTo(v, path[0]), path[1..])
  }

  ghost function Set(v: Value, path: Path, x: Value): Value
    requires Has(v, path)
  {
    if path == [] then x else StepSet(v, path[0], Set(StepTo(v, path[0]), path[1..], x))
  }

  lemma {:induction false} GetSet(v: Value, path: Path, x: Value)
    requires Has(v, path)
    ensures Has(Set(v, path, x), path) && Get(Set(v, path, x), path) == x
  {
    if path != [] {
      GetSet(StepTo(v, path[0]), path[1..], x);
    }
  }

  lemma {:induction false} SetSet(v: Value, path: Path, x: Value, y: Value)
    requires Has(v, path)
    ensures Has(Set(v, path, x), path) && Set(Set(v, path, x), path, y) == Set(v, path, y)
  {
    GetSet(v, path, x);
    if path != [] {
      SetSet(StepTo(v, path[0]), path[1..], x, y);
      var a, b := Set(StepTo(v, path[0]), path[1..], x), Set(StepTo(v, path[0]), path[1..], y);
      match path[0]
      case Name(key) => assert v.members[Fold(key) := a][Fold(key) := b] == v.members[Fold(key) := b];
      case Index(i) => assert v.items[i := a][i := b] == v.items[i := b];
    }
  }

  lemma {:induction false} SetSame(v: Value, path: Path)
    requires Has(v, path)
    ensures Set(v, path, Get(v, path)) == v
  {
    if path != [] {
      SetSame(StepTo(v, path[0]), path[1..]);
      match path[0]
      case Name(key) => assert v.members[Fold(key) := v.members[Fold(key)]] == v.members;
      case Index(i) => assert v.items[i := v.items[i]] == v.items;
    }
  }

  // One more step at the end of a path.
  lemma {:induction false} Extend(v: Value, path: Path, t: Token)
    requires Has(v, path)
    ensures Has(v, path + [t]) <==> HasStep(Get(v, path), t)
    ensures Has(v, path + [t]) ==> Get(v, path + [t]) == StepTo(Get(v, path), t)
    ensures Has(v, path + [t]) ==>
              forall x {:induction false} :: Set(v, path + [t], x) == Set(v, path, StepSet(Get(v, path), t, x))
  {
    if path == [] {
      assert [t][1..] == [];
      assert [] + [t] == [t];
    } else {
      Extend(StepTo(v, path[0]), path[1..], t);
      assert (path + [t])[1..] == path[1..] + [t];
    }
  }

  lemma {:induction false} PathStringSnoc(path: Path, t: Token)
    ensures PathString(path + [t]) == PathString(path) + "/" + TokenText(t)
  {
    hide TokenText;
    if path == [] {
      assert [] + [t] == [t] && [t][1..] == [];
      assert TokenText(t) + "" == TokenText(t);
    } else {
      PathStringSnoc(path[1..], t);
      assert (path + [t])[1..] == path[1..] + [t];
      var head, rest, tail := TokenText(path[0]), PathString(path[1..]), TokenText(t);
      assert "/" + (head + (rest + "/" + tail)) == "/" + (head + rest) + "/" + tail;
    }
  }

  // Array steps only at the end: such paths are followed to their end.
  ghost predicate Walkable(path: Path) {
    && (forall i :: 0 <= i < |path| ==> Plain(path[i]))
    && (forall i :: 0 <= i < |path| - 1 ==> path[i].Name?)
  }

  // A walkable path that exists resolves to the node it names.
  lemma {:induction false} Locate(doc: Json, path: Path) returns (pos: Position)
    requires Tidy(doc, false) && Walkable(path) && Has(Meaning(doc, false), path)
    ensures Resolve(doc, PathString(path), false) == Some(pos) && Valid(doc, pos)
    ensures Leads(doc, path, pos)
    decreases path
  {
    if path == [] {
      pos := [];
    } else {
      var below := PathString(path[1..]);
      match path[0]
      case Index(i) =>
        assert path == [Index(i)];
        ResolveArrayStep(doc.items, i, below, false);
        pos := [i];
      case Name(key) =>
        var ms := doc.members;
        FindMeaning(ms, key, false);
        var i := FindMember(ms, key, false).value;
        EncodedIsRightIffPlain(key);
        ResolveObjectStep(ms, key, below, false);
        NamedByPlain(ms, key, below, false);
        var rest := Locate(ms[i].value, path[1..]);
        pos := [i] + rest;
    }
  }

  // A position and a path that go the same way.
  ghost predicate Leads(doc: Json, path: Path, pos: Position) {
    if path == [] then pos == []
    else
      && pos != [] && pos[0] < ChildCount(doc)
      && (match path[0]
          case Name(key) => doc.Object? && Fold(doc.members[pos[0]].key) == Fold(key)
          case Index(i) => doc.Array? && pos[0] == i)
      && Leads(Child(doc, pos[0]), path[1..], pos[1..])
  }

  lemma {:induction false} LeadsTo(doc: Json, path: Path, pos: Position)
    requires Tidy(doc, false) && Leads(doc, path, pos)
    ensures Valid(doc, pos) && Tidy(At(doc, pos), false)
    ensures Has(Meaning(doc, false), path)
    ensures Meaning(At(doc, pos), false) == Get(Meaning(doc, false), path)
    decreases path
  {
    if path != [] {
      LeadsTo(Child(doc, pos[0]), path[1..], pos[1..]);
      if doc.Object? {
        MeaningAt(doc.members, false, pos[0]);
      }
    }
  }

  // Replacing the node replaces what the path leads to, and nothing else.
  lemma {:induction false} Replaces(doc: Json, path: Path, pos: Position, x: Json)
    requires Tidy(doc, false) && Tidy(x, false)
    requires Leads(doc, path, pos) && Valid(doc, pos) && Has(Meaning(doc, false), path)
    ensures Tidy(Put(doc, pos, x), false)
    ensures Meaning(Put(doc, pos, x), false) == Set(Meaning(doc, false), path, Meaning(x, false))
    decreases path
  {
    if path != [] {
      var i := pos[0];
      LeadsTo(Child(doc, i), path[1..], pos[1..]);
      Replaces(Child(doc, i), path[1..], pos[1..], x);
      var y := Put(Child(doc, i), pos[1..], x);
      if doc.Object? {
        MeaningAt(doc.members, false, i);
        PutMember(doc, i, y);
      } else {
        PutItem(doc, i, y);
      }
    }
  }

  lemma {:induction false} PutItem(doc: Json, i: nat, x: Json)
    requires doc.Array? && i < |doc.items| && Tidy(doc, false) && Tidy(x, false)
    ensures Tidy(WithChild(doc, i, x), false)
    ensures Meaning(WithChild(doc, i, x), false).VArray?
    ensures Meaning(WithChild(doc, i, x), false).items == Meaning(doc, false).items[i := Meaning(x, false)]
  {
  }

  lemma {:induction false} PutMember(doc: Json, i: nat, x: Json)
    requires doc.Object? && i < |doc.members| && Tidy(doc, false) && Tidy(x, false)
    ensures Tidy(WithChild(doc, i, x), false)
    ensures Meaning(WithChild(doc, i, x), false)
         == VObject(Meaning(doc, false).members[Fold(doc.members[i].key) := Meaning(x, false)])
  {
    MeaningUpdate(doc.members, false, i, x);
  }

  lemma {:induction false} NamedByPlain(ms: seq<Member>, key: string, below: string, cs: bool)
    requires '/' !in key && '~' !in key && (below == "" || below[0] == '/')
    ensures FindNamed(ms, Encoded(key) + below, cs) == FindMember(ms, key, cs)
  {
    TokenOfLabel(key, below);
    UnescapeEncoded(key);
    assert Slashed(key) == key;
    var p := Encoded(key) + below;
    assert forall name: string {:induction false} :: Names(name, p, cs) <==> Key(name, cs) == Key(key, cs);
    match FindMember(ms, key, cs)
    case None => FindNamedIs(ms, p, cs, |ms|);
    case Some(i) => FindNamedIs(ms, p, cs, i);
  }
}
