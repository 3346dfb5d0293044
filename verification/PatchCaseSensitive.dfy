/**
  The case-sensitive variants of the patch generator and interpreter: on documents
  without capital letters in their keys they do what the others do, so the round
  trip holds for them, too.

  Each function with a case flag is shown to have the same result for both flags on
  such documents, and each step of a run to lead from such a document to another.
 */
module PatchCaseSensitive {
  import opened CStrings
  import opened Json
  import opened SortMembers
  import opened CompareJson
  import opened Pointers
  import opened PointerSearch
  import opened ApplyPatch
  import opened PatchDiff
  import opened PatchEffects
  import opened PatchRoundTrip

  ghost predicate AllLowercase(v: Json) {
    match v
    case Array(items) => forall i :: 0 <= i < |items| ==> AllLowercase(items[i])
    case Object(members) => AllLowercaseMembers(members)
    case _ => true
  }

  ghost predicate AllLowercaseMembers(ms: seq<Member>) {
    forall i :: 0 <= i < |ms| ==> Lowercase(ms[i].key) && AllLowercase(ms[i].value)
  }

  lemma {:induction false} SameKey(s: string)
    requires Lowercase(s)
    ensures Key(s, true) == s && Key(s, false) == s
  {
    FoldIdempotent(s);
  }

  // ----- Sorting and comparing

  lemma {:induction false} SameSort(ms: seq<Member>)
    requires AllLowercaseMembers(ms)
    ensures Sort(ms, true) == Sort(ms, false) && AllLowercaseMembers(Sort(ms, false))
  {
    LowercaseOrdersAgree(ms);
    SortFlagIrrelevant(ms);
    var s := Sort(ms, false);
    forall i | 0 <= i < |s|
      ensures Lowercase(s[i].key) && AllLowercase(s[i].value)
    {
      SortedElement(ms, false, i);
    }
  }

  lemma {:induction false} SameAlike(a: Json, b: Json)
    requires AllLowercase(a) && AllLowercase(b)
    ensures Alike(a, b, true) == Alike(a, b, false)
    decreases Height(a), 0, 0
  {
    match (a, b)
    case (Array(x), Array(y)) =>
      SameAlikeItems(x, y);
    case (Object(x), Object(y)) =>
      SortedHeight(x, false);
      SameSort(x);
      SameSort(y);
      SameAlikeMembers(Sort(x, false), Sort(y, false));
    case _ =>
  }

  lemma {:induction false} SameAlikeItems(a: seq<Json>, b: seq<Json>)
    requires AllLowercase(Array(a)) && AllLowercase(Array(b))
    ensures AlikeItems(a, b, true) == AlikeItems(a, b, false)
    decreases ItemsHeight(a), 1, |a|
  {
    if a != [] && b != [] {
      SameAlike(a[0], b[0]);
      SameAlikeItems(a[1..], b[1..]);
    }
  }

  lemma {:induction false} SameAlikeMembers(a: seq<Member>, b: seq<Member>)
    requires AllLowercaseMembers(a) && AllLowercaseMembers(b)
    ensures AlikeMembers(a, b, true) == AlikeMembers(a, b, false)
    decreases MembersHeight(a), 1, |a|
  {
    if a != [] && b != [] {
      SameKey(a[0].key);
      SameKey(b[0].key);
      SameAlike(a[0].value, b[0].value);
      SameAlikeMembers(a[1..], b[1..]);
    }
  }

  // ----- Generating

  // A patch that adds, removes or replaces, without a capital letter in its path
  // or in a key of its value.
  ghost predicate LowercasePatch(p: Json) {
    && AllLowercase(p)
    && OperationOf(p, false) in {ADD, REMOVE, REPLACE}
    && match Field(p, "path", false)
       case Some(String(text)) => Lowercase(text)
       case _ => true
  }

  ghost predicate LowercasePatches(ps: seq<Json>) {
    forall i :: 0 <= i < |ps| ==> LowercasePatch(ps[i])
  }

  lemma {:induction false} OnePatch(op: string, text: string, value: Option<Json>)
    requires op in {"add", "remove", "replace"} && Lowercase(text) && (value.Some? ==> AllLowercase(value.value))
    ensures LowercasePatch(Patch(op, text, value))
  {
    PatchFields(op, text, value);
    var ms := Patch(op, text, value).members;
    assert ms[0] == Member("op", String(op)) && ms[1] == Member("path", String(text));
    assert Lowercase("op") && Lowercase("path") && Lowercase("value");
    assert value.Some? ==> ms[2] == Member("value", value.value);
  }

  lemma {:induction false} EncodedLowercase(s: string)
    requires '/' !in s && Lowercase(s)
    ensures Lowercase(Encoded(s))
  {
    if s != "" {
      EncodedLowercase(s[1..]);
    }
  }

  lemma {:induction false} PathToLowercase(path: string, suffix: string)
    requires '/' !in suffix && Lowercase(path) && Lowercase(suffix)
    ensures Lowercase(PathTo(path, suffix))
  {
    EncodedLowercase(suffix);
  }

  lemma {:induction false} SameDiff(path: string, from: Json, to: Json)
    requires SlashFree(from) && SlashFree(to) && AllLowercase(from) && AllLowercase(to) && Lowercase(path)
    ensures Diff(path, from, to, true) == Diff(path, from, to, false)
    ensures LowercasePatches(Diff(path, from, to, false))
    decreases Height(from), 0, 0
  {
    hide LowercasePatch;
    match (from, to)
    case (Array(x), Array(y)) =>
      SameDiffItems(path, 0, x, y);
    case (Object(x), Object(y)) =>
      SortedHeight(x, false);
      SameSort(x);
      SameSort(y);
      SortedSlashFree(x, false);
      SortedSlashFree(y, false);
      SameDiffMembers(path, Sort(x, false), Sort(y, false));
    case _ =>
      OnePatch("replace", path, Some(to));
  }

  lemma {:induction false} SameDiffItems(path: string, index: nat, from: seq<Json>, to: seq<Json>)
    requires SlashFree(Array(from)) && SlashFree(Array(to)) && AllLowercase(Array(from)) && AllLowercase(Array(to))
    requires Lowercase(path)
    ensures DiffItems(path, index, from, to, true) == DiffItems(path, index, from, to, false)
    ensures LowercasePatches(DiffItems(path, index, from, to, false))
    decreases ItemsHeight(from), 1, |from| + |to|
  {
    hide LowercasePatch, Diff, Patch, PathTo;
    if from != [] && to != [] {
      assert Lowercase(path + "/" + Decimal(index));
      SameDiff(path + "/" + Decimal(index), from[0], to[0]);
      SameDiffItems(path, index + 1, from[1..], to[1..]);
    } else if from != [] {
      DigitsSlashFree(index);
      PathToLowercase(path, Decimal(index));
      OnePatch("remove", PathTo(path, Decimal(index)), None);
      SameDiffItems(path, index, from[1..], to);
    } else if to != [] {
      PathToLowercase(path, "-");
      OnePatch("add", PathTo(path, "-"), Some(to[0]));
      SameDiffItems(path, index, from, to[1..]);
    }
  }

  lemma {:induction false} SameDiffMembers(path: string, from: seq<Member>, to: seq<Member>)
    requires SlashFreeMembers(from) && SlashFreeMembers(to) && AllLowercaseMembers(from) && AllLowercaseMembers(to)
    requires Lowercase(path)
    ensures DiffMembers(path, from, to, true) == DiffMembers(path, from, to, false)
    ensures LowercasePatches(DiffMembers(path, from, to, false))
    decreases MembersHeight(from), 1, |from| + |to|
  {
    hide LowercasePatch, Diff, Patch, PathTo, Key;
    if from != [] || to != [] {
      if from != [] {
        SameKey(from[0].key);
        PathToLowercase(path, from[0].key);
        OnePatch("remove", PathTo(path, from[0].key), None);
      }
      if to != [] {
        SameKey(to[0].key);
        PathToLowercase(path, to[0].key);
        OnePatch("add", PathTo(path, to[0].key), Some(to[0].value));
      }
      var diff := MergeOrder(from, to, false);
      if diff == 0 {
        SameDiff(PathTo(path, from[0].key), from[0].value, to[0].value);
        SameDiffMembers(path, from[1..], to[1..]);
      } else if diff < 0 {
        SameDiffMembers(path, from[1..], to);
      } else {
        SameDiffMembers(path, from, to[1..]);
      }
    }
  }

  // ----- Applying

  lemma {:induction false} UnescapedLowercase(t: string)
    requires Lowercase(t) && Unescape(t).Some?
    ensures Lowercase(Unescape(t).value)
  {
    if t != "" {
      var n := if t[0] == '~' then 2 else 1;
      UnescapedLowercase(t[n..]);
    }
  }

  lemma {:induction false} SameNames(key: string, p: string)
    requires Lowercase(key) && Lowercase(p)
    ensures Names(key, p, true) == Names(key, p, false)
  {
    SameKey(key);
    var t := FirstToken(p);
    assert Lowercase(t);
    if Unescape(t).Some? {
      UnescapedLowercase(t);
      SameKey(Unescape(t).value);
    }
  }

  lemma {:induction false} SameFound(ms: seq<Member>, p: string)
    requires AllLowercaseMembers(ms) && Lowercase(p)
    ensures FindNamed(ms, p, true) == FindNamed(ms, p, false)
  {
    if ms != [] {
      SameNames(ms[0].key, p);
      SameFound(ms[1..], p);
    }
  }

  lemma {:induction false} SameResolve(v: Json, p: string)
    requires AllLowercase(v) && Lowercase(p)
    ensures Resolve(v, p, true) == Resolve(v, p, false)
    decreases |p|
  {
    hide Names;
    if CharAt(p, 0) == '/' {
      var q := p[1..];
      match v
      case Array(items) =>
        var i := DecodedIndex(q);
        if i.Some? && i.value < |items| {
          SameResolve(items[i.value], q);
        }
      case Object(members) =>
        SameFound(members, q);
        var i := FindNamed(members, q, false);
        if i.Some? {
          SameResolve(members[i.value].value, q[TokenLength(q)..]);
        }
      case _ =>
    }
  }

  lemma {:induction false} SameField(v: Json, name: string)
    requires AllLowercase(v) && Lowercase(name)
    ensures Field(v, name, true) == Field(v, name, false)
    ensures Field(v, name, false).Some? ==> AllLowercase(Field(v, name, false).value)
  {
    if v.Object? {
      SameMemberFound(v.members, name);
    }
  }

  lemma {:induction false} SameMemberFound(ms: seq<Member>, name: string)
    requires AllLowercaseMembers(ms) && Lowercase(name)
    ensures FindMember(ms, name, true) == FindMember(ms, name, false)
  {
    if ms != [] {
      SameKey(ms[0].key);
      SameKey(name);
      SameMemberFound(ms[1..], name);
    }
  }

  lemma {:induction false} BelowLowercase(v: Json, pos: Position, x: Json)
    requires AllLowercase(v) && Valid(v, pos)
    ensures AllLowercase(At(v, pos))
    ensures AllLowercase(x) ==> AllLowercase(Put(v, pos, x))
    decreases pos
  {
    if pos != [] {
      BelowLowercase(Child(v, pos[0]), pos[1..], x);
    }
  }

  lemma {:induction false} DecodedLowercase(b: string, to: nat, from: nat)
    requires Lowercase(b) && to <= from <= |b|
    ensures Lowercase(DecodedFrom(b, to, from))
    decreases |b| - from
  {
    if from < |b| {
      if b[from] != '~' {
        DecodedLowercase(b, to + 1, from + 1);
      } else if CharAt(b, from + 1) == '0' {
        DecodedLowercase(b[to := '~'], to + 1, from + 2);
      } else if CharAt(b, from + 1) == '1' {
        DecodedLowercase(b[to + 1 := '/'], to + 1, from + 2);
      }
    }
  }

  lemma {:induction false} DetachedLowercase(doc: Json, path: string)
    requires AllLowercase(doc) && Lowercase(path)
    ensures DetachedAt(doc, path, true) == DetachedAt(doc, path, false)
    ensures DetachedAt(doc, path, false).Some? ==> AllLowercase(DetachedAt(doc, path, false).value.doc)
  {
    hide Resolve, Put;
    var k := LastSlash(path);
    if k.Some? {
      SameResolve(doc, path[..k.value]);
      var d := DetachedAt(doc, path, false);
      if d.Some? {
        var pos := Resolve(doc, path[..k.value], false).value;
        var node, child := At(doc, pos), Decoded(path[k.value + 1..]);
        BelowLowercase(doc, pos, node);
        RemainderLowercase(node, child);
        BelowLowercase(doc, pos, ChildDetached(node, child).value.doc);
      }
    }
  }

  lemma {:induction false} RemainderLowercase(node: Json, child: string)
    requires AllLowercase(node) && ChildDetached(node, child).Some?
    ensures AllLowercase(ChildDetached(node, child).value.doc)
  {
  }

  lemma {:induction false} AddedLowercase(doc: Json, path: string, x: Json)
    requires AllLowercase(doc) && Lowercase(path) && AllLowercase(x)
    ensures AddedAt(doc, path, x, true) == AddedAt(doc, path, x, false)
    ensures AllLowercase(AddedAt(doc, path, x, false).doc)
  {
    hide Resolve, Put, DecodedFrom;
    var k := LastSlash(path);
    if k.Some? {
      SameResolve(doc, path[..k.value]);
      var pos := Resolve(doc, path[..k.value], false);
      if pos.Some? {
        var token := path[k.value + 1..];
        var node := At(doc, pos.value);
        DecodedLowercase(token, 0, 0);
        BelowLowercase(doc, pos.value, node);
        ChildLowercase(node, Decoded(token), x);
        BelowLowercase(doc, pos.value, ChildAdded(node, Decoded(token), x).doc);
      }
    }
  }

  lemma {:induction false} ChildLowercase(node: Json, child: string, x: Json)
    requires AllLowercase(node) && Lowercase(child) && AllLowercase(x)
    ensures AllLowercase(ChildAdded(node, child, x).doc)
  {
  }

  lemma {:induction false} SameFields(patch: Json)
    requires LowercasePatch(patch)
    ensures patch.Object? && OperationOf(patch, true) == OperationOf(patch, false)
    ensures Field(patch, "path", true) == Field(patch, "path", false)
    ensures Field(patch, "value", true) == Field(patch, "value", false)
    ensures Field(patch, "value", false).Some? ==> AllLowercase(Field(patch, "value", false).value)
  {
    assert patch.Object?;
    hide AllLowercase, Field;
    assert Lowercase("op") && Lowercase("path") && Lowercase("value");
    SameField(patch, "op");
    SameField(patch, "path");
    SameField(patch, "value");
  }

  // What add, remove and replace come to, below the root.
  ghost predicate SameBelow(doc: Json, text: string, value: Option<Json>) {
    var d := DetachedAt(doc, text, false);
    && DetachedAt(doc, text, true) == d
    && (d.Some? ==> AllLowercase(d.value.doc))
    && (value.Some? ==>
          && SameAdded(doc, text, value.value) && AllLowercase(value.value)
          && (d.Some? ==> SameAdded(d.value.doc, text, value.value)))
  }

  ghost predicate SameAdded(doc: Json, text: string, value: Json) {
    && AddedAt(doc, text, value, true) == AddedAt(doc, text, value, false)
    && AllLowercase(AddedAt(doc, text, value, false).doc)
  }

  lemma {:induction false} LowercaseBelow(doc: Json, text: string, value: Option<Json>)
    requires AllLowercase(doc) && Lowercase(text) && (value.Some? ==> AllLowercase(value.value))
    ensures SameBelow(doc, text, value)
  {
    hide AllLowercase, DetachedAt, AddedAt;
    DetachedLowercase(doc, text);
    if value.Some? {
      AddedLowercase(doc, text, value.value);
      if DetachedAt(doc, text, false).Some? {
        AddedLowercase(DetachedAt(doc, text, false).value.doc, text, value.value);
      }
    }
  }

  lemma {:induction false} SameRun(doc: Json, patch: Json)
    requires AllLowercase(doc) && patch.Object?
    requires OperationOf(patch, true) == OperationOf(patch, false)
    requires OperationOf(patch, false) in {ADD, REMOVE, REPLACE}
    requires Field(patch, "path", true) == Field(patch, "path", false)
    requires Field(patch, "value", true) == Field(patch, "value", false)
    requires match Field(patch, "path", false)
             case Some(String(text)) => SameBelow(doc, text, Field(patch, "value", false))
             case _ => true
    ensures Readable(patch, true) && Readable(patch, false)
    ensures Applied(doc, patch, true) == Applied(doc, patch, false)
    ensures AllLowercase(Applied(doc, patch, false).doc)
  {
    InvalidLowercase();
    hide AllLowercase, DetachedAt, AddedAt, Field, OperationOf;
  }

  lemma {:induction false} SameApplied(doc: Json, patch: Json)
    requires AllLowercase(doc) && LowercasePatch(patch)
    ensures Readable(patch, true) && Readable(patch, false)
    ensures Applied(doc, patch, true) == Applied(doc, patch, false)
    ensures AllLowercase(Applied(doc, patch, false).doc)
  {
    SameFields(patch);
    hide AllLowercase, Field, OperationOf, Readable, Applied, SameBelow;
    match Field(patch, "path", false) {
      case Some(String(text)) => LowercaseBelow(doc, text, Field(patch, "value", false));
      case _ =>
    }
    SameRun(doc, patch);
  }

  lemma {:induction false} InvalidLowercase()
    ensures AllLowercase(Invalid)
  {
  }

  lemma {:induction false} SameAppliedAll(doc: Json, patches: seq<Json>)
    requires AllLowercase(doc) && LowercasePatches(patches)
    ensures forall i :: 0 <= i < |patches| ==> Readable(patches[i], true) && Readable(patches[i], false)
    ensures AppliedAll(doc, patches, true) == AppliedAll(doc, patches, false)
    ensures AllLowercase(AppliedAll(doc, patches, false).doc)
    decreases |patches|
  {
    hide Applied, Readable, LowercasePatch, AllLowercase;
    if patches != [] {
      var rest := patches[1..];
      assert forall i :: 0 <= i < |rest| ==> rest[i] == patches[i + 1];
      SameApplied(doc, patches[0]);
      SameAppliedAll(Applied(doc, patches[0], false).doc, rest);
      assert forall i :: 0 < i < |patches| ==> patches[i] == rest[i - 1];
    }
  }

  // ----- The theorem

  lemma {:induction false} PatchRoundTripCaseSensitive(doc: Json, from: Json, to: Json)
    requires Tidy(from, false) && Tidy(to, false) && Addressable(from) && Addressable(to)
    requires AllLowercase(from) && AllLowercase(to) && AllLowercase(doc)
    requires WithinReach(from, to, 2)
    requires Tidy(doc, false) && Alike(doc, from, true)
    ensures var patches := Diff("", from, to, true);
            && (forall i :: 0 <= i < |patches| ==> Readable(patches[i], true))
            && RunKeepsHeads(doc, patches, true)
            && AppliedAll(doc, patches, true).status == 0
            && Alike(AppliedAll(doc, patches, true).doc, to, true)
  {
    hide Alike, Diff, WithinReach, AllLowercase, Addressable, Tidy;
    SameAlike(doc, from);
    AddressableIsSlashFree(from);
    AddressableIsSlashFree(to);
    SameDiff("", from, to);
    SameAppliedAll(doc, Diff("", from, to, false));
    PatchRoundTrip.PatchRoundTrip(doc, from, to);
    NoTests(Diff("", from, to, false));
    NoTestsKeepHeads(doc, Diff("", from, to, false), true);
    SameAlike(AppliedAll(doc, Diff("", from, to, false), false).doc, to);
  }

  lemma {:induction false} NoTests(patches: seq<Json>)
    requires LowercasePatches(patches)
    ensures forall i :: 0 <= i < |patches| ==> OperationOf(patches[i], true) != TEST
  {
    assert Lowercase("op");
    forall i | 0 <= i < |patches|
      ensures OperationOf(patches[i], true) != TEST
    {
      SameField(patches[i], "op");
    }
  }

  lemma {:induction false} AddressableIsSlashFree(v: Json)
    requires Addressable(v)
    ensures SlashFree(v)
  {
  }
}
