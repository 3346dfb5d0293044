/**
  JSON Merge Patch (RFC 7396): merge_patch, proved to compute the function of section 2
  of the RFC, and generate_merge_patch, as a function on meanings for keys in step.
 */
module MergePatch {
  import opened CStrings
  import opened Json
  import opened SortMembers
  import opened CompareJson

  // ----- merge_patch

  function Removed(ms: seq<Member>, key: string, cs: bool): seq<Member> {
    match FindMember(ms, key, cs)
    case None => ms
    case Some(i) => Without(ms, i)
  }

  function Found(ms: seq<Member>, key: string, cs: bool): Option<Json> {
    match FindMember(ms, key, cs)
    case None => None
    case Some(i) => Some(ms[i].value)
  }

  function Merged(target: Option<Json>, patch: Json, cs: bool): Json
    decreases patch
  {
    if !patch.Object? then patch
    else
      var members := if target.Some? && target.value.Object? then target.value.members else [];
      Object(MergedMembers(members, patch.members, cs))
  }

  // A null deletes; anything else is merged into what is there and goes to the end.
  function MergedMembers(ms: seq<Member>, patch: seq<Member>, cs: bool): seq<Member>
    decreases patch
  {
    if patch == [] then ms
    else
      var p, rest := patch[0], Removed(ms, patch[0].key, cs);
      if p.value.Null? then MergedMembers(rest, patch[1..], cs)
      else MergedMembers(rest + [Member(p.key, Merged(Found(ms, p.key, cs), p.value, cs))], patch[1..], cs)
  }

  method MergePatch(target: Option<Json>, patch: Json, cs: bool) returns (merged: Json)
    ensures merged == Merged(target, patch, cs)
    decreases patch
  {
    if !patch.Object? {
      return patch;
    }
    var members := if target.Some? && target.value.Object? then target.value.members else [];
    var i := 0;
    while i < |patch.members|
      invariant 0 <= i <= |patch.members|
      invariant Merged(target, patch, cs) == Object(MergedMembers(members, patch.members[i..], cs))
    {
      var child := patch.members[i];
      var was := Found(members, child.key, cs);
      members := Removed(members, child.key, cs);
      if !child.value.Null? {
        var replacement := MergePatch(was, child.value, cs);
        members := members + [Member(child.key, replacement)];
      }
      i := i + 1;
    }
    merged := Object(members);
  }

  // ----- The order of the merged members

  // The members that no entry of a patch names.
  ghost function Unnamed(ms: seq<Member>, patch: seq<Member>, cs: bool): seq<Member> {
    if ms == [] then []
    else
      (if exists i :: 0 <= i < |patch| && Key(patch[i].key, cs) == Key(ms[0].key, cs) then [] else [ms[0]])
      + Unnamed(ms[1..], patch, cs)
  }

  // The keys that a patch sets.
  ghost function SetKeys(patch: seq<Member>): seq<string> {
    if patch == [] then []
    else (if patch[0].value == Null then [] else [patch[0].key]) + SetKeys(patch[1..])
  }

  ghost function KeysOf(ms: seq<Member>): seq<string> {
    if ms == [] then [] else [ms[0].key] + KeysOf(ms[1..])
  }

  lemma {:induction false} UnnamedSnoc(ms: seq<Member>, m: Member, patch: seq<Member>, cs: bool)
    requires forall i :: 0 <= i < |patch| ==> Key(patch[i].key, cs) != Key(m.key, cs)
    ensures Unnamed(ms + [m], patch, cs) == Unnamed(ms, patch, cs) + [m]
  {
    if ms == [] {
      assert [] + [m] == [m] && [m][1..] == [];
    } else {
      assert (ms + [m])[1..] == ms[1..] + [m];
      UnnamedSnoc(ms[1..], m, patch, cs);
    }
  }

  // Removing the first entry's key and then ignoring the rest is ignoring all.
  lemma {:induction false} UnnamedByHead(ms: seq<Member>, patch: seq<Member>, cs: bool)
    requires patch != [] && Distinct(ms, cs)
    ensures Unnamed(Removed(ms, patch[0].key, cs), patch[1..], cs) == Unnamed(ms, patch, cs)
  {
    if ms != [] {
      var k := patch[0].key;
      assert forall j :: 0 <= j < |patch[1..]| ==> patch[1..][j] == patch[j + 1];
      if Key(ms[0].key, cs) == Key(k, cs) {
        assert Removed(ms, k, cs) == ms[1..] by {
          assert Without(ms, 0) == ms[1..];
        }
        NotNamedAgain(ms[1..], patch, cs);
      } else {
        UnnamedByHead(ms[1..], patch, cs);
        RemovedBelow(ms, k, cs);
        assert ([ms[0]] + Removed(ms[1..], k, cs))[1..] == Removed(ms[1..], k, cs);
        SameNamed(ms[0], patch, cs);
      }
    }
  }

  lemma {:induction false} RemovedBelow(ms: seq<Member>, k: string, cs: bool)
    requires ms != [] && Key(ms[0].key, cs) != Key(k, cs)
    ensures Removed(ms, k, cs) == [ms[0]] + Removed(ms[1..], k, cs)
  {
    var i := FindMember(ms[1..], k, cs);
    if i.Some? {
      assert Without(ms, i.value + 1) == [ms[0]] + Without(ms[1..], i.value);
    } else {
      assert ms == [ms[0]] + ms[1..];
    }
  }

  lemma {:induction false} SameNamed(m: Member, patch: seq<Member>, cs: bool)
    requires patch != [] && Key(m.key, cs) != Key(patch[0].key, cs)
    ensures (exists i :: 0 <= i < |patch| && Key(patch[i].key, cs) == Key(m.key, cs))
       <==> exists i :: 0 <= i < |patch[1..]| && Key(patch[1..][i].key, cs) == Key(m.key, cs)
  {
    if i :| 0 <= i < |patch| && Key(patch[i].key, cs) == Key(m.key, cs) {
      assert patch[1..][i - 1] == patch[i];
    }
    if i :| 0 <= i < |patch[1..]| && Key(patch[1..][i].key, cs) == Key(m.key, cs) {
      assert patch[i + 1] == patch[1..][i];
    }
  }

  lemma {:induction false} NotNamedAgain(ms: seq<Member>, patch: seq<Member>, cs: bool)
    requires patch != [] && forall i :: 0 <= i < |ms| ==> Key(ms[i].key, cs) != Key(patch[0].key, cs)
    ensures Unnamed(ms, patch[1..], cs) == Unnamed(ms, patch, cs)
  {
    if ms != [] {
      SameNamed(ms[0], patch, cs);
      NotNamedAgain(ms[1..], patch, cs);
    }
  }

  // What the patch does not name stays in front and as it is; what it sets comes behind,
  // in its order.
  lemma {:induction false} MergedOrder(ms: seq<Member>, patch: seq<Member>, cs: bool)
    requires Distinct(ms, cs) && Distinct(patch, cs)
    ensures var merged, kept := MergedMembers(ms, patch, cs), Unnamed(ms, patch, cs);
            && |kept| <= |merged| && merged[..|kept|] == kept && KeysOf(merged[|kept|..]) == SetKeys(patch)
    decreases |patch|
  {
    hide Unnamed, Merged, Removed, Key, Distinct;
    if patch == [] {
      AllUnnamed(ms, cs);
      assert ms[|ms|..] == [];
    } else {
      var p, rest := patch[0], Removed(ms, patch[0].key, cs);
      RemovedDistinct(ms, p.key, cs);
      UnnamedByHead(ms, patch, cs);
      DistinctTail(patch, cs);
      if p.value.Null? {
        MergedOrder(rest, patch[1..], cs);
      } else {
        var m := Member(p.key, Merged(Found(ms, p.key, cs), p.value, cs));
        DistinctWith(rest, m, cs);
        MergedOrder(rest + [m], patch[1..], cs);
        UnnamedSnoc(rest, m, patch[1..], cs);
        OneMoreKey(MergedMembers(ms, patch, cs), Unnamed(ms, patch, cs), m);
      }
    }
  }

  lemma {:induction false} DistinctTail(ms: seq<Member>, cs: bool)
    requires Distinct(ms, cs) && ms != []
    ensures Distinct(ms[1..], cs) && forall i :: 0 <= i < |ms[1..]| ==> Key(ms[1..][i].key, cs) != Key(ms[0].key, cs)
  {
  }

  lemma {:induction false} OneMoreKey(merged: seq<Member>, kept: seq<Member>, m: Member)
    requires |kept| + 1 <= |merged| && merged[..|kept| + 1] == kept + [m]
    ensures merged[..|kept|] == kept && KeysOf(merged[|kept|..]) == [m.key] + KeysOf(merged[|kept| + 1..])
  {
    assert merged[..|kept|] == merged[..|kept| + 1][..|kept|];
    assert merged[|kept|] == merged[..|kept| + 1][|kept|];
    assert merged[|kept|..] == [merged[|kept|]] + merged[|kept| + 1..];
  }

  lemma {:induction false} AllUnnamed(ms: seq<Member>, cs: bool)
    ensures Unnamed(ms, [], cs) == ms
  {
    if ms != [] {
      AllUnnamed(ms[1..], cs);
    }
  }

  lemma {:induction false} RemovedDistinct(ms: seq<Member>, k: string, cs: bool)
    requires Distinct(ms, cs)
    ensures Distinct(Removed(ms, k, cs), cs)
    ensures forall i :: 0 <= i < |Removed(ms, k, cs)| ==> Key(Removed(ms, k, cs)[i].key, cs) != Key(k, cs)
  {
    hide Key;
    var i := FindMember(ms, k, cs);
    if i.Some? {
      WithoutIsDistinct(ms, i.value, cs);
    }
  }

  lemma {:induction false} WithoutIsDistinct(ms: seq<Member>, i: nat, cs: bool)
    requires Distinct(ms, cs) && i < |ms|
    ensures Distinct(Without(ms, i), cs)
    ensures forall j :: 0 <= j < |ms| - 1 ==> Key(Without(ms, i)[j].key, cs) != Key(ms[i].key, cs)
  {
    hide Key;
    var r := Without(ms, i);
    assert forall j :: 0 <= j < |r| ==> r[j] == ms[if j < i then j else j + 1];
  }

  lemma {:induction false} DistinctWith(ms: seq<Member>, m: Member, cs: bool)
    requires Distinct(ms, cs) && forall i :: 0 <= i < |ms| ==> Key(ms[i].key, cs) != Key(m.key, cs)
    ensures Distinct(ms + [m], cs)
  {
  }

  // ----- Section 2 of RFC 7396, on values

  function Lookup(m: map<string, Value>, k: string): Option<Value> {
    if k in m then Some(m[k]) else None
  }

  function MembersOf(target: Option<Value>): map<string, Value> {
    if target.Some? && target.value.VObject? then target.value.members else map[]
  }

  function RfcMerge(target: Option<Value>, patch: Value): Value
    decreases patch
  {
    if !patch.VObject? then patch
    else
      var t, p := MembersOf(target), patch.members;
      VObject(map k | k in t.Keys + p.Keys && !(k in p && p[k].VNull?) ::
                if k in p then RfcMerge(Lookup(t, k), p[k]) else t[k])
  }

  ghost function MeaningOf(v: Option<Json>, cs: bool): Option<Value> {
    match v
    case None => None
    case Some(x) => Some(Meaning(x, cs))
  }

  ghost predicate TidyOption(v: Option<Json>, cs: bool) {
    v.Some? ==> Tidy(v.value, cs)
  }

  // merge_patch computes the function of the RFC, in both case modes.
  lemma {:induction false} MergedIsRfc(target: Option<Json>, patch: Json, cs: bool)
    requires TidyOption(target, cs) && Tidy(patch, cs)
    ensures Tidy(Merged(target, patch, cs), cs)
    ensures Meaning(Merged(target, patch, cs), cs) == RfcMerge(MeaningOf(target, cs), Meaning(patch, cs))
    decreases patch
  {
    if patch.Object? {
      var ms := if target.Some? && target.value.Object? then target.value.members else [];
      assert MembersOf(MeaningOf(target, cs)) == MembersMeaning(ms, cs);
      MergedMembersIsRfc(ms, patch.members, cs);
    }
  }

  lemma {:induction false} MergedMembersIsRfc(ms: seq<Member>, patch: seq<Member>, cs: bool)
    requires TidyMembers(ms, cs) && TidyMembers(patch, cs)
    ensures TidyMembers(MergedMembers(ms, patch, cs), cs)
    ensures VObject(MembersMeaning(MergedMembers(ms, patch, cs), cs))
         == RfcMerge(Some(VObject(MembersMeaning(ms, cs))), VObject(MembersMeaning(patch, cs)))
    decreases patch
  {
    hide Merged, Removed, Found;
    var t := MembersMeaning(ms, cs);
    if patch == [] {
      assert RfcMerge(Some(VObject(t)), VObject(map[])).members == t;
    } else {
      var p := patch[0];
      var k := Key(p.key, cs);
      RemovedMeaning(ms, p.key, cs);
      FirstKeyOnly(patch, cs);
      if p.value.Null? {
        MergedMembersIsRfc(Removed(ms, p.key, cs), patch[1..], cs);
        MergeDelete(t, MembersMeaning(patch[1..], cs), k);
      } else {
        var x := Merged(Found(ms, p.key, cs), p.value, cs);
        MergedIsRfc(Found(ms, p.key, cs), p.value, cs);
        MeaningAppend(Removed(ms, p.key, cs), cs, Member(p.key, x));
        assert (t - {k})[k := Meaning(x, cs)] == t[k := Meaning(x, cs)];
        MergedMembersIsRfc(Removed(ms, p.key, cs) + [Member(p.key, x)], patch[1..], cs);
        NotNull(p.value, cs);
        MergeSet(t, MembersMeaning(patch[1..], cs), k, Meaning(p.value, cs));
      }
    }
  }

  lemma {:induction false} NotNull(v: Json, cs: bool)
    ensures Meaning(v, cs).VNull? <==> v.Null?
  {
  }

  lemma {:induction false} FirstKeyOnly(ms: seq<Member>, cs: bool)
    requires ms != [] && TidyMembers(ms, cs)
    ensures TidyMembers(ms[1..], cs) && Tidy(ms[0].value, cs)
    ensures Key(ms[0].key, cs) !in MembersMeaning(ms[1..], cs)
  {
    MeaningKeys(ms[1..], cs, Key(ms[0].key, cs));
  }

  lemma {:induction false} RemovedMeaning(ms: seq<Member>, key: string, cs: bool)
    requires TidyMembers(ms, cs)
    ensures TidyMembers(Removed(ms, key, cs), cs)
    ensures MembersMeaning(Removed(ms, key, cs), cs) == MembersMeaning(ms, cs) - {Key(key, cs)}
    ensures TidyOption(Found(ms, key, cs), cs)
    ensures MeaningOf(Found(ms, key, cs), cs) == Lookup(MembersMeaning(ms, cs), Key(key, cs))
  {
    FindMeaning(ms, key, cs);
    match FindMember(ms, key, cs)
    case None =>
    case Some(i) => MeaningWithout(ms, cs, i);
  }

  lemma {:induction false} MergeDelete(t: map<string, Value>, p: map<string, Value>, k: string)
    requires k !in p
    ensures RfcMerge(Some(VObject(t - {k})), VObject(p)) == RfcMerge(Some(VObject(t)), VObject(p[k := VNull]))
  {
    assert RfcMerge(Some(VObject(t - {k})), VObject(p)).members
        == RfcMerge(Some(VObject(t)), VObject(p[k := VNull])).members;
  }

  lemma {:induction false} MergeSet(t: map<string, Value>, p: map<string, Value>, k: string, x: Value)
    requires k !in p && !x.VNull?
    ensures RfcMerge(Some(VObject(t[k := RfcMerge(Lookup(t, k), x)])), VObject(p))
         == RfcMerge(Some(VObject(t)), VObject(p[k := x]))
  {
    var a := RfcMerge(Some(VObject(t[k := RfcMerge(Lookup(t, k), x)])), VObject(p)).members;
    var b := RfcMerge(Some(VObject(t)), VObject(p[k := x])).members;
    assert a.Keys == b.Keys;
    forall j | j in a
      ensures a[j] == b[j]
    {
      if j != k {
        assert Lookup(t[k := RfcMerge(Lookup(t, k), x)], j) == Lookup(t, j);
      }
    }
  }

  // Applying a merge patch a second time changes nothing.
  lemma {:induction false} MergeTwice(target: Option<Value>, patch: Value)
    ensures RfcMerge(Some(RfcMerge(target, patch)), patch) == RfcMerge(target, patch)
    decreases patch
  {
    if patch.VObject? {
      var t, p := MembersOf(target), patch.members;
      var once := RfcMerge(target, patch).members;
      var twice := RfcMerge(Some(VObject(once)), patch).members;
      forall k | k in p && !p[k].VNull?
        ensures twice[k] == once[k]
      {
        MergeTwice(Lookup(t, k), p[k]);
      }
      assert twice == once;
    }
  }

  lemma {:induction false} MergePatchTwice(target: Option<Json>, patch: Json, cs: bool)
    requires TidyOption(target, cs) && Tidy(patch, cs)
    ensures var once := Merged(target, patch, cs);
            Meaning(Merged(Some(once), patch, cs), cs) == Meaning(once, cs)
  {
    MergedIsRfc(target, patch, cs);
    MergedIsRfc(Some(Merged(target, patch, cs)), patch, cs);
    MergeTwice(MeaningOf(target, cs), Meaning(patch, cs));
  }

  // ----- generate_merge_patch, case-insensitive

  // NULL (None) stands for "nothing to change".
  function MergeDiff(from: Json, to: Json): Option<Json>
    decreases Height(from), 0, 0
  {
    if !to.Object? || !from.Object? then Some(to)
    else
      SortedHeight(from.members, false);
      var members := MergeWalk(Sort(from.members, false), Sort(to.members, false));
      if members == [] then None else Some(Object(members))
  }

  // Keys are compared with strcmp, whatever order the lists are sorted in.
  function RawOrder(from: seq<Member>, to: seq<Member>): (r: int)
    requires from != [] || to != []
    ensures r <= 0 ==> from != []
    ensures r >= 0 ==> to != []
  {
    if from == [] then 1 else if to == [] then -1 else Order(from[0].key, to[0].key)
  }

  function MergeWalk(from: seq<Member>, to: seq<Member>): seq<Member>
    decreases MembersHeight(from), 1, |from| + |to|, 0
  {
    if from == [] && to == [] then []
    else
      var diff := RawOrder(from, to);
      if diff < 0 then [Member(from[0].key, Null)] + MergeWalk(from[1..], to)
      else if diff > 0 then [to[0]] + MergeWalk(from, to[1..])
      else if Alike(from[0].value, to[0].value, false) then MergeWalk(from[1..], to[1..])
      else
        NullMeansAlike(from[0].value, to[0].value);
        [Member(to[0].key, MergeDiff(from[0].value, to[0].value).value)] + MergeWalk(from[1..], to[1..])
  }

  // A nested call never returns NULL for items that compare_json tells apart, so
  // no null pointer is added to the patch.
  lemma {:induction false} NullMeansAlike(from: Json, to: Json)
    ensures MergeDiff(from, to).None? ==> Alike(from, to, false)
    decreases Height(from), 0, 1
  {
    if from.Object? && to.Object? {
      SortedHeight(from.members, false);
      EmptyWalkMeansAlike(Sort(from.members, false), Sort(to.members, false));
    }
  }

  lemma {:induction false} EmptyWalkMeansAlike(from: seq<Member>, to: seq<Member>)
    ensures MergeWalk(from, to) == [] ==> AlikeMembers(from, to, false)
    decreases MembersHeight(from), 1, |from| + |to|, 1
  {
    if from != [] && to != [] && RawOrder(from, to) == 0 {
      OrderZero(from[0].key, to[0].key);
      OrderZero(Fold(from[0].key), Fold(to[0].key));
      EmptyWalkMeansAlike(from[1..], to[1..]);
    }
  }

  method GenerateMergePatch(from: Json, to: Json) returns (patch: Option<Json>)
    ensures patch == MergeDiff(from, to)
    decreases Height(from)
  {
    if !to.Object? || !from.Object? {
      return Some(to);
    }
    SortedHeight(from.members, false);
    var s, t := Sort(from.members, false), Sort(to.members, false);
    var members: seq<Member>, i, j := [], 0, 0;
    while i < |s| || j < |t|
      invariant 0 <= i <= |s| && 0 <= j <= |t|
      invariant members + MergeWalk(s[i..], t[j..]) == MergeWalk(s, t)
      decreases |s| - i + |t| - j
    {
      ghost var f, g, before := s[i..], t[j..], members;
      assert i < |s| ==> f[1..] == s[i + 1..];
      assert j < |t| ==> g[1..] == t[j + 1..];
      var diff := 1;
      if i < |s| {
        diff := -1;
        if j < |t| {
          diff := CompareStrings(s[i].key, t[j].key, true);
        }
      }
      assert diff == RawOrder(f, g);
      if diff < 0 {
        members := members + [Member(s[i].key, Null)];
        Append(before, Member(f[0].key, Null), MergeWalk(f[1..], g));
        i := i + 1;
      } else if diff > 0 {
        members := members + [t[j]];
        Append(before, g[0], MergeWalk(f, g[1..]));
        j := j + 1;
      } else {
        // The nested call starts from both values as they were, not as they are sorted now.
        var same, _, _ := CompareJson.CompareJson(s[i].value, t[j].value, false);
        if !same {
          MemberHeight(s, i);
          var nested := GenerateMergePatch(s[i].value, t[j].value);
          NullMeansAlike(s[i].value, t[j].value);
          members := members + [Member(t[j].key, nested.value)];
          Append(before, Member(t[j].key, nested.value), MergeWalk(f[1..], g[1..]));
        }
        i, j := i + 1, j + 1;
      }
    }
    assert members + [] == members;
    patch := if members == [] then None else Some(Object(members));
  }

  lemma {:induction false} Append<T>(a: seq<T>, x: T, b: seq<T>)
    ensures a + ([x] + b) == (a + [x]) + b
  {
  }

  // ----- What a generated merge patch means

  function ValueDiff(from: Value, to: Value): Value
    decreases from, 1
  {
    if !to.VObject? || !from.VObject? then to else VObject(MembersDiff(from.members, to.members))
  }

  function MembersDiff(f: map<string, Value>, t: map<string, Value>): map<string, Value>
    decreases VObject(f), 0
  {
    map k | k in f.Keys + t.Keys && !(k in f && k in t && f[k] == t[k]) ::
      if k !in t then VNull else if k !in f then t[k] else ValueDiff(f[k], t[k])
  }

  // The two objects are walked in the order they are sorted in, at every level
  // that the generator enters.
  ghost predicate InStep(from: Json, to: Json) {
    match (from, to)
    case (Object(x), Object(y)) =>
      forall i, j :: 0 <= i < |x| && 0 <= j < |y| ==>
                       SameOrder(x[i].key, y[j].key) && (x[i].key == y[j].key ==> InStep(x[i].value, y[j].value))
    case _ => true
  }

  ghost predicate MembersInStep(x: seq<Member>, y: seq<Member>) {
    forall i, j :: 0 <= i < |x| && 0 <= j < |y| ==>
                     SameOrder(x[i].key, y[j].key) && (x[i].key == y[j].key ==> InStep(x[i].value, y[j].value))
  }

  ghost predicate LowercaseTree(v: Json) {
    match v
    case Object(members) =>
      forall i :: 0 <= i < |members| ==> Lowercase(members[i].key) && LowercaseTree(members[i].value)
    case _ => true
  }

  // Keys without capital letters are one way to stay in step.
  lemma {:induction false} LowercaseInStep(from: Json, to: Json)
    requires LowercaseTree(from) && LowercaseTree(to)
    ensures InStep(from, to)
  {
    match (from, to)
    case (Object(x), Object(y)) =>
      forall i, j | 0 <= i < |x| && 0 <= j < |y|
        ensures SameOrder(x[i].key, y[j].key) && InStep(x[i].value, y[j].value)
      {
        FoldIdempotent(x[i].key);
        FoldIdempotent(y[j].key);
        LowercaseInStep(x[i].value, y[j].value);
      }
    case _ =>
  }

  ghost predicate Side(ms: seq<Member>) {
    TidyMembers(ms, false) && Ranked(ms)
  }

  lemma {:induction false} SortedSide(v: Json)
    requires v.Object? && Tidy(v, false)
    ensures Side(Sort(v.members, false))
    ensures MembersMeaning(Sort(v.members, false), false) == Meaning(v, false).members
  {
    SortKeepsMeaning(v.members, false, false);
    SortRanks(v.members);
  }

  lemma {:induction false} SortedInStep(x: seq<Member>, y: seq<Member>)
    requires MembersInStep(x, y)
    ensures MembersInStep(Sort(x, false), Sort(y, false))
  {
    var s, t := Sort(x, false), Sort(y, false);
    forall i, j | 0 <= i < |s| && 0 <= j < |t|
      ensures SameOrder(s[i].key, t[j].key) && (s[i].key == t[j].key ==> InStep(s[i].value, t[j].value))
    {
      SortedElement(x, false, i);
      SortedElement(y, false, j);
    }
  }

  lemma {:induction false} SideTail(ms: seq<Member>)
    requires ms != [] && Side(ms)
    ensures Side(ms[1..]) && Tidy(ms[0].value, false)
    ensures Fold(ms[0].key) !in MembersMeaning(ms[1..], false)
  {
    BeforeIsAbsent(ms[0].key, ms[1..]);
  }

  // A key ranked before a whole list is not in it.
  lemma {:induction false} BeforeIsAbsent(k: string, ms: seq<Member>)
    requires Ranked(ms) && (ms != [] ==> Order(Fold(k), Fold(ms[0].key)) < 0)
    ensures Fold(k) !in MembersMeaning(ms, false)
  {
    MeaningKeys(ms, false, Fold(k));
    forall i | 0 <= i < |ms|
      ensures Fold(ms[i].key) != Fold(k)
    {
      OrderZero(Fold(k), Fold(ms[i].key));
      if i > 0 {
        OrderTrans(Fold(k), Fold(ms[0].key), Fold(ms[i].key));
      }
    }
  }

  lemma {:induction false} MergeDiffMeaning(from: Json, to: Json)
    requires Tidy(from, false) && Tidy(to, false) && InStep(from, to)
    ensures MergeDiff(from, to).None? <==> from.Object? && to.Object? && Alike(from, to, false)
    ensures MergeDiff(from, to).Some? ==>
              && Tidy(MergeDiff(from, to).value, false)
              && Meaning(MergeDiff(from, to).value, false) == ValueDiff(Meaning(from, false), Meaning(to, false))
    decreases Height(from), 0, 1
  {
    if from.Object? && to.Object? {
      SortedHeight(from.members, false);
      SortedSide(from);
      SortedSide(to);
      SortedInStep(from.members, to.members);
      WalkMeaning(Sort(from.members, false), Sort(to.members, false));
      AlikeIsEqualMeaning(from, to);
      EmptyDiff(Meaning(from, false).members, Meaning(to, false).members);
      NonemptyMeaning(MergeWalk(Sort(from.members, false), Sort(to.members, false)));
    }
  }

  lemma {:induction false} EmptyDiff(f: map<string, Value>, t: map<string, Value>)
    ensures MembersDiff(f, t) == map[] <==> f == t
  {
    if MembersDiff(f, t) == map[] {
      forall k
        ensures k in f <==> k in t
        ensures k in f ==> f[k] == t[k]
      {
        assert k !in MembersDiff(f, t);
      }
      assert f.Keys == t.Keys;
    }
  }

  lemma {:induction false} WalkMeaning(from: seq<Member>, to: seq<Member>)
    requires Side(from) && Side(to) && MembersInStep(from, to)
    ensures TidyMembers(MergeWalk(from, to), false)
    ensures MembersMeaning(MergeWalk(from, to), false)
         == MembersDiff(MembersMeaning(from, false), MembersMeaning(to, false))
    decreases MembersHeight(from), 1, |from| + |to|
  {
    if from != [] || to != [] {
      var diff := RawOrder(from, to);
      if diff < 0 {
        SideTail(from);
        BeforeIsAbsent(from[0].key, to);
        WalkMeaning(from[1..], to);
        DiffRemoval(MembersMeaning(from[1..], false), MembersMeaning(to, false), Fold(from[0].key),
                    Meaning(from[0].value, false));
        ConsTidy(Member(from[0].key, Null), MergeWalk(from[1..], to));
      } else if diff > 0 {
        SideTail(to);
        if from != [] {
          OrderFlip(Fold(from[0].key), Fold(to[0].key));
        }
        BeforeIsAbsent(to[0].key, from);
        WalkMeaning(from, to[1..]);
        DiffAddition(MembersMeaning(from, false), MembersMeaning(to[1..], false), Fold(to[0].key),
                     Meaning(to[0].value, false));
        ConsTidy(to[0], MergeWalk(from, to[1..]));
      } else {
        WalkBothMeaning(from, to);
      }
    }
  }

  lemma {:induction false} WalkBothMeaning(from: seq<Member>, to: seq<Member>)
    requires Side(from) && Side(to) && MembersInStep(from, to) && from != [] && to != [] && RawOrder(from, to) == 0
    ensures TidyMembers(MergeWalk(from, to), false)
    ensures MembersMeaning(MergeWalk(from, to), false)
         == MembersDiff(MembersMeaning(from, false), MembersMeaning(to, false))
    decreases MembersHeight(from), 1, |from| + |to|, 0
  {
    var f, t := from[0].value, to[0].value;
    OrderZero(from[0].key, to[0].key);
    SideTail(from);
    SideTail(to);
    WalkMeaning(from[1..], to[1..]);
    AlikeIsEqualMeaning(f, t);
    DiffCommon(MembersMeaning(from[1..], false), MembersMeaning(to[1..], false), Fold(to[0].key), Meaning(f, false),
               Meaning(t, false));
    if !Alike(f, t, false) {
      MemberHeight(from, 0);
      MergeDiffMeaning(f, t);
      ConsTidy(Member(to[0].key, MergeDiff(f, t).value), MergeWalk(from[1..], to[1..]));
    }
  }

  lemma {:induction false} ConsTidy(m: Member, ms: seq<Member>)
    requires TidyMembers(ms, false) && Tidy(m.value, false) && Fold(m.key) !in MembersMeaning(ms, false)
    ensures TidyMembers([m] + ms, false)
    ensures MembersMeaning([m] + ms, false) == MembersMeaning(ms, false)[Fold(m.key) := Meaning(m.value, false)]
  {
    assert ([m] + ms)[1..] == ms;
    forall i | 0 <= i < |ms|
      ensures Fold(ms[i].key) != Fold(m.key)
    {
      MeaningKeys(ms, false, Fold(m.key));
    }
  }

  lemma {:induction false} DiffRemoval(f: map<string, Value>, t: map<string, Value>, k: string, x: Value)
    requires k !in f && k !in t
    ensures MembersDiff(f[k := x], t) == MembersDiff(f, t)[k := VNull] && k !in MembersDiff(f, t)
  {
  }

  lemma {:induction false} DiffAddition(f: map<string, Value>, t: map<string, Value>, k: string, x: Value)
    requires k !in f && k !in t
    ensures MembersDiff(f, t[k := x]) == MembersDiff(f, t)[k := x] && k !in MembersDiff(f, t)
  {
  }

  lemma {:induction false} DiffCommon(f: map<string, Value>, t: map<string, Value>, k: string, x: Value, y: Value)
    requires k !in f && k !in t
    ensures k !in MembersDiff(f, t)
    ensures MembersDiff(f[k := x], t[k := y])
         == if x == y then MembersDiff(f, t) else MembersDiff(f, t)[k := ValueDiff(x, y)]
  {
  }

  // ----- When the patch takes from to to

  // No object member in the value, however deep below objects, is null.
  predicate NullFree(v: Value) {
    v.VObject? ==> forall k :: k in v.members ==> !v.members[k].VNull? && NullFree(v.members[k])
  }

  // Every null member of the target is already in place, where both sides have objects.
  predicate Expressible(from: Value, to: Value) {
    to.VObject? ==>
      if from.VObject? then
        forall k :: k in to.members ==>
          || (k in from.members && from.members[k] == to.members[k])
          || (!to.members[k].VNull?
              && if k in from.members then Expressible(from.members[k], to.members[k]) else NullFree(to.members[k]))
      else NullFree(to)
  }

  lemma {:induction false} MergeIntoNothing(target: Option<Value>, v: Value)
    requires MembersOf(target) == map[]
    ensures RfcMerge(target, v) == v <==> NullFree(v)
    decreases v
  {
    if v.VObject? {
      var r := RfcMerge(target, v).members;
      forall k | k in v.members
        ensures RfcMerge(None, v.members[k]) == v.members[k] <==> NullFree(v.members[k])
      {
        MergeIntoNothing(None, v.members[k]);
      }
      if r == v.members {
        forall k | k in v.members
          ensures !v.members[k].VNull? && NullFree(v.members[k])
        {
          assert k in r && r[k] == RfcMerge(None, v.members[k]);
        }
      }
      if NullFree(v) {
        assert r == v.members;
      }
    }
  }

  lemma {:induction false} DiffThenMerge(from: Value, goal: Value)
    ensures RfcMerge(Some(from), ValueDiff(from, goal)) == goal <==> Expressible(from, goal)
    decreases goal, 1
  {
    if goal.VObject? && !from.VObject? {
      MergeIntoNothing(Some(from), goal);
    } else if goal.VObject? {
      var f, t := from.members, goal.members;
      var r := RfcMerge(Some(from), ValueDiff(from, goal)).members;
      forall k
        ensures Agree(r, t, k) <==> MemberExpressible(f, t, k)
      {
        MemberThenMerge(f, t, k);
      }
      AgreeEverywhere(r, t);
      if forall k {:induction false} :: MemberExpressible(f, t, k) {
        forall k | k in t
          ensures MemberExpressible(f, t, k)
        {
        }
      }
      assert Expressible(from, goal) ==> forall k {:induction false} :: MemberExpressible(f, t, k);
    }
  }

  ghost predicate Agree(r: map<string, Value>, t: map<string, Value>, k: string) {
    (k in r <==> k in t) && (k in t ==> r[k] == t[k])
  }

  lemma {:induction false} AgreeEverywhere(r: map<string, Value>, t: map<string, Value>)
    ensures r == t <==> forall k {:induction false} :: Agree(r, t, k)
  {
    if forall k {:induction false} :: Agree(r, t, k) {
      forall k
        ensures k in r <==> k in t
      {
        assert Agree(r, t, k);
      }
      forall k | k in t
        ensures r[k] == t[k]
      {
        assert Agree(r, t, k);
      }
      assert r.Keys == t.Keys;
    }
  }

  predicate MemberExpressible(f: map<string, Value>, t: map<string, Value>, k: string) {
    k in t ==>
      || (k in f && f[k] == t[k])
      || (!t[k].VNull? && if k in f then Expressible(f[k], t[k]) else NullFree(t[k]))
  }

  lemma {:induction false} MemberThenMerge(f: map<string, Value>, t: map<string, Value>, k: string)
    ensures Agree(RfcMerge(Some(VObject(f)), VObject(MembersDiff(f, t))).members, t, k) <==> MemberExpressible(f, t, k)
    decreases VObject(t), 0
  {
    var d := MembersDiff(f, t);
    if k in t && !(k in f && f[k] == t[k]) {
      assert k in d;
      if k in f {
        DiffThenMerge(f[k], t[k]);
        assert ValueDiff(f[k], t[k]).VNull? <==> t[k].VNull?;
      } else {
        MergeIntoNothing(None, t[k]);
      }
    }
  }

  // ----- The round trip of documents that are in step

  lemma {:induction false} RoundTripInStep(doc: Json, from: Json, to: Json)
    requires Tidy(from, false) && Tidy(to, false) && InStep(from, to)
    requires Tidy(doc, false) && Alike(doc, from, false)
    ensures MergeDiff(from, to).None? <==> from.Object? && to.Object? && Alike(from, to, false)
    ensures MergeDiff(from, to).Some? ==>
              (Alike(Merged(Some(doc), MergeDiff(from, to).value, false), to, false)
               <==> Expressible(Meaning(from, false), Meaning(to, false)))
  {
    AlikeIsEqualMeaning(doc, from);
    MergeDiffMeaning(from, to);
    if MergeDiff(from, to).Some? {
      var patch := MergeDiff(from, to).value;
      MergedIsRfc(Some(doc), patch, false);
      AlikeIsEqualMeaning(Merged(Some(doc), patch, false), to);
      DiffThenMerge(Meaning(from, false), Meaning(to, false));
    }
  }

  // Out of step: the capital key sorts last but compares first, so it is added and
  // then removed again.
  lemma {:induction false} CapitalsOutOfStep()
    ensures var a, b := Member("a", True), Member("B", True);
            var patch := Object([b, Member("a", Null), Member("B", Null)]);
            && MergeDiff(Object([a, b]), Object([b])) == Some(patch)
            && Merged(Some(Object([a, b])), patch, false) == Object([])
            && !Alike(Object([]), Object([b]), false)
  {
    var a, b := Member("a", True), Member("B", True);
    CapitalsWalk(a, b);
    CapitalsMerge(a, b);
  }

  lemma {:induction false} CapitalsWalk(a: Member, b: Member)
    requires a == Member("a", True) && b == Member("B", True)
    ensures MergeDiff(Object([a, b]), Object([b])) == Some(Object([b, Member("a", Null), Member("B", Null)]))
  {
    assert Key("a", false) == Fold("a") == "a" && Key("B", false) == Fold("B") == "b";
    assert Order("a", "b") == -1 && Order("a", "B") == 1;
    assert StrictlyAscending([a, b], false);
    assert Sort([a, b], false) == [a, b] && Sort([b], false) == [b];
    assert [a, b][1..] == [b] && [b][1..] == [];
    assert MergeWalk([], []) == [];
    assert MergeWalk([b], []) == [Member("B", Null)];
    assert MergeWalk([a, b], []) == [Member("a", Null), Member("B", Null)];
    assert MergeWalk([a, b], [b]) == [b, Member("a", Null), Member("B", Null)];
  }

  lemma {:induction false} CapitalsMerge(a: Member, b: Member)
    requires a == Member("a", True) && b == Member("B", True)
    ensures Merged(Some(Object([a, b])), Object([b, Member("a", Null), Member("B", Null)]), false) == Object([])
    ensures !Alike(Object([]), Object([b]), false)
  {
    var na, nb := Member("a", Null), Member("B", Null);
    CapitalsRemoved(a, b);
    assert [b, na, nb][1..] == [na, nb] && [na, nb][1..] == [nb] && [nb][1..] == [] && [a] + [b] == [a, b];
    assert MergedMembers([a, b], [b, na, nb], false) == [] by {
      hide Removed, Found;
      assert Merged(Found([a, b], "B", false), True, false) == True;
      assert MergedMembers([b], [nb], false) == [];
      assert MergedMembers([a, b], [na, nb], false) == [];
    }
  }

  lemma {:induction false} CapitalsRemoved(a: Member, b: Member)
    requires a == Member("a", True) && b == Member("B", True)
    ensures Removed([a, b], "B", false) == [a] && Removed([a, b], "a", false) == [b] && Removed([b], "B", false) == []
  {
    assert Key("a", false) == Fold("a") == "a" && Key("B", false) == Fold("B") == "b";
    assert Key("a", false)[0] != Key("B", false)[0];
    assert FindMember([a, b], "B", false) == Some(1) && FindMember([a, b], "a", false) == Some(0);
    assert FindMember([b], "B", false) == Some(0);
    assert Without([a, b], 1) == [a] && Without([a, b], 0) == [b] && Without([b], 0) == [];
  }
}
