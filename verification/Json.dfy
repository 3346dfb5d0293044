/**
  JSON items as values. An item's children are a sequence, so member order and
  duplicate keys are visible. A number is the decimal lexeme that denotes it.

  `Meaning` is what an item says when member order, and in case-insensitive
  mode key case, are forgotten: objects become finite maps.
 */
module Json {
  import opened CStrings

  datatype Json =
    | Invalid
    | False
    | True
    | Null
    | Number(lexeme: string)
    | String(text: string)
    | Array(items: seq<Json>)
    | Object(members: seq<Member>)

  datatype Member = Member(key: string, value: Json)

  datatype Value =
    | VInvalid
    | VFalse
    | VTrue
    | VNull
    | VNumber(lexeme: string)
    | VString(text: string)
    | VArray(items: seq<Value>)
    | VObject(members: map<string, Value>)

  datatype Option<+T> = None | Some(value: T)

  function Meaning(v: Json, cs: bool): (r: Value) {
    match v
    case Invalid => VInvalid
    case False => VFalse
    case True => VTrue
    case Null => VNull
    case Number(lexeme) => VNumber(lexeme)
    case String(text) => VString(text)
    case Array(items) => VArray(seq(|items|, i requires 0 <= i < |items| => Meaning(items[i], cs)))
    case Object(members) => VObject(MembersMeaning(members, cs))
  }

  // The first member with a key wins, as it does in every lookup.
  function MembersMeaning(ms: seq<Member>, cs: bool): map<string, Value> {
    if ms == [] then map[]
    else MembersMeaning(ms[1..], cs)[Key(ms[0].key, cs) := Meaning(ms[0].value, cs)]
  }

  ghost predicate Distinct(ms: seq<Member>, cs: bool) {
    forall i, j :: 0 <= i < j < |ms| ==> Key(ms[i].key, cs) != Key(ms[j].key, cs)
  }

  // Every object in the tree has distinct keys.
  ghost predicate Tidy(v: Json, cs: bool) {
    match v
    case Array(items) => forall i :: 0 <= i < |items| ==> Tidy(items[i], cs)
    case Object(members) => Distinct(members, cs) && forall i :: 0 <= i < |members| ==> Tidy(members[i].value, cs)
    case _ => true
  }

  ghost predicate TidyMembers(ms: seq<Member>, cs: bool) {
    && Distinct(ms, cs)
    && forall i :: 0 <= i < |ms| ==> Tidy(ms[i].value, cs)
  }

  // get_object_item: the first member whose key matches.
  function FindMember(ms: seq<Member>, name: string, cs: bool): (r: Option<nat>)
    ensures r.Some? ==> r.value < |ms| && Key(ms[r.value].key, cs) == Key(name, cs)
    ensures r.Some? ==> forall i :: 0 <= i < r.value ==> Key(ms[i].key, cs) != Key(name, cs)
    ensures r.None? ==> forall i :: 0 <= i < |ms| ==> Key(ms[i].key, cs) != Key(name, cs)
  {
    if ms == [] then None
    else if Key(ms[0].key, cs) == Key(name, cs) then Some(0)
    else match FindMember(ms[1..], name, cs)
         case None => None
         case Some(i) => Some(i + 1)
  }

  function Without<T>(s: seq<T>, i: nat): seq<T>
    requires i < |s|
  {
    s[..i] + s[i + 1..]
  }

  function Inserted<T>(s: seq<T>, i: nat, x: T): seq<T>
    requires i <= |s|
  {
    s[..i] + [x] + s[i..]
  }

  lemma {:induction false} Regroup<T>(a: seq<T>, b: seq<T>, c: seq<T>)
    ensures a + (b + c) == (a + b) + c
  {
  }

  // ----- Height, by which functions that sort before they recurse terminate

  function Height(v: Json): nat {
    match v
    case Array(items) => 1 + ItemsHeight(items)
    case Object(members) => 1 + MembersHeight(members)
    case _ => 0
  }

  function ItemsHeight(items: seq<Json>): nat {
    if items == [] then 0 else Max(Height(items[0]), ItemsHeight(items[1..]))
  }

  function MembersHeight(ms: seq<Member>): nat {
    if ms == [] then 0 else Max(Height(ms[0].value), MembersHeight(ms[1..]))
  }

  function Max(a: nat, b: nat): nat {
    if a < b then b else a
  }

  lemma {:induction false} ItemHeight(items: seq<Json>, i: nat)
    requires i < |items|
    ensures Height(items[i]) <= ItemsHeight(items)
  {
    if i > 0 {
      ItemHeight(items[1..], i - 1);
    }
  }

  lemma {:induction false} MemberHeight(ms: seq<Member>, i: nat)
    requires i < |ms|
    ensures Height(ms[i].value) <= MembersHeight(ms)
  {
    if i > 0 {
      MemberHeight(ms[1..], i - 1);
    }
  }

  lemma {:induction false} MembersHeightBound(ms: seq<Member>, h: nat)
    requires forall i :: 0 <= i < |ms| ==> Height(ms[i].value) <= h
    ensures MembersHeight(ms) <= h
  {
    if ms != [] {
      MembersHeightBound(ms[1..], h);
    }
  }

  // ----- Facts about MembersMeaning

  lemma {:induction false} MeaningOfConcat(a: seq<Member>, b: seq<Member>, cs: bool)
    ensures MembersMeaning(a + b, cs) == MembersMeaning(b, cs) + MembersMeaning(a, cs)
  {
    if a == [] {
      assert a + b == b;
    } else {
      MeaningOfConcat(a[1..], b, cs);
      assert (a + b)[1..] == a[1..] + b;
      UpdateRight(MembersMeaning(b, cs), MembersMeaning(a[1..], cs), Key(a[0].key, cs), Meaning(a[0].value, cs));
    }
  }

  lemma {:induction false} UpdateRight<K, V>(x: map<K, V>, y: map<K, V>, k: K, v: V)
    ensures (x + y)[k := v] == x + y[k := v]
  {
  }

  lemma {:induction false} DropMiddle<K, V>(x: map<K, V>, y: map<K, V>, k: K, v: V)
    requires k !in x && k !in y
    ensures x[k := v] + y - {k} == x + y
  {
  }

  lemma {:induction false} UpdateMiddle<K, V>(x: map<K, V>, y: map<K, V>, k: K, v: V, w: V)
    requires k !in y
    ensures (x[k := v] + y)[k := w] == x[k := w] + y
  {
  }

  lemma {:induction false} MeaningKeys(ms: seq<Member>, cs: bool, k: string)
    ensures k in MembersMeaning(ms, cs) <==> exists i :: 0 <= i < |ms| && Key(ms[i].key, cs) == k
  {
    if ms != [] {
      MeaningKeys(ms[1..], cs, k);
      if k in MembersMeaning(ms[1..], cs) {
        var i :| 0 <= i < |ms[1..]| && Key(ms[1..][i].key, cs) == k;
        assert Key(ms[i + 1].key, cs) == k;
      }
    }
  }

  // The members as keys and meanings, one by one.
  lemma {:induction false} MeaningAt(ms: seq<Member>, cs: bool, i: nat)
    requires Distinct(ms, cs) && i < |ms|
    ensures Key(ms[i].key, cs) in MembersMeaning(ms, cs)
    ensures MembersMeaning(ms, cs)[Key(ms[i].key, cs)] == Meaning(ms[i].value, cs)
  {
    if i > 0 {
      MeaningAt(ms[1..], cs, i - 1);
    }
  }

  // The members around position i, and the one there.
  lemma {:induction false} MeaningSplit(ms: seq<Member>, cs: bool, i: nat)
    requires i < |ms|
    ensures MembersMeaning(ms, cs)
         == MembersMeaning(ms[i + 1..], cs)[Key(ms[i].key, cs) := Meaning(ms[i].value, cs)]
           + MembersMeaning(ms[..i], cs)
  {
    assert ms == ms[..i] + ms[i..];
    MeaningOfConcat(ms[..i], ms[i..], cs);
    assert ms[i..][1..] == ms[i + 1..];
  }

  lemma {:induction false} KeyOnlyAt(ms: seq<Member>, cs: bool, i: nat)
    requires Distinct(ms, cs) && i < |ms|
    ensures Key(ms[i].key, cs) !in MembersMeaning(ms[..i], cs)
    ensures Key(ms[i].key, cs) !in MembersMeaning(ms[i + 1..], cs)
  {
    MeaningKeys(ms[..i], cs, Key(ms[i].key, cs));
    MeaningKeys(ms[i + 1..], cs, Key(ms[i].key, cs));
  }

  lemma {:induction false} MeaningWithout(ms: seq<Member>, cs: bool, i: nat)
    requires Distinct(ms, cs) && i < |ms|
    ensures Distinct(Without(ms, i), cs)
    ensures MembersMeaning(Without(ms, i), cs) == MembersMeaning(ms, cs) - {Key(ms[i].key, cs)}
  {
    MeaningSplit(ms, cs, i);
    KeyOnlyAt(ms, cs, i);
    MeaningOfConcat(ms[..i], ms[i + 1..], cs);
    DropMiddle(MembersMeaning(ms[i + 1..], cs), MembersMeaning(ms[..i], cs), Key(ms[i].key, cs),
               Meaning(ms[i].value, cs));
  }

  lemma {:induction false} MeaningAppend(ms: seq<Member>, cs: bool, m: Member)
    requires Distinct(ms, cs)
    requires Key(m.key, cs) !in MembersMeaning(ms, cs)
    ensures Distinct(ms + [m], cs)
    ensures MembersMeaning(ms + [m], cs) == MembersMeaning(ms, cs)[Key(m.key, cs) := Meaning(m.value, cs)]
  {
    MeaningOfConcat(ms, [m], cs);
    assert MembersMeaning([m], cs) == map[Key(m.key, cs) := Meaning(m.value, cs)];
    forall i | 0 <= i < |ms|
      ensures Key(ms[i].key, cs) != Key(m.key, cs)
    {
      MeaningKeys(ms, cs, Key(m.key, cs));
    }
  }

  lemma {:induction false} MeaningUpdate(ms: seq<Member>, cs: bool, i: nat, v: Json)
    requires Distinct(ms, cs) && i < |ms|
    ensures Distinct(ms[i := Member(ms[i].key, v)], cs)
    ensures MembersMeaning(ms[i := Member(ms[i].key, v)], cs)
         == MembersMeaning(ms, cs)[Key(ms[i].key, cs) := Meaning(v, cs)]
  {
    var ms' := ms[i := Member(ms[i].key, v)];
    MeaningSplit(ms, cs, i);
    MeaningSplit(ms', cs, i);
    KeyOnlyAt(ms, cs, i);
    assert ms'[..i] == ms[..i] && ms'[i + 1..] == ms[i + 1..];
    UpdateMiddle(MembersMeaning(ms[i + 1..], cs), MembersMeaning(ms[..i], cs), Key(ms[i].key, cs),
                 Meaning(ms[i].value, cs), Meaning(v, cs));
  }

  // A lookup finds exactly what the map says.
  lemma {:induction false} FindMeaning(ms: seq<Member>, name: string, cs: bool)
    requires Distinct(ms, cs)
    ensures FindMember(ms, name, cs).Some? <==> Key(name, cs) in MembersMeaning(ms, cs)
    ensures FindMember(ms, name, cs).Some? ==>
              Meaning(ms[FindMember(ms, name, cs).value].value, cs) == MembersMeaning(ms, cs)[Key(name, cs)]
  {
    MeaningKeys(ms, cs, Key(name, cs));
    match FindMember(ms, name, cs)
    case None =>
    case Some(i) => MeaningAt(ms, cs, i);
  }

  // Two member lists with the same members, in any order, mean the same.
  lemma {:induction false} MeaningOfPermutation(a: seq<Member>, b: seq<Member>, cs: bool)
    requires Distinct(a, cs) && multiset(a) == multiset(b)
    ensures Distinct(b, cs)
    ensures MembersMeaning(a, cs) == MembersMeaning(b, cs)
    ensures TidyMembers(a, cs) ==> TidyMembers(b, cs)
  {
    PermutationKeepsDistinct(a, b, cs);
    forall m
      ensures m in a <==> m in b
    {
      assert m in multiset(a) <==> m in multiset(b);
    }
    MeaningOfSubset(a, b, cs);
    MeaningOfSubset(b, a, cs);
    assert MembersMeaning(a, cs).Keys == MembersMeaning(b, cs).Keys;
    if TidyMembers(a, cs) {
      forall j | 0 <= j < |b|
        ensures Tidy(b[j].value, cs)
      {
        assert b[j] in a;
      }
    }
  }

  lemma {:induction false} MeaningOfSubset(a: seq<Member>, b: seq<Member>, cs: bool)
    requires Distinct(a, cs) && Distinct(b, cs)
    requires forall m :: m in a ==> m in b
    ensures forall k :: k in MembersMeaning(a, cs) ==>
              k in MembersMeaning(b, cs) && MembersMeaning(a, cs)[k] == MembersMeaning(b, cs)[k]
  {
    forall k | k in MembersMeaning(a, cs)
      ensures k in MembersMeaning(b, cs) && MembersMeaning(a, cs)[k] == MembersMeaning(b, cs)[k]
    {
      MeaningKeys(a, cs, k);
      var i :| 0 <= i < |a| && Key(a[i].key, cs) == k;
      assert a[i] in b;
      var j :| 0 <= j < |b| && b[j] == a[i];
      MeaningAt(a, cs, i);
      MeaningAt(b, cs, j);
    }
  }

  ghost function KeySet(ms: seq<Member>, cs: bool): set<string> {
    set i | 0 <= i < |ms| :: Key(ms[i].key, cs)
  }

  lemma {:induction false} KeySetSnoc(ms: seq<Member>, cs: bool)
    requires ms != []
    ensures KeySet(ms, cs) == KeySet(ms[..|ms| - 1], cs) + {Key(ms[|ms| - 1].key, cs)}
  {
  }

  lemma {:induction false} DistinctByCount(ms: seq<Member>, cs: bool)
    ensures |KeySet(ms, cs)| <= |ms|
    ensures Distinct(ms, cs) <==> |KeySet(ms, cs)| == |ms|
  {
    if ms != [] {
      var init := ms[..|ms| - 1];
      DistinctByCount(init, cs);
      KeySetSnoc(ms, cs);
      DistinctSnoc(ms, cs);
      SizeWithOne(KeySet(init, cs), Key(ms[|ms| - 1].key, cs));
    }
  }

  lemma {:induction false} DistinctSnoc(ms: seq<Member>, cs: bool)
    requires ms != []
    ensures var init := ms[..|ms| - 1];
            Distinct(ms, cs) <==> Distinct(init, cs) && Key(ms[|ms| - 1].key, cs) !in KeySet(init, cs)
  {
  }

  lemma {:induction false} SizeWithOne<T>(s: set<T>, x: T)
    ensures |s + {x}| == |s| + if x in s then 0 else 1
  {
    if x in s {
      assert s + {x} == s;
    }
  }

  lemma {:induction false} PermutationKeepsDistinct(a: seq<Member>, b: seq<Member>, cs: bool)
    requires Distinct(a, cs) && multiset(a) == multiset(b)
    ensures Distinct(b, cs)
  {
    DistinctByCount(a, cs);
    DistinctByCount(b, cs);
    assert |multiset(a)| == |a| && |multiset(b)| == |b|;
    forall k
      ensures k in KeySet(a, cs) <==> k in KeySet(b, cs)
    {
      if k in KeySet(a, cs) {
        var i :| 0 <= i < |a| && Key(a[i].key, cs) == k;
        assert a[i] in multiset(b);
        var j :| 0 <= j < |b| && b[j] == a[i];
      }
      if k in KeySet(b, cs) {
        var j :| 0 <= j < |b| && Key(b[j].key, cs) == k;
        assert b[j] in multiset(a);
        var i :| 0 <= i < |a| && a[i] == b[j];
      }
    }
    assert KeySet(a, cs) == KeySet(b, cs);
  }
}
