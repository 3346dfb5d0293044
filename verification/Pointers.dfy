/**
  JSON Pointer (RFC 6901): comparing tokens, reading indices, and following a pointer.
 */
module Pointers {
  import opened CStrings
  import opened Json

  // size_t
  const SIZE_LIMIT: nat := 0x1_0000_0000_0000_0000

  type Position = seq<nat>

  function Wrap(n: nat): nat {
    n % SIZE_LIMIT
  }

  lemma {:induction false} WrapsAt64Bits(n: nat)
    ensures n < 0x1_0000_0000_0000_0000 ==> Wrap(n) == n
    ensures Wrap(n + 0x1_0000_0000_0000_0000) == Wrap(n)
  {
  }

  // Reading a C string at an index no further than its terminator.
  function CharAt(s: string, i: nat): char {
    if i < |s| then s[i] else NUL
  }

  // ----- Tokens

  function TokenLength(p: string): (n: nat)
    ensures n <= |p|
    ensures '/' !in p[..n]
    ensures n < |p| ==> p[n] == '/'
  {
    if p == "" || p[0] == '/' then 0 else 1 + TokenLength(p[1..])
  }

  function FirstToken(p: string): string {
    p[..TokenLength(p)]
  }

  // Section 4 of RFC 6901: "~1" stands for '/', "~0" for '~', nothing else may follow '~'.
  function Unescape(token: string): Option<string> {
    if token == "" then Some("")
    else if token[0] == '~' then
      if CharAt(token, 1) == '0' then Prepend('~', Unescape(token[2..]))
      else if CharAt(token, 1) == '1' then Prepend('/', Unescape(token[2..]))
      else None
    else Prepend(token[0], Unescape(token[1..]))
  }

  function Prepend(c: char, s: Option<string>): Option<string> {
    match s
    case None => None
    case Some(t) => Some([c] + t)
  }

  // The first token of a pointer names a key.
  predicate Names(key: string, pointer: string, cs: bool) {
    var u := Unescape(FirstToken(pointer));
    u.Some? && Key(u.value, cs) == Key(key, cs)
  }

  lemma {:induction false} TokenStep(p: string, n: nat)
    requires n <= TokenLength(p)
    ensures TokenLength(p) == n + TokenLength(p[n..])
    ensures FirstToken(p) == p[..n] + FirstToken(p[n..])
  {
  }

  lemma {:induction false} TokenLengthIs(p: string, n: nat)
    requires n <= |p| && '/' !in p[..n] && (n < |p| ==> p[n] == '/')
    ensures TokenLength(p) == n
  {
  }

  lemma {:induction false} KeyCons(c: char, s: string, key: string, cs: bool)
    requires key != ""
    ensures Key([c] + s, cs) == Key(key, cs) <==>
            KeyChar(c, cs) == KeyChar(key[0], cs) && Key(s, cs) == Key(key[1..], cs)
  {
    KeyUncons([c] + s, cs);
    KeyUncons(key, cs);
    assert ([c] + s)[1..] == s;
  }

  lemma {:induction false} KeyUncons(s: string, cs: bool)
    requires s != ""
    ensures Key(s, cs)[0] == KeyChar(s[0], cs) && Key(s, cs)[1..] == Key(s[1..], cs)
    ensures Key(s, cs) == [KeyChar(s[0], cs)] + Key(s[1..], cs)
  {
  }

  // One round of the comparison loop.
  lemma {:induction false} NamesStep(key: string, p: string, cs: bool)
    requires key != "" && p != "" && p[0] != '/'
    ensures p[0] != '~' ==>
              (Names(key, p, cs) <==> KeyChar(p[0], cs) == KeyChar(key[0], cs) && Names(key[1..], p[1..], cs))
    ensures p[0] == '~' && CharAt(p, 1) == '0' ==> (Names(key, p, cs) <==> key[0] == '~' && Names(key[1..], p[2..], cs))
    ensures p[0] == '~' && CharAt(p, 1) == '1' ==> (Names(key, p, cs) <==> key[0] == '/' && Names(key[1..], p[2..], cs))
    ensures p[0] == '~' && CharAt(p, 1) != '0' && CharAt(p, 1) != '1' ==> !Names(key, p, cs)
  {
    var t := FirstToken(p);
    var n := if p[0] != '~' then 1 else 2;
    if n == 1 || CharAt(p, 1) == '0' || CharAt(p, 1) == '1' {
      if n == 2 {
        assert TokenLength(p[1..]) == 1 + TokenLength(p[1..][1..]);
      }
      TokenStep(p, n);
      assert t == p[..n] + FirstToken(p[n..]);
      assert t[n..] == FirstToken(p[n..]);
      var u := Unescape(FirstToken(p[n..]));
      if u.Some? {
        KeyCons(if n == 1 then p[0] else if p[1] == '0' then '~' else '/', u.value, key, cs);
      }
    } else {
      assert CharAt(t, 1) == CharAt(p, 1) || CharAt(t, 1) == NUL;
    }
  }

  // compare_pointers: name against the next token of pointer.
  method ComparePointers(name: string, pointer: string, cs: bool) returns (same: bool)
    ensures same == Names(name, pointer, cs)
  {
    var i, j := 0, 0;
    while i < |name| && j < |pointer| && pointer[j] != '/'
      invariant 0 <= i <= |name| && 0 <= j <= |pointer|
      invariant Names(name, pointer, cs) == Names(name[i..], pointer[j..], cs)
    {
      NamesStep(name[i..], pointer[j..], cs);
      assert name[i..][1..] == name[i + 1..] && pointer[j..][1..] == pointer[j + 1..];
      if pointer[j] == '~' {
        var escaped := CharAt(pointer, j + 1);
        assert escaped == CharAt(pointer[j..], 1);
        if (escaped != '0' || name[i] != '~') && (escaped != '1' || name[i] != '/') {
          return false;
        }
        assert pointer[j..][2..] == pointer[j + 2..];
        j := j + 1;
      } else if KeyChar(name[i], cs) != KeyChar(pointer[j], cs) {
        return false;
      }
      i, j := i + 1, j + 1;
    }
    assert i == |name| && j < |pointer| && pointer[j] != '/' ==> FirstToken(pointer[j..]) != "";
    UnescapeEmpty(FirstToken(pointer[j..]));
    same := !((j < |pointer| && pointer[j] != '/') != (i < |name|));
  }

  lemma {:induction false} UnescapeEmpty(token: string)
    ensures Unescape(token) == Some("") <==> token == ""
  {
  }

  // ----- Array indices

  function Digit(d: nat): char
    requires d < 10
  {
    (d + '0' as int) as char
  }

  // What "%lu" prints.
  function Decimal(n: nat): (s: string)
    ensures s != "" && forall i :: 0 <= i < |s| ==> '0' <= s[i] <= '9'
    ensures n > 0 ==> s[0] != '0'
  {
    if n < 10 then [Digit(n)] else Decimal(n / 10) + [Digit(n % 10)]
  }

  function NumberOf(digits: string): nat
    requires forall i :: 0 <= i < |digits| ==> digits[i] >= '0'
  {
    if digits == "" then 0
    else 10 * NumberOf(digits[..|digits| - 1]) + (digits[|digits| - 1] as int - '0' as int)
  }

  lemma {:induction false} NumberOfDecimal(n: nat)
    ensures NumberOf(Decimal(n)) == n
  {
    if n >= 10 {
      NumberOfDecimal(n / 10);
      var d := Decimal(n / 10);
      assert Decimal(n)[..|d|] == d;
    }
  }

  // The digit loop looks at the first character where it should look at the current one.
  function IndexRun(p: string, position: nat, index: nat): (r: (nat, nat))
    requires position <= |p|
    ensures position <= r.0 <= |p|
    decreases |p| - position
  {
    if position < |p| && p[position] >= '0' && p[0] <= '9' then
      IndexRun(p, position + 1, Wrap(10 * index + (p[position] as int - '0' as int)))
    else (position, index)
  }

  // decode_array_index_from_pointer
  function DecodedIndex(p: string): Option<nat> {
    if CharAt(p, 0) == '0' && CharAt(p, 1) != NUL && CharAt(p, 1) != '/' then None
    else
      var (position, index) := IndexRun(p, 0, 0);
      if CharAt(p, position) != NUL && CharAt(p, position) != '/' then None else Some(index)
  }

  method DecodeArrayIndex(pointer: string) returns (index: Option<nat>)
    ensures index == DecodedIndex(pointer)
  {
    if CharAt(pointer, 0) == '0' && CharAt(pointer, 1) != NUL && CharAt(pointer, 1) != '/' {
      return None;
    }
    var parsed: nat, position := 0, 0;
    while position < |pointer| && pointer[position] >= '0' && pointer[0] <= '9'
      invariant 0 <= position <= |pointer|
      invariant IndexRun(pointer, 0, 0) == IndexRun(pointer, position, parsed)
    {
      parsed := Wrap(10 * parsed + (pointer[position] as int - '0' as int));
      position := position + 1;
    }
    if CharAt(pointer, position) != NUL && CharAt(pointer, position) != '/' {
      return None;
    }
    index := Some(parsed);
  }

  lemma {:induction false} IndexRunIs(p: string, position: nat, n: nat)
    requires position <= n <= |p| && (n > 0 ==> p[0] <= '9')
    requires forall i :: 0 <= i < n ==> p[i] >= '0'
    requires n < |p| ==> p[n] < '0' || p[0] > '9'
    ensures IndexRun(p, position, Wrap(NumberOf(p[..position]))) == (n, Wrap(NumberOf(p[..n])))
    decreases n - position
  {
    if position < n {
      var now, next := NumberOf(p[..position]), NumberOf(p[..position + 1]);
      var d := p[position] as int - '0' as int;
      assert p[..position + 1][..position] == p[..position];
      assert next == 10 * now + d;
      ModStep(now, d);
      IndexRunIs(p, position + 1, n);
    }
  }

  lemma {:induction false} ModStep(now: nat, d: nat)
    ensures Wrap(10 * Wrap(now) + d) == Wrap(10 * now + d)
  {
    var q := now / SIZE_LIMIT;
    assert now == q * SIZE_LIMIT + now % SIZE_LIMIT;
    assert 10 * now + d == 10 * (now % SIZE_LIMIT) + d + 10 * q * SIZE_LIMIT;
    ModAdd(10 * (now % SIZE_LIMIT) + d, 10 * q);
  }

  lemma {:induction false} ModAdd(x: nat, q: nat)
    ensures (x + q * SIZE_LIMIT) % SIZE_LIMIT == x % SIZE_LIMIT
  {
    if q > 0 {
      ModAdd(x, q - 1);
      assert x + q * SIZE_LIMIT == x + (q - 1) * SIZE_LIMIT + SIZE_LIMIT;
    }
  }

  // A canonical array index, as section 4 of RFC 6901 asks.
  ghost predicate CanonicalIndex(token: string) {
    && token != ""
    && (forall i :: 0 <= i < |token| ==> '0' <= token[i] <= '9')
    && (token[0] == '0' ==> |token| == 1)
  }

  // Exactly which tokens are taken for indices: the canonical ones, and by
  // mistake the empty one and those that only start with a digit.
  lemma {:induction false} IndexAcceptance(p: string)
    requires NulFree(p)
    ensures var t := FirstToken(p);
            && (DecodedIndex(p).Some? <==> t == "" || CanonicalIndex(t) || ('1' <= t[0] <= '9' && Digitlike(t)))
            && (DecodedIndex(p).Some? ==> Digitlike(t) && DecodedIndex(p).value == Wrap(NumberOf(t)))
  {
    var n := IndexRun(p, 0, 0).0;
    if p != "" && p[0] <= '9' {
      RunEnd(p, 0, 0);
      IndexRunIs(p, 0, n);
      assert p[..0] == "";
      RunIsToken(p, n);
    }
  }

  ghost predicate Digitlike(t: string) {
    forall i :: 0 <= i < |t| ==> t[i] >= '0'
  }

  // The digit run is the whole token, or a character below '0' cuts it short.
  lemma {:induction false} RunIsToken(p: string, n: nat)
    requires NulFree(p) && n <= |p| && Digitlike(p[..n])
    requires n < |p| ==> p[n] < '0'
    ensures n <= TokenLength(p)
    ensures CharAt(p, n) == NUL || CharAt(p, n) == '/' <==> n == TokenLength(p)
    ensures n == TokenLength(p) <==> Digitlike(FirstToken(p))
    ensures n == TokenLength(p) ==> FirstToken(p) == p[..n]
  {
  }

  lemma {:induction false} RunEnd(p: string, position: nat, index: nat)
    requires position <= |p|
    ensures var n := IndexRun(p, position, index).0;
            && (forall i :: position <= i < n ==> p[i] >= '0')
            && (n < |p| ==> p[n] < '0' || p[0] > '9')
    decreases |p| - position
  {
    if position < |p| && p[position] >= '0' && p[0] <= '9' {
      RunEnd(p, position + 1, Wrap(10 * index + (p[position] as int - '0' as int)));
    }
  }

  // Letters after a leading digit are read as digits.
  lemma {:induction false} IndexAcceptsLetters()
    ensures !CanonicalIndex("1a") && DecodedIndex("1a") == Some(59)
  {
    assert "1a"[1] == 'a';
    assert IndexRun("1a", 2, 59) == (2, 59);
    assert IndexRun("1a", 1, 1) == (2, 59);
  }

  lemma {:induction false} IndexRunOfDigits(d: string, rest: string)
    requires d != "" && forall i :: 0 <= i < |d| ==> '0' <= d[i] <= '9'
    requires rest == "" || rest[0] == '/'
    ensures IndexRun(d + rest, 0, 0) == (|d|, Wrap(NumberOf(d)))
  {
    var p := d + rest;
    forall i | 0 <= i < |d|
      ensures p[i] >= '0'
    {
      assert p[i] == d[i];
    }
    IndexRunIs(p, 0, |d|);
    assert p[..|d|] == d;
    assert NumberOf(p[..0]) == 0;
  }

  lemma {:induction false} IndexOfDecimal(n: nat, rest: string)
    requires n < SIZE_LIMIT && (rest == "" || rest[0] == '/')
    ensures DecodedIndex(Decimal(n) + rest) == Some(n)
  {
    NumberOfDecimal(n);
    if n == 0 {
      assert Decimal(n) == [Digit(0)];
    }
    IndexOfDigits(Decimal(n), rest);
  }

  lemma {:induction false} IndexOfDigits(d: string, rest: string)
    requires CanonicalIndex(d) && (rest == "" || rest[0] == '/')
    ensures DecodedIndex(d + rest) == Some(Wrap(NumberOf(d)))
  {
    var p := d + rest;
    IndexRunOfDigits(d, rest);
    assert p[0] == d[0];
    assert |d| < |p| ==> p[|d|] == rest[0];
    assert |d| == 1 || p[0] != '0';
  }

  // ----- Nodes and positions

  function ChildCount(v: Json): nat {
    match v
    case Array(items) => |items|
    case Object(members) => |members|
    case _ => 0
  }

  function Child(v: Json, i: nat): (c: Json)
    requires i < ChildCount(v)
    ensures c < v
  {
    match v
    case Array(items) => items[i]
    case Object(members) => members[i].value
  }

  ghost predicate Valid(v: Json, pos: Position) {
    pos == [] || (pos[0] < ChildCount(v) && Valid(Child(v, pos[0]), pos[1..]))
  }

  function At(v: Json, pos: Position): Json
    requires Valid(v, pos)
  {
    if pos == [] then v else At(Child(v, pos[0]), pos[1..])
  }

  function WithChild(v: Json, i: nat, x: Json): Json
    requires i < ChildCount(v)
  {
    match v
    case Array(items) => Array(items[i := x])
    case Object(members) => Object(members[i := Member(members[i].key, x)])
  }

  // The item with the node at a position replaced.
  function Put(v: Json, pos: Position, x: Json): Json
    requires Valid(v, pos)
  {
    if pos == [] then x else WithChild(v, pos[0], Put(Child(v, pos[0]), pos[1..], x))
  }

  // ----- Following a pointer

  // The first child that the next token names.
  function FindNamed(ms: seq<Member>, pointer: string, cs: bool): (r: Option<nat>)
    ensures r.Some? ==> r.value < |ms| && Names(ms[r.value].key, pointer, cs)
    ensures r.Some? ==> forall i :: 0 <= i < r.value ==> !Names(ms[i].key, pointer, cs)
    ensures r.None? ==> forall i :: 0 <= i < |ms| ==> !Names(ms[i].key, pointer, cs)
  {
    if ms == [] then None
    else if Names(ms[0].key, pointer, cs) then Some(0)
    else match FindNamed(ms[1..], pointer, cs)
         case None => None
         case Some(i) => Some(i + 1)
  }

  function Step(i: nat, rest: Option<Position>): Option<Position> {
    match rest
    case None => None
    case Some(pos) => Some([i] + pos)
  }

  // get_item_from_pointer. After an array step the token is not skipped, so
  // what follows it is not looked at.
  function Resolve(v: Json, pointer: string, cs: bool): (r: Option<Position>)
    ensures r.Some? ==> Valid(v, r.value)
    decreases |pointer|
  {
    if CharAt(pointer, 0) != '/' then Some([])
    else
      var p := pointer[1..];
      match v
      case Array(items) =>
        (match DecodedIndex(p)
         case None => None
         case Some(i) => if i < |items| then Step(i, Resolve(items[i], p, cs)) else None)
      case Object(members) =>
        (match FindNamed(members, p, cs)
         case None => None
         case Some(i) => Step(i, Resolve(members[i].value, p[TokenLength(p)..], cs)))
      case _ => None
  }

  // The scan for a child whose key the next token names.
  method FindChild(members: seq<Member>, pointer: string, cs: bool) returns (i: nat)
    ensures i <= |members|
    ensures FindNamed(members, pointer, cs) == if i < |members| then Some(i) else None
  {
    i := 0;
    while i < |members|
      invariant i <= |members|
      invariant forall j :: 0 <= j < i ==> !Names(members[j].key, pointer, cs)
    {
      var same := ComparePointers(members[i].key, pointer, cs);
      if same {
        break;
      }
      i := i + 1;
    }
    FindNamedIs(members, pointer, cs, i);
  }

  method SkipToken(pointer: string) returns (p: string)
    ensures p == pointer[TokenLength(pointer)..]
  {
    p := pointer;
    while p != "" && p[0] != '/'
      invariant pointer[TokenLength(pointer)..] == p[TokenLength(p)..]
      decreases |p|
    {
      p := p[1..];
    }
  }

  method GetItemFromPointer(root: Json, pointer: string, cs: bool) returns (found: Option<Position>)
    ensures found == Resolve(root, pointer, cs)
  {
    var current: Option<Json>, pos: Position, p := Some(root), [], pointer;
    BelowNothing(Resolve(root, pointer, cs));
    while CharAt(p, 0) == '/' && current.Some?
      invariant current.Some? ==> Resolve(root, pointer, cs) == Below(pos, Resolve(current.value, p, cs))
      invariant current.None? ==> Resolve(root, pointer, cs) == None
      decreases |p|
    {
      p := p[1..];
      match current.value {
        case Array(items) =>
          var index := DecodeArrayIndex(p);
          if index.None? {
            return None;
          }
          if index.value < |items| {
            current, pos := Some(items[index.value]), pos + [index.value];
            BelowStep(pos, Resolve(items[index.value], p, cs));
          } else {
            current := None;
          }
        case Object(members) =>
          var i := FindChild(members, p, cs);
          p := SkipToken(p);
          if i < |members| {
            current, pos := Some(members[i].value), pos + [i];
            BelowStep(pos, Resolve(members[i].value, p, cs));
          } else {
            current := None;
          }
        case _ =>
          return None;
      }
    }
    assert pos + [] == pos;
    found := if current.None? then None else Some(pos);
  }

  ghost function Below(pos: Position, rest: Option<Position>): Option<Position> {
    match rest
    case None => None
    case Some(r) => Some(pos + r)
  }

  lemma {:induction false} BelowNothing(rest: Option<Position>)
    ensures Below([], rest) == rest
  {
    match rest
    case None =>
    case Some(r) => assert [] + r == r;
  }

  lemma {:induction false} BelowStep(pos: Position, rest: Option<Position>)
    requires pos != []
    ensures Below(pos, rest) == Below(pos[..|pos| - 1], Step(pos[|pos| - 1], rest))
  {
    match rest
    case None =>
    case Some(r) => assert pos + r == pos[..|pos| - 1] + ([pos[|pos| - 1]] + r);
  }

  lemma {:induction false} FindNamedIs(ms: seq<Member>, pointer: string, cs: bool, i: nat)
    requires i <= |ms|
    requires i < |ms| ==> Names(ms[i].key, pointer, cs)
    requires forall j :: 0 <= j < i ==> !Names(ms[j].key, pointer, cs)
    ensures FindNamed(ms, pointer, cs) == if i < |ms| then Some(i) else None
  {
  }
}
