/**
  The recursive-descent parser: what parse_value and its companions read at an
  offset of a NUL-terminated input, and the parser as it runs, on a buffer with
  an offset and a nesting depth. On failure neither is restored.
 */
module Parser {
  import opened CStrings
  import opened Json
  import opened JsonText
  import opened ParseString

  const NESTING_LIMIT: nat := 1000

  // Number texts are copied to a buffer of 64 characters before they are read.
  const NUMBER_BUFFER: nat := 63

  datatype Parsed = Failed | Parsed(value: Json, end: nat)
  datatype ParsedItems = NoItems | ParsedItems(items: seq<Json>, end: nat)
  datatype ParsedMember = NoMember | ParsedMember(member: Member, end: nat)
  datatype ParsedMembers = NoMembers | ParsedMembers(members: seq<Member>, end: nat)

  // buffer_skip_whitespace: past everything up to the space character, but never
  // past the end of the input.
  function SkipWhitespace(s: string, o: nat): (r: nat)
    requires EndsInNul(s) && o < |s|
    ensures o <= r < |s|
    ensures r < |s| - 1 ==> s[r] > ' '
    ensures s[o] > ' ' ==> r == o
    decreases |s| - o
  {
    if s[o] > ' ' then o else if o + 1 == |s| then o else SkipWhitespace(s, o + 1)
  }

  predicate Matches(s: string, o: nat, word: string) {
    o + |word| <= |s| && forall i :: 0 <= i < |word| ==> s[o + i] == word[i]
  }

  function NumberRun(s: string, o: nat): (n: nat)
    requires o <= |s|
    ensures o + n <= |s|
    ensures forall i :: o <= i < o + n ==> IsNumberChar(s[i])
    ensures o + n < |s| ==> !IsNumberChar(s[o + n])
    decreases |s| - o
  {
    if o == |s| || !IsNumberChar(s[o]) then 0 else 1 + NumberRun(s, o + 1)
  }

  // The part of the run that is copied.
  function NumberCopy(s: string, o: nat, limit: nat): string
    requires o <= |s|
  {
    var n := NumberRun(s, o);
    s[o..o + if n < limit then n else limit]
  }

  function ParsedNumber(s: string, o: nat): (r: Parsed)
    requires EndsInNul(s) && o < |s|
    ensures r.Parsed? ==> o < r.end < |s|
  {
    var run := NumberCopy(s, o, NUMBER_BUFFER);
    var n := NumberLength(run);
    if n == 0 then Failed
    else
      assert n > 0 ==> IsNumberChar(s[o + n - 1]);
      Parsed(Number(run[..n]), o + n)
  }

  // parse_value. On success the offset has advanced and is still inside the input.
  function ParsedValue(s: string, o: nat, depth: nat): (r: Parsed)
    requires EndsInNul(s) && o < |s|
    ensures r.Parsed? ==> o < r.end < |s|
    decreases |s| - o, 2
  {
    if Matches(s, o, "null") then WordEnds(s, o, "null"); Parsed(Null, o + 4)
    else if Matches(s, o, "false") then WordEnds(s, o, "false"); Parsed(False, o + 5)
    else if Matches(s, o, "true") then WordEnds(s, o, "true"); Parsed(True, o + 4)
    else if s[o] == '"' then
      match StringAt(s, o)
      case NoText => Failed
      case ParsedText(text, end) => Parsed(String(text), end)
    else if s[o] == '-' || IsDigit(s[o]) then ParsedNumber(s, o)
    else if s[o] == '[' then ParsedArray(s, o, depth)
    else if s[o] == '{' then ParsedObject(s, o, depth)
    else Failed
  }

  lemma {:induction false} WordEnds(s: string, o: nat, word: string)
    requires EndsInNul(s) && Matches(s, o, word) && word != "" && NulFree(word)
    ensures o + |word| < |s|
  {
    assert s[o + |word| - 1] == word[|word| - 1];
  }

  function ParsedArray(s: string, o: nat, depth: nat): (r: Parsed)
    requires EndsInNul(s) && o < |s| && s[o] == '['
    ensures r.Parsed? ==> o < r.end < |s|
    decreases |s| - o, 1
  {
    if depth >= NESTING_LIMIT then Failed
    else
      var x := SkipWhitespace(s, o + 1);
      if s[x] == ']' then Parsed(Array([]), x + 1)
      else
        match ParsedElements(s, x - 1, depth + 1)
        case NoItems => Failed
        case ParsedItems(items, end) => Parsed(Array(items), end)
  }

  // The elements behind the bracket or comma at o (or the blank in front of them).
  function ParsedElements(s: string, o: nat, depth: nat): (r: ParsedItems)
    requires EndsInNul(s) && o + 1 < |s|
    ensures r.ParsedItems? ==> o < r.end < |s|
    decreases |s| - o, 0
  {
    match ParsedValue(s, SkipWhitespace(s, o + 1), depth)
    case Failed => NoItems
    case Parsed(value, end) =>
      var x := SkipWhitespace(s, end);
      if s[x] == ',' then
        match ParsedElements(s, x, depth)
        case NoItems => NoItems
        case ParsedItems(items, end) => ParsedItems([value] + items, end)
      else if s[x] == ']' then ParsedItems([value], x + 1)
      else NoItems
  }

  function ParsedObject(s: string, o: nat, depth: nat): (r: Parsed)
    requires EndsInNul(s) && o < |s| && s[o] == '{'
    ensures r.Parsed? ==> o < r.end < |s|
    decreases |s| - o, 1
  {
    if depth >= NESTING_LIMIT then Failed
    else
      var x := SkipWhitespace(s, o + 1);
      if s[x] == '}' then Parsed(Object([]), x + 1)
      else
        match ParsedMembersFrom(s, x - 1, depth + 1)
        case NoMembers => Failed
        case ParsedMembers(members, end) => Parsed(Object(members), end)
  }

  function ParsedMembersFrom(s: string, o: nat, depth: nat): (r: ParsedMembers)
    requires EndsInNul(s) && o + 1 < |s|
    ensures r.ParsedMembers? ==> o < r.end < |s|
    decreases |s| - o, 0
  {
    match ParsedMemberFrom(s, SkipWhitespace(s, o + 1), depth)
    case NoMember => NoMembers
    case ParsedMember(member, end) =>
      var x := SkipWhitespace(s, end);
      if s[x] == ',' then
        match ParsedMembersFrom(s, x, depth)
        case NoMembers => NoMembers
        case ParsedMembers(members, end) => ParsedMembers([member] + members, end)
      else if s[x] == '}' then ParsedMembers([member], x + 1)
      else NoMembers
  }

  function ParsedMemberFrom(s: string, o: nat, depth: nat): (r: ParsedMember)
    requires EndsInNul(s) && o < |s|
    ensures r.ParsedMember? ==> o < r.end < |s|
    decreases |s| - o, 2
  {
    match StringAt(s, o)
    case NoText => NoMember
    case ParsedText(key, end) =>
      var colon := SkipWhitespace(s, end);
      if s[colon] != ':' then NoMember
      else
        match ParsedValue(s, SkipWhitespace(s, colon + 1), depth)
        case Failed => NoMember
        case Parsed(value, end) => ParsedMember(Member(key, value), end)
  }

  // cJSON_ParseWithOpts on a C string.
  function ParsedDocument(text: string, requireNullTerminated: bool): Option<Json> {
    var s := text + [NUL];
    match ParsedValue(s, SkipWhitespace(s, 0), 0)
    case Failed => None
    case Parsed(value, end) =>
      if requireNullTerminated && s[SkipWhitespace(s, end)] != NUL then None else Some(value)
  }

  // ----- The parser as it runs

  class ParseBuffer {
    const content: string
    var offset: nat
    var depth: nat

    // The offset always points into the input.
    ghost predicate Valid()
      reads this
    {
      EndsInNul(content) && offset < |content|
    }

    constructor (text: string)
      ensures Valid() && content == text + [NUL] && offset == 0 && depth == 0
    {
      content := text + [NUL];
      offset, depth := 0, 0;
    }

    // The one step that may leave the input and come back.
    method SkipBlanks()
      requires Valid()
      modifies this`offset
      ensures Valid() && offset == SkipWhitespace(content, old(offset))
    {
      while offset < |content| && content[offset] <= ' '
        invariant old(offset) <= offset <= |content|
        invariant offset < |content| ==> SkipWhitespace(content, old(offset)) == SkipWhitespace(content, offset)
        invariant offset == |content| ==> SkipWhitespace(content, old(offset)) == |content| - 1
        decreases |content| - offset
      {
        offset := offset + 1;
      }
      if offset == |content| {
        offset := offset - 1;
      }
    }

    method ParseNumber() returns (value: Option<Json>)
      requires Valid()
      modifies this`offset
      ensures Valid()
      ensures value.Some? <==> ParsedNumber(content, old(offset)).Parsed?
      ensures value.Some? ==> Parsed(value.value, offset) == ParsedNumber(content, old(offset))
    {
      var digits := CopyNumber(content, offset, NUMBER_BUFFER);
      var n := NumberLength(digits);
      if n == 0 {
        return None;
      }
      offset := offset + n;
      value := Some(Number(digits[..n]));
    }

    method ParseString() returns (text: Option<string>)
      requires Valid()
      modifies this`offset
      ensures text.Some? <==> StringAt(content, old(offset)).ParsedText?
      ensures text.Some? ==> ParsedText(text.value, offset) == StringAt(content, old(offset)) && Valid()
    {
      text, offset := ReadString(content, offset);
    }

    method ParseValue() returns (value: Option<Json>)
      requires Valid()
      modifies this
      ensures value.Some? <==> ParsedValue(content, old(offset), old(depth)).Parsed?
      ensures value.Some? ==> Parsed(value.value, offset) == ParsedValue(content, old(offset), old(depth))
      ensures value.Some? ==> Valid() && depth == old(depth)
      decreases |content| - offset, 2
    {
      if Matches(content, offset, "null") {
        WordEnds(content, offset, "null");
        offset := offset + 4;
        return Some(Null);
      }
      if Matches(content, offset, "false") {
        WordEnds(content, offset, "false");
        offset := offset + 5;
        return Some(False);
      }
      if Matches(content, offset, "true") {
        WordEnds(content, offset, "true");
        offset := offset + 4;
        return Some(True);
      }
      if content[offset] == '"' {
        var text := ParseString();
        value := if text.Some? then Some(String(text.value)) else None;
      } else if content[offset] == '-' || IsDigit(content[offset]) {
        value := ParseNumber();
      } else if content[offset] == '[' {
        value := ParseArray();
      } else if content[offset] == '{' {
        value := ParseObject();
      } else {
        value := None;
      }
    }

    method ParseArray() returns (value: Option<Json>)
      requires Valid() && content[offset] == '['
      modifies this
      ensures value.Some? <==> ParsedArray(content, old(offset), old(depth)).Parsed?
      ensures value.Some? ==> Parsed(value.value, offset) == ParsedArray(content, old(offset), old(depth))
      ensures value.Some? ==> Valid() && depth == old(depth)
      decreases |content| - offset, 1
    {
      hide SkipWhitespace, ParsedElements, ParsedValue, StringAt;
      if depth >= NESTING_LIMIT {
        return None;
      }
      depth := depth + 1;
      offset := offset + 1;
      SkipBlanks();
      if content[offset] == ']' {
        depth := depth - 1;
        offset := offset + 1;
        return Some(Array([]));
      }
      offset := offset - 1;
      var items := ParseElements();
      if items.None? {
        return None;
      }
      depth := depth - 1;
      offset := offset + 1;
      value := Some(Array(items.value));
    }

    // Past the bracket or comma, the next element, and the blanks behind it.
    method NextElement() returns (value: Option<Json>)
      requires Valid() && offset + 1 < |content|
      modifies this
      ensures var r := ParsedValue(content, SkipWhitespace(content, old(offset) + 1), old(depth));
              && (value.Some? <==> r.Parsed?)
              && (value.Some? ==> value.value == r.value && offset == SkipWhitespace(content, r.end))
      ensures value.Some? ==> Valid() && depth == old(depth) && offset > old(offset)
      decreases |content| - offset, 0, 0
    {
      hide StringAt, ParsedValue, SkipWhitespace;
      offset := offset + 1;
      SkipBlanks();
      value := ParseValue();
      if value.Some? {
        SkipBlanks();
      }
    }

    // The loop over the elements; it ends at the closing bracket.
    method ParseElements() returns (items: Option<seq<Json>>)
      requires Valid() && offset + 1 < |content|
      modifies this
      ensures items.Some? <==> ParsedElements(content, old(offset), old(depth)).ParsedItems?
      ensures items.Some? ==> ParsedItems(items.value, offset + 1) == ParsedElements(content, old(offset), old(depth))
      ensures items.Some? ==> Valid() && depth == old(depth)
      decreases |content| - offset, 0, 1
    {
      hide SkipWhitespace, ParsedValue, StringAt;
      ghost var all := ParsedElements(content, offset, depth);
      var list: seq<Json> := [];
      AfterNothing(all);
      while true
        invariant Valid() && offset + 1 < |content| && depth == old(depth) && offset >= old(offset)
        invariant all == After(list, ParsedElements(content, offset, depth))
        decreases |content| - offset
      {
        var value := NextElement();
        if value.None? {
          return None;
        }
        if content[offset] != ',' {
          if content[offset] != ']' {
            return None;
          }
          return Some(list + [value.value]);
        }
        AfterStep(list, value.value, ParsedElements(content, offset, depth));
        list := list + [value.value];
      }
    }

    method ParseObject() returns (value: Option<Json>)
      requires Valid() && content[offset] == '{'
      modifies this
      ensures value.Some? <==> ParsedObject(content, old(offset), old(depth)).Parsed?
      ensures value.Some? ==> Parsed(value.value, offset) == ParsedObject(content, old(offset), old(depth))
      ensures value.Some? ==> Valid() && depth == old(depth)
      decreases |content| - offset, 1
    {
      hide SkipWhitespace, ParsedMembersFrom, ParsedValue, StringAt;
      if depth >= NESTING_LIMIT {
        return None;
      }
      depth := depth + 1;
      offset := offset + 1;
      SkipBlanks();
      if content[offset] == '}' {
        depth := depth - 1;
        offset := offset + 1;
        return Some(Object([]));
      }
      offset := offset - 1;
      var members := ParseMembers();
      if members.None? {
        return None;
      }
      depth := depth - 1;
      offset := offset + 1;
      value := Some(Object(members.value));
    }

    method NextMember() returns (member: Option<Member>)
      requires Valid() && offset + 1 < |content|
      modifies this
      ensures var r := ParsedMemberFrom(content, SkipWhitespace(content, old(offset) + 1), old(depth));
              && (member.Some? <==> r.ParsedMember?)
              && (member.Some? ==> member.value == r.member && offset == SkipWhitespace(content, r.end))
      ensures member.Some? ==> Valid() && depth == old(depth) && offset > old(offset)
      decreases |content| - offset, 0, 0
    {
      hide ParsedMemberFrom, StringAt, ParsedValue, SkipWhitespace;
      offset := offset + 1;
      SkipBlanks();
      member := ParseMember();
      if member.Some? {
        SkipBlanks();
      }
    }

    method ParseMembers() returns (members: Option<seq<Member>>)
      requires Valid() && offset + 1 < |content|
      modifies this
      ensures members.Some? <==> ParsedMembersFrom(content, old(offset), old(depth)).ParsedMembers?
      ensures members.Some? ==>
                ParsedMembers(members.value, offset + 1) == ParsedMembersFrom(content, old(offset), old(depth))
      ensures members.Some? ==> Valid() && depth == old(depth)
      decreases |content| - offset, 0, 1
    {
      hide SkipWhitespace, ParsedMemberFrom, ParsedValue, StringAt;
      ghost var all := ParsedMembersFrom(content, offset, depth);
      var list: seq<Member> := [];
      AfterNoMembers(all);
      while true
        invariant Valid() && offset + 1 < |content| && depth == old(depth) && offset >= old(offset)
        invariant all == AfterMembers(list, ParsedMembersFrom(content, offset, depth))
        decreases |content| - offset
      {
        var member := NextMember();
        if member.None? {
          return None;
        }
        if content[offset] != ',' {
          if content[offset] != '}' {
            return None;
          }
          return Some(list + [member.value]);
        }
        AfterMembersStep(list, member.value, ParsedMembersFrom(content, offset, depth));
        list := list + [member.value];
      }
    }

    // A key, a colon and a value.
    method ParseMember() returns (member: Option<Member>)
      requires Valid()
      modifies this
      ensures member.Some? <==> ParsedMemberFrom(content, old(offset), old(depth)).ParsedMember?
      ensures member.Some? ==> ParsedMember(member.value, offset) == ParsedMemberFrom(content, old(offset), old(depth))
      ensures member.Some? ==> Valid() && depth == old(depth)
      decreases |content| - offset, 2
    {
      hide SkipWhitespace, ParsedValue, StringAt;
      var key := ParseString();
      if key.None? {
        return None;
      }
      SkipBlanks();
      if content[offset] != ':' {
        return None;
      }
      offset := offset + 1;
      SkipBlanks();
      var value := ParseValue();
      if value.None? {
        return None;
      }
      member := Some(Member(key.value, value.value));
    }
  }

  // The copy of a number text, as long as the buffer allows.
  method CopyNumber(s: string, o: nat, limit: nat) returns (digits: string)
    requires o <= |s|
    ensures digits == NumberCopy(s, o, limit)
  {
    digits := "";
    var i := 0;
    while i < limit && o + i < |s| && IsNumberChar(s[o + i])
      invariant 0 <= i <= limit && o + i <= |s|
      invariant digits == s[o..o + i]
      invariant NumberRun(s, o) == i + NumberRun(s, o + i)
    {
      digits := digits + [s[o + i]];
      i := i + 1;
    }
  }

  ghost function After(list: seq<Json>, rest: ParsedItems): ParsedItems {
    match rest
    case NoItems => NoItems
    case ParsedItems(items, end) => ParsedItems(list + items, end)
  }

  lemma {:induction false} AfterNothing(rest: ParsedItems)
    ensures After([], rest) == rest
  {
  }

  lemma {:induction false} AfterStep(list: seq<Json>, value: Json, rest: ParsedItems)
    ensures After(list, After([value], rest)) == After(list + [value], rest)
  {
  }

  ghost function AfterMembers(list: seq<Member>, rest: ParsedMembers): ParsedMembers {
    match rest
    case NoMembers => NoMembers
    case ParsedMembers(members, end) => ParsedMembers(list + members, end)
  }

  lemma {:induction false} AfterNoMembers(rest: ParsedMembers)
    ensures AfterMembers([], rest) == rest
  {
  }

  lemma {:induction false} AfterMembersStep(list: seq<Member>, member: Member, rest: ParsedMembers)
    ensures AfterMembers(list, AfterMembers([member], rest)) == AfterMembers(list + [member], rest)
  {
  }

  // cJSON_ParseWithOpts. The end is where the parse stopped: behind the item, or at
  // the terminator if that is required, and on failure a place inside the input.
  method ParseWithOpts(text: string, requireNullTerminated: bool) returns (item: Option<Json>, end: nat)
    ensures item == ParsedDocument(text, requireNullTerminated)
    ensures end <= |text|
    ensures var s := text + [NUL];
            item.Some? ==>
              if requireNullTerminated then s[end] == NUL
              else ParsedValue(s, SkipWhitespace(s, 0), 0) == Parsed(item.value, end)
  {
    var buffer := new ParseBuffer(text);
    buffer.SkipBlanks();
    item := buffer.ParseValue();
    if item.Some? && requireNullTerminated {
      buffer.SkipBlanks();
      if buffer.content[buffer.offset] != NUL {
        item := None;
      }
    }
    end := if buffer.offset <= |text| then buffer.offset else |text|;
  }
}
