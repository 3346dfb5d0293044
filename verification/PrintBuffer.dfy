/**
  The printer as it runs: items are written into a buffer that grows on demand,
  or into a fixed one. Its offset is mostly advanced after the fact, by
  measuring what was written.
 */
module PrintBuffer {
  import opened CStrings
  import opened Json
  import opened JsonText

  const INT_MAX: nat := 0x7FFF_FFFF

  // Room that ensure asks for beyond the text: one spare character, except for a
  // number, and the terminator.
  function Slack(v: Json): nat {
    if v.Number? then 1 else 2
  }

  class PrintBuffer {
    var buffer: array<char>
    var length: nat  // what the buffer is taken to hold; it may be larger
    var offset: nat
    var depth: nat
    const noalloc: bool
    const format: bool
    ghost const beyond: string  // what is behind the length that a fixed buffer was given

    ghost predicate Valid()
      reads this, buffer
    {
      && length <= buffer.Length && length <= INT_MAX
      && (if length == 0 then offset == 0 else offset < length)
      && (noalloc ==> buffer[length..] == beyond)
    }

    // The most that the buffer can come to hold.
    ghost function Capacity(): nat
      reads this
    {
      if noalloc then length else INT_MAX
    }

    // The text before the offset.
    ghost function Done(): string
      requires Valid()
      reads this, buffer
    {
      buffer[..offset]
    }

    // After the text before, the buffer holds t and a NUL, within its length.
    ghost predicate Holds(before: string, t: string)
      reads this, buffer
    {
      && |before| + |t| < length <= buffer.Length
      && buffer[..|before| + |t|] == before + t
      && buffer[|before| + |t|] == NUL
    }

    constructor (buffer: array<char>, length: nat, noalloc: bool, format: bool)
      requires length <= buffer.Length && length <= INT_MAX
      ensures Valid() && this.buffer == buffer && this.length == length && offset == 0 && depth == 0
      ensures this.noalloc == noalloc && this.format == format && beyond == buffer[length..]
    {
      beyond := buffer[length..];
      this.buffer, this.length, this.noalloc, this.format := buffer, length, noalloc, format;
      offset, depth := 0, 0;
    }

    // ensure: room for needed more characters and one more, if that can be had.
    method Ensure(needed: nat) returns (ok: bool)
      requires Valid()
      modifies this`buffer, this`length
      ensures Valid() && Capacity() == old(Capacity())
      ensures ok <==> offset + needed + 1 <= Capacity()
      ensures ok ==> offset + needed + 1 <= length
      ensures ok ==> var total := offset + needed + 1;
                     length == if total <= old(length) then old(length)
                               else if 2 * total <= 0x7FFF_FFFF then 2 * total
                               else 0x7FFF_FFFF
      ensures Done() == old(Done())
      ensures buffer == old(buffer) || fresh(buffer)
      ensures noalloc ==> buffer == old(buffer) && length == old(length)
    {
      if length > 0 && offset >= length {
        return false;
      }
      if needed > INT_MAX {
        return false;
      }
      var total := needed + offset + 1;
      if total <= length {
        return true;
      }
      if noalloc {
        return false;
      }
      var newsize;
      if total > INT_MAX / 2 {
        if total <= INT_MAX {
          newsize := INT_MAX;
        } else {
          return false;
        }
      } else {
        newsize := total * 2;
      }
      var newbuffer := new char[newsize];
      forall i | 0 <= i < newsize && i < buffer.Length {
        newbuffer[i] := buffer[i];
      }
      length := newsize;
      buffer := newbuffer;
      ok := true;
    }

    // Stores a run of characters, as strcpy, memcpy or a few assignments do.
    method Store(at: nat, s: string)
      requires at + |s| <= buffer.Length
      modifies buffer
      ensures buffer[..at + |s|] == old(buffer[..at]) + s
      ensures buffer[at + |s|..] == old(buffer[at + |s|..])
    {
      for i := 0 to |s|
        invariant buffer[..at + i] == old(buffer[..at]) + s[..i]
        invariant buffer[at + i..] == old(buffer[at + i..])
      {
        buffer[at + i] := s[i];
      }
    }

    // The same, followed by a terminator.
    method StoreTerminated(at: nat, s: string)
      requires at + |s| < buffer.Length
      modifies buffer
      ensures buffer[..at + |s|] == old(buffer[..at]) + s
      ensures buffer[at + |s|] == NUL
      ensures forall i :: at + |s| < i < buffer.Length ==> buffer[i] == old(buffer[i])
    {
      Store(at, s + [NUL]);
      var end := at + |s|;
      forall i | end < i < buffer.Length
        ensures buffer[i] == old(buffer[i])
      {
        assert buffer[end + 1..][i - end - 1] == old(buffer[end + 1..])[i - end - 1];
      }
      assert buffer[..end + 1] == old(buffer[..at]) + (s + [NUL]);
      assert buffer[..end] == buffer[..end + 1][..end];
      assert buffer[end] == buffer[..end + 1][end];
    }

    // Text and terminator at the offset, which stays.
    method Emit(s: string)
      requires Valid() && offset + |s| + 1 <= length
      modifies buffer
      ensures Valid() && Holds(old(Done()), s)
    {
      StoreTerminated(offset, s);
    }

    // Text at the offset, without a terminator, and the offset behind it.
    method Advance(s: string)
      requires Valid() && offset + |s| < length
      modifies buffer, this`offset
      ensures Valid() && offset == old(offset) + |s| && Done() == old(Done()) + s
    {
      Store(offset, s);
      offset := offset + |s|;
    }

    // update_offset: strlen from the offset on. It lands behind the text t.
    method UpdateOffset(ghost before: string, ghost t: string)
      requires Valid() && Holds(before, t) && |before| <= offset <= |before| + |t| && NulFree(t)
      modifies this`offset
      ensures Valid() && offset == |before| + |t| && Done() == before + t
    {
      ghost var end := |before| + |t|;
      forall j | offset <= j < end
        ensures buffer[j] != NUL
      {
        assert buffer[..end][j] == t[j - |before|];
        assert t[j - |before|] in t;
      }
      var i := offset;
      while buffer[i] != NUL
        invariant offset <= i <= end
        decreases end - i
      {
        i := i + 1;
      }
      offset := i;
      assert buffer[..offset] == before + t;
    }

    // Text, terminator, and then the offset moved behind the text.
    method EmitAndAdvance(s: string)
      requires Valid() && offset + |s| + 1 <= length
      modifies buffer, this`offset
      ensures Valid() && offset == old(offset) + |s| && Done() == old(Done()) + s
    {
      Emit(s);
      offset := offset + |s|;
      assert buffer[..offset] == old(Done()) + s;
    }

    // The counting pass: additional characters needed for escaping.
    static method CountEscapes(s: string) returns (escapes: nat)
      ensures |Escaped(s)| == |s| + escapes
      ensures escapes == 0 ==> Escaped(s) == s
    {
      hide Escaped;
      escapes := 0;
      var i := 0;
      assert s[0..] == s && s[..0] == "" && "" + Escaped(s) == Escaped(s);
      EscapedNothing();
      while i < |s|
        invariant 0 <= i <= |s|
        invariant |Escaped(s)| == i + escapes + |Escaped(s[i..])|
        invariant escapes == 0 ==> Escaped(s) == s[..i] + Escaped(s[i..])
      {
        var c := s[i];
        EscapedStep(s, i);
        if c == '"' || c == '\\' || c == BACKSPACE || c == FORM_FEED || c == '\n' || c == '\r' || c == '\t' {
          escapes := escapes + 1;
        } else if c < ' ' {
          escapes := escapes + 5;
        } else {
          assert s[..i + 1] + Escaped(s[i + 1..]) == s[..i] + ([c] + Escaped(s[i + 1..]));
        }
        i := i + 1;
      }
      assert s[..|s|] + "" == s;
    }

    // print_string_ptr
    method PrintString(s: string) returns (ok: bool)
      requires Valid() && NulFree(s)
      modifies this`buffer, this`length, buffer
      ensures Valid() && Capacity() == old(Capacity()) && (buffer == old(buffer) || fresh(buffer))
      ensures ok <==> offset + |Quoted(s)| + 2 <= Capacity()
      ensures ok ==> Holds(old(Done()), Quoted(s))
      ensures noalloc ==> buffer == old(buffer) && length == old(length)
    {
      var escapes := CountEscapes(s);
      var outputLength := |s| + escapes;
      ok := Ensure(outputLength + 3);
      if ok {
        if escapes == 0 {
          Emit("\"" + s + "\"");
        } else {
          WriteEscaped(s, outputLength);
        }
      }
    }

    // The writing pass.
    method WriteEscaped(s: string, outputLength: nat)
      requires Valid() && outputLength == |Escaped(s)| && offset + outputLength + 4 <= length
      modifies buffer
      ensures Valid() && Holds(old(Done()), Quoted(s))
    {
      hide EscapedChar, Escaped;
      EscapedNothing();
      ghost var start := Done() + "\"";
      Store(offset, "\"");
      var at := offset + 1;
      var i := 0;
      assert s[0..] == s;
      while i < |s|
        invariant 0 <= i <= |s| && offset < at
        invariant at + |Escaped(s[i..])| == offset + 1 + outputLength
        invariant buffer[..at] + Escaped(s[i..]) == start + Escaped(s)
        invariant forall k :: length <= k < buffer.Length ==> buffer[k] == old(buffer[k])
      {
        ghost var soFar, e, rest := buffer[..at], EscapedChar(s[i]), Escaped(s[i + 1..]);
        EscapedStep(s, i);
        at := StoreEscape(at, s[i]);
        assert soFar + (e + rest) == (soFar + e) + rest;
        i := i + 1;
      }
      assert s[i..] == "" && buffer[..at] + "" == buffer[..at];
      StoreTerminated(offset + outputLength + 1, "\"");
      assert start + Escaped(s) + "\"" == old(Done()) + Quoted(s);
    }

    // Each escape is stored whole; a numeric one brings its own terminator, which
    // the next character overwrites.
    method StoreEscape(at: nat, c: char) returns (next: nat)
      requires at + |EscapedChar(c)| < buffer.Length
      modifies buffer
      ensures next == at + |EscapedChar(c)|
      ensures buffer[..next] == old(buffer[..at]) + EscapedChar(c)
      ensures forall i :: next < i < buffer.Length ==> buffer[i] == old(buffer[i])
    {
      var e := EscapedChar(c);
      if |e| == 6 {
        StoreTerminated(at, e);
      } else {
        Store(at, e);
        forall i | at + |e| < i < buffer.Length
          ensures buffer[i] == old(buffer[i])
        {
          assert buffer[at + |e|..][i - at - |e|] == old(buffer[at + |e|..])[i - at - |e|];
        }
      }
      next := at + |e|;
    }

    // print_value
    method PrintValue(item: Json) returns (ok: bool)
      requires Valid() && Terminated(item)
      modifies this, buffer
      ensures Valid() && Capacity() == old(Capacity()) && (buffer == old(buffer) || fresh(buffer))
      ensures noalloc ==> buffer == old(buffer) && length == old(length)
      ensures ok <==> Renderable(item) && old(offset) + |Text(item, format, old(depth))| + Slack(item) <= Capacity()
      ensures ok ==> Holds(old(Done()), Text(item, format, old(depth))) && depth == old(depth)
      ensures ok ==> old(offset) <= offset <= old(offset) + |Text(item, format, old(depth))|
      decreases item, 1
    {
      hide Holds, ItemsText, MembersText;
      match item {
        case Null => ok := PrintWord("null");
        case False => ok := PrintWord("false");
        case True => ok := PrintWord("true");
        case Number(lexeme) => ok := PrintNumber(lexeme);
        case String(text) => ok := PrintString(text);
        case Array(items) => ok := PrintArray(items);
        case Object(members) => ok := PrintObject(members);
        case Invalid => ok := false;
      }
    }

    method PrintWord(word: string) returns (ok: bool)
      requires Valid()
      modifies this`buffer, this`length, buffer
      ensures Valid() && Capacity() == old(Capacity()) && (buffer == old(buffer) || fresh(buffer))
      ensures noalloc ==> buffer == old(buffer) && length == old(length)
      ensures ok <==> offset + |word| + 2 <= Capacity()
      ensures ok ==> Holds(old(Done()), word)
    {
      ok := Ensure(|word| + 1);
      if ok {
        Emit(word);
      }
    }

    // print_number: the digits go through a buffer of 26 characters.
    method PrintNumber(lexeme: string) returns (ok: bool)
      requires Valid()
      modifies this`buffer, this`length, this`offset, buffer
      ensures Valid() && Capacity() == old(Capacity()) && (buffer == old(buffer) || fresh(buffer))
      ensures noalloc ==> buffer == old(buffer) && length == old(length)
      ensures ok <==> |lexeme| <= 25 && old(offset) + |lexeme| + 1 <= Capacity()
      ensures ok ==> Holds(old(Done()), lexeme) && offset == old(offset) + |lexeme|
    {
      if |lexeme| > MAX_LEXEME {
        return false;
      }
      ok := Ensure(|lexeme|);
      if ok {
        Emit(lexeme);
        offset := offset + |lexeme|;
      }
    }

    // A child, and the offset behind it.
    method PrintChild(item: Json) returns (ok: bool)
      requires Valid() && Terminated(item)
      modifies this, buffer
      ensures Valid() && Capacity() == old(Capacity()) && (buffer == old(buffer) || fresh(buffer))
      ensures noalloc ==> buffer == old(buffer) && length == old(length)
      ensures ok <==> Renderable(item) && old(offset) + |Text(item, format, old(depth))| + Slack(item) <= Capacity()
      ensures ok ==> Done() == old(Done()) + Text(item, format, old(depth)) && depth == old(depth)
      decreases item, 2
    {
      ghost var before, text := Done(), Text(item, format, depth);
      ok := PrintValue(item);
      if ok {
        TextNulFree(item, format, old(depth));
        UpdateOffset(before, text);
      }
    }

    // Room for a text, and the text with the offset behind it.
    method PrintPart(part: string, needed: nat) returns (ok: bool)
      requires Valid() && needed >= |part|
      modifies this`buffer, this`length, this`offset, buffer
      ensures Valid() && Capacity() == old(Capacity()) && (buffer == old(buffer) || fresh(buffer))
      ensures noalloc ==> buffer == old(buffer) && length == old(length)
      ensures ok <==> old(offset) + needed + 1 <= Capacity()
      ensures ok ==> Done() == old(Done()) + part
    {
      ok := Ensure(needed);
      if ok {
        Advance(part);
      }
    }

    // The same with a terminator.
    method PrintSeparator(separator: string) returns (ok: bool)
      requires Valid()
      modifies this`buffer, this`length, this`offset, buffer
      ensures Valid() && Capacity() == old(Capacity()) && (buffer == old(buffer) || fresh(buffer))
      ensures noalloc ==> buffer == old(buffer) && length == old(length)
      ensures ok <==> old(offset) + |separator| + 2 <= Capacity()
      ensures ok ==> Done() == old(Done()) + separator
    {
      ok := Ensure(|separator| + 1);
      if ok {
        EmitAndAdvance(separator);
      }
    }

    // The end of a container, which completes its text; the offset stays in front of it.
    method PrintEnd(end: string, ghost before: string, ghost text: string) returns (ok: bool)
      requires Valid() && Done() + end == before + text
      modifies this`buffer, this`length, buffer
      ensures Valid() && Capacity() == old(Capacity()) && (buffer == old(buffer) || fresh(buffer))
      ensures noalloc ==> buffer == old(buffer) && length == old(length)
      ensures ok <==> offset + |end| + 2 <= Capacity()
      ensures ok ==> Holds(before, text)
    {
      assert |before| + |text| == |Done() + end|;
      ok := Ensure(|end| + 1);
      if ok {
        Emit(end);
      }
    }

    // An element and the comma behind it, if there is one.
    method PrintElement(item: Json, last: bool) returns (ok: bool)
      requires Valid() && Terminated(item)
      modifies this, buffer
      ensures Valid() && Capacity() == old(Capacity()) && (buffer == old(buffer) || fresh(buffer))
      ensures noalloc ==> buffer == old(buffer) && length == old(length)
      ensures ok ==> Renderable(item) && depth == old(depth)
      ensures ok ==> Done() == old(Done()) + Element(item, last, format, old(depth))
      ensures !ok ==> !Renderable(item) || old(offset) + |Element(item, last, format, old(depth))| + 2 > Capacity()
      decreases item, 3
    {
      ok := PrintChild(item);
      if ok && !last {
        ok := PrintSeparator(Comma(format));
      }
    }

    // The loop over the elements of an array.
    method PrintElements(items: seq<Json>) returns (ok: bool)
      requires Valid() && Terminated(Array(items))
      modifies this, buffer
      ensures Valid() && Capacity() == old(Capacity()) && (buffer == old(buffer) || fresh(buffer))
      ensures noalloc ==> buffer == old(buffer) && length == old(length)
      ensures ok ==> Renderable(Array(items)) && depth == old(depth)
      ensures ok ==> Done() == old(Done()) + ItemsText(items, format, old(depth))
      ensures !ok ==> !Renderable(Array(items)) || old(offset) + |ItemsText(items, format, old(depth))| + 2 > Capacity()
      decreases items, 4
    {
      hide Slack, Text, ItemsText, Renderable, Terminated, Comma;
      ghost var goal := Done() + ItemsText(items, format, depth);
      NoItemsText(format, depth);
      ItemsOfArray(items);
      var i := 0;
      ok := true;
      while i < |items|
        invariant 0 <= i <= |items| && ok && depth == old(depth)
        invariant Valid() && Capacity() == old(Capacity()) && (buffer == old(buffer) || fresh(buffer))
        invariant noalloc ==> buffer == old(buffer) && length == old(length)
        invariant Done() + ItemsText(items[i..], format, depth) == goal
        invariant forall j :: 0 <= j < i ==> Renderable(items[j])
      {
        ghost var soFar, rest := Done(), ItemsText(items[i + 1..], format, depth);
        ItemsTextStep(items, i, format, depth);
        Regroup(soFar, Element(items[i], i + 1 == |items|, format, depth), rest);
        ok := PrintElement(items[i], i + 1 == |items|);
        if !ok {
          return;
        }
        i := i + 1;
      }
      assert items[i..] == [];
      assert Done() == goal;
    }

    // The opening bracket and the elements.
    method PrintInner(items: seq<Json>) returns (ok: bool)
      requires Valid() && Terminated(Array(items))
      modifies this, buffer
      ensures Valid() && Capacity() == old(Capacity()) && (buffer == old(buffer) || fresh(buffer))
      ensures noalloc ==> buffer == old(buffer) && length == old(length)
      ensures ok ==> Renderable(Array(items)) && depth == old(depth) + 1
      ensures ok ==> Done() == old(Done()) + "[" + ItemsText(items, format, old(depth) + 1)
      ensures !ok ==> !Renderable(Array(items))
                      || old(offset) + 1 + |ItemsText(items, format, old(depth) + 1)| + 2 > Capacity()
      decreases items, 5
    {
      hide ItemsText, Renderable, Terminated;
      ok := PrintPart("[", 1);
      if !ok {
        return;
      }
      depth := depth + 1;
      ok := PrintElements(items);
    }

    // print_array
    method PrintArray(items: seq<Json>) returns (ok: bool)
      requires Valid() && Terminated(Array(items))
      modifies this, buffer
      ensures Valid() && Capacity() == old(Capacity()) && (buffer == old(buffer) || fresh(buffer))
      ensures noalloc ==> buffer == old(buffer) && length == old(length)
      ensures ok <==> (&& Renderable(Array(items))
                       && old(offset) + |Text(Array(items), format, old(depth))| + 2 <= Capacity())
      ensures ok ==> Holds(old(Done()), Text(Array(items), format, old(depth))) && depth == old(depth)
      ensures ok ==> old(offset) <= offset <= old(offset) + |Text(Array(items), format, old(depth))|
      decreases items, 6
    {
      hide ItemsText, Renderable, Terminated;
      ghost var start, inner := Done(), ItemsText(items, format, depth + 1);
      ArrayText(items, format, depth);
      Assemble(start, "[", inner, "]");
      ok := PrintInner(items);
      if !ok {
        return;
      }
      ok := PrintEnd("]", start, "[" + inner + "]");
      depth := depth - 1;
    }

    // Indentation, key and colon.
    method PrintKey(key: string) returns (ok: bool)
      requires Valid() && NulFree(key)
      modifies this`buffer, this`length, this`offset, buffer
      ensures Valid() && Capacity() == old(Capacity()) && (buffer == old(buffer) || fresh(buffer))
      ensures noalloc ==> buffer == old(buffer) && length == old(length)
      ensures ok ==> Done() == old(Done()) + KeyText(key, format, depth)
      ensures !ok ==> old(offset) + |KeyText(key, format, depth)| + 1 > Capacity()
    {
      if format {
        ok := PrintPart(Tabs(depth), depth);
        if !ok {
          return;
        }
      }
      ghost var before := Done();
      assert before == old(Done()) + Indent(format, depth);
      ok := PrintString(key);
      if !ok {
        return;
      }
      EscapedNulFree(key);
      UpdateOffset(before, Quoted(key));
      ok := PrintPart(Colon(format), |Colon(format)|);
      Assemble(old(Done()), Indent(format, depth), Quoted(key), Colon(format));
    }

    // A member with what separates it from the next.
    method PrintMember(member: Member, last: bool) returns (ok: bool)
      requires Valid() && NulFree(member.key) && Terminated(member.value)
      modifies this, buffer
      ensures Valid() && Capacity() == old(Capacity()) && (buffer == old(buffer) || fresh(buffer))
      ensures noalloc ==> buffer == old(buffer) && length == old(length)
      ensures ok ==> Renderable(member.value) && depth == old(depth)
      ensures ok ==> Done() == old(Done()) + MemberLine(member, last, format, old(depth))
      ensures !ok ==> !Renderable(member.value)
                      || old(offset) + |MemberLine(member, last, format, old(depth))| + 2 > Capacity()
      decreases member, 3
    {
      hide KeyText, Text, Holds;
      ghost var start, key, value := Done(), KeyText(member.key, format, depth), Text(member.value, format, depth);
      ok := PrintKey(member.key);
      if !ok {
        return;
      }
      ok := PrintChild(member.value);
      if !ok {
        return;
      }
      var end := MemberEnd(last, format);
      ok := PrintSeparator(end);
      Regroup(start, key, value);
      Regroup(start, key + value, end);
    }

    // The loop over the members of an object.
    method PrintMembers(members: seq<Member>) returns (ok: bool)
      requires Valid() && Terminated(Object(members))
      modifies this, buffer
      ensures Valid() && Capacity() == old(Capacity()) && (buffer == old(buffer) || fresh(buffer))
      ensures noalloc ==> buffer == old(buffer) && length == old(length)
      ensures ok ==> Renderable(Object(members)) && depth == old(depth)
      ensures ok ==> Done() == old(Done()) + MembersText(members, format, old(depth))
      ensures !ok ==> !Renderable(Object(members))
                      || old(offset) + |MembersText(members, format, old(depth))| + 2 > Capacity()
      decreases members, 4
    {
      hide Slack, MemberLine, Text, MembersText, Renderable, Terminated, NulFree;
      ghost var goal := Done() + MembersText(members, format, depth);
      NoMembersText(format, depth);
      MembersOfObject(members);
      var i := 0;
      ok := true;
      while i < |members|
        invariant 0 <= i <= |members| && ok && depth == old(depth)
        invariant Valid() && Capacity() == old(Capacity()) && (buffer == old(buffer) || fresh(buffer))
        invariant noalloc ==> buffer == old(buffer) && length == old(length)
        invariant Done() + MembersText(members[i..], format, depth) == goal
        invariant forall j :: 0 <= j < i ==> Renderable(members[j].value)
      {
        ghost var soFar, rest := Done(), MembersText(members[i + 1..], format, depth);
        MembersTextStep(members, i, format, depth);
        Regroup(soFar, MemberLine(members[i], i + 1 == |members|, format, depth), rest);
        ok := PrintMember(members[i], i + 1 == |members|);
        if !ok {
          return;
        }
        i := i + 1;
      }
      assert members[i..] == [];
      assert Done() == goal;
    }

    // The opening brace and the members.
    method PrintBody(open: string, members: seq<Member>) returns (ok: bool)
      requires Valid() && Terminated(Object(members)) && open != ""
      modifies this, buffer
      ensures Valid() && Capacity() == old(Capacity()) && (buffer == old(buffer) || fresh(buffer))
      ensures noalloc ==> buffer == old(buffer) && length == old(length)
      ensures ok ==> Renderable(Object(members)) && depth == old(depth) + 1
      ensures ok ==> Done() == old(Done()) + open + MembersText(members, format, old(depth) + 1)
      ensures !ok ==> !Renderable(Object(members))
                      || old(offset) + |open| + |MembersText(members, format, old(depth) + 1)| + 2 > Capacity()
      decreases members, 5
    {
      hide MembersText, Renderable, Terminated;
      ok := PrintPart(open, |open| + 1);
      if !ok {
        return;
      }
      depth := depth + 1;
      ok := PrintMembers(members);
    }

    // print_object
    method PrintObject(members: seq<Member>) returns (ok: bool)
      requires Valid() && Terminated(Object(members))
      modifies this, buffer
      ensures Valid() && Capacity() == old(Capacity()) && (buffer == old(buffer) || fresh(buffer))
      ensures noalloc ==> buffer == old(buffer) && length == old(length)
      ensures ok <==> Renderable(Object(members))
                      && old(offset) + |Text(Object(members), format, old(depth))| + 2 <= Capacity()
      ensures ok ==> Holds(old(Done()), Text(Object(members), format, old(depth))) && depth == old(depth)
      ensures ok ==> old(offset) <= offset <= old(offset) + |Text(Object(members), format, old(depth))|
      decreases members, 6
    {
      hide Newline, Indent, MembersText, Renderable, Terminated;
      var open, close := "{" + Newline(format), Indent(format, depth) + "}";
      ghost var start, inner := Done(), MembersText(members, format, depth + 1);
      ObjectText(members, format, depth);
      Assemble(start, open, inner, close);
      ok := PrintBody(open, members);
      if !ok {
        return;
      }
      ok := PrintEnd(close, start, open + inner + close);
      depth := depth - 1;
    }
  }

  // ----- The text of a container, part by part

  function Element(item: Json, last: bool, format: bool, depth: nat): string {
    Text(item, format, depth) + if last then "" else Comma(format)
  }

  function KeyText(key: string, format: bool, depth: nat): string {
    Indent(format, depth) + Quoted(key) + Colon(format)
  }

  function MemberEnd(last: bool, format: bool): string {
    (if last then "" else ",") + Newline(format)
  }

  function MemberLine(m: Member, last: bool, format: bool, depth: nat): string {
    KeyText(m.key, format, depth) + Text(m.value, format, depth) + MemberEnd(last, format)
  }

  lemma {:induction false} Assemble(before: string, open: string, inner: string, close: string)
    ensures before + open + inner + close == before + (open + inner + close)
    ensures |open + inner + close| == |open| + |inner| + |close|
  {
  }

  lemma {:induction false} ArrayText(items: seq<Json>, format: bool, depth: nat)
    ensures Text(Array(items), format, depth) == "[" + ItemsText(items, format, depth + 1) + "]"
  {
  }

  lemma {:induction false} ObjectText(ms: seq<Member>, format: bool, depth: nat)
    ensures Text(Object(ms), format, depth)
         == "{" + Newline(format) + MembersText(ms, format, depth + 1) + (Indent(format, depth) + "}")
  {
  }

  lemma {:induction false} ItemsTextStep(items: seq<Json>, i: nat, format: bool, depth: nat)
    requires i < |items|
    ensures ItemsText(items[i..], format, depth)
         == Element(items[i], i + 1 == |items|, format, depth) + ItemsText(items[i + 1..], format, depth)
  {
    assert items[i..][1..] == items[i + 1..];
  }

  lemma {:induction false} ItemsOfArray(items: seq<Json>)
    ensures Terminated(Array(items)) <==> forall i :: 0 <= i < |items| ==> Terminated(items[i])
    ensures Renderable(Array(items)) <==> forall i :: 0 <= i < |items| ==> Renderable(items[i])
  {
  }

  lemma {:induction false} MembersOfObject(members: seq<Member>)
    ensures Terminated(Object(members))
       <==> forall i :: 0 <= i < |members| ==> NulFree(members[i].key) && Terminated(members[i].value)
    ensures Renderable(Object(members)) <==> forall i :: 0 <= i < |members| ==> Renderable(members[i].value)
  {
  }

  lemma {:induction false} MembersTextStep(ms: seq<Member>, i: nat, format: bool, depth: nat)
    requires i < |ms|
    ensures MembersText(ms[i..], format, depth)
         == MemberLine(ms[i], i + 1 == |ms|, format, depth) + MembersText(ms[i + 1..], format, depth)
  {
    assert ms[i..][1..] == ms[i + 1..];
  }

  lemma {:induction false} EscapedNothing()
    ensures Escaped("") == ""
  {
  }

  lemma {:induction false} EscapedStep(s: string, i: nat)
    requires i < |s|
    ensures Escaped(s[i..]) == EscapedChar(s[i]) + Escaped(s[i + 1..])
  {
    assert s[i..][1..] == s[i + 1..];
  }

  // cJSON_PrintPreallocated
  method PrintPreallocated(item: Json, buf: array<char>, len: int, fmt: bool) returns (ok: bool)
    requires len <= buf.Length && len <= INT_MAX && Terminated(item)
    modifies buf
    ensures ok <==> Renderable(item) && |Text(item, fmt, 0)| + Slack(item) <= len
    ensures ok ==> |Text(item, fmt, 0)| < len && buf[..|Text(item, fmt, 0)|] == Text(item, fmt, 0)
    ensures ok ==> buf[|Text(item, fmt, 0)|] == '\0'
    ensures var end := if len < 0 then 0 else len; buf[end..] == old(buf[end..])
  {
    if len < 0 {
      return false;
    }
    var p := new PrintBuffer(buf, len, true, fmt);
    ok := p.PrintValue(item);
    assert p.buffer == buf;
  }

  // print, behind cJSON_Print and cJSON_PrintUnformatted: the buffer starts with
  // 256 characters of which none is counted as its length.
  method Print(item: Json, format: bool) returns (printed: Option<array<char>>)
    requires Terminated(item)
    ensures printed.Some? <==> Renderable(item) && |Text(item, format, 0)| + Slack(item) <= 0x7FFF_FFFF
    ensures printed.Some? ==>
              && fresh(printed.value)
              && |Text(item, format, 0)| < printed.value.Length
              && printed.value[..|Text(item, format, 0)|] == Text(item, format, 0)
              && printed.value[|Text(item, format, 0)|] == NUL
  {
    var initial := new char[256];
    var p := new PrintBuffer(initial, 0, false, format);
    var ok := p.PrintValue(item);
    if !ok {
      return None;
    }
    ghost var text := Text(item, format, 0);
    assert "" + text == text;
    TextNulFree(item, format, 0);
    p.UpdateOffset("", text);
    printed := Some(p.buffer);
  }
}
