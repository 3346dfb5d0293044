/**
  Parsing what was printed gives back the item, formatted or not, with member
  order and duplicate keys, exactly when it is not nested too deeply.

  The text of each kind of value is taken to stand anywhere in an input. It is shown
  to be read to its end, whatever follows that could not belong to a number, and the
  texts of containers are put together from those of their elements and members.
 */
module TextRoundTrip {
  import opened CStrings
  import opened Json
  import opened JsonText
  import opened Utf8
  import opened ParseString
  import opened Parser

  // Containers around the innermost item.
  function Nesting(v: Json): nat {
    match v
    case Array(items) => 1 + ItemsNesting(items)
    case Object(members) => 1 + MembersNesting(members)
    case _ => 0
  }

  function ItemsNesting(items: seq<Json>): nat {
    if items == [] then 0 else Max(Nesting(items[0]), ItemsNesting(items[1..]))
  }

  function MembersNesting(ms: seq<Member>): nat {
    if ms == [] then 0 else Max(Nesting(ms[0].value), MembersNesting(ms[1..]))
  }

  // ----- Texts in the input

  lemma {:induction false} MatchesSplit(s: string, o: nat, a: string, b: string)
    requires Matches(s, o, a + b)
    ensures Matches(s, o, a) && Matches(s, o + |a|, b)
  {
    forall i | 0 <= i < |b|
      ensures s[o + |a| + i] == b[i]
    {
      assert (a + b)[|a| + i] == b[i];
    }
    forall i | 0 <= i < |a|
      ensures s[o + i] == a[i]
    {
      assert (a + b)[i] == a[i];
    }
  }

  lemma {:induction false} MatchesThree(s: string, o: nat, a: string, b: string, c: string)
    requires Matches(s, o, a + b + c)
    ensures Matches(s, o, a) && Matches(s, o + |a|, b) && Matches(s, o + |a| + |b|, c)
  {
    MatchesSplit(s, o, a + b, c);
    MatchesSplit(s, o, a, b);
  }

  lemma {:induction false} MatchesFour(s: string, o: nat, a: string, b: string, c: string, d: string)
    requires Matches(s, o, a + b + c + d)
    ensures Matches(s, o, a) && Matches(s, o + |a|, b)
    ensures Matches(s, o + |a| + |b|, c) && Matches(s, o + |a| + |b| + |c|, d)
  {
    MatchesSplit(s, o, a + b + c, d);
    MatchesThree(s, o, a, b, c);
  }

  lemma {:induction false} MatchesAt(s: string, o: nat, t: string, i: nat)
    requires Matches(s, o, t) && i < |t|
    ensures s[o + i] == t[i]
  {
  }

  lemma {:induction false} SkipsBlanks(s: string, o: nat, n: nat)
    requires EndsInNul(s) && o + n < |s| && s[o + n] > ' '
    requires forall i :: o <= i < o + n ==> s[i] <= ' '
    ensures SkipWhitespace(s, o) == o + n
    decreases n
  {
    if n > 0 {
      SkipsBlanks(s, o + 1, n - 1);
    }
  }

  // ----- Strings

  lemma {:induction false} DecodesEscape(s: string, i: nat, end: nat, c: char)
    requires c != NUL && Matches(s, i, EscapedChar(c)) && i + |EscapedChar(c)| <= end < |s|
    ensures DecodeStep(s, i, end) == Step([c], i + |EscapedChar(c)|)
  {
    var e := EscapedChar(c);
    MatchesAt(s, i, e, 0);
    if NeedsEscape(c) {
      MatchesAt(s, i, e, 1);
      if |e| == 6 {
        NumericEscape(s, i, end, c);
      }
    }
  }

  lemma {:induction false} NumericEscape(s: string, i: nat, end: nat, c: char)
    requires c < ' ' && Matches(s, i, "\\u" + Hex4(c as int)) && i + 6 <= end < |s|
    ensures DecodeStep(s, i, end) == Step([c], i + 6)
  {
    var e := "\\u" + Hex4(c as int);
    MatchesAt(s, i, e, 0);
    MatchesAt(s, i, e, 1);
    assert s[i..end] == e + s[i + 6..end];
    PrintedEscapes(c as int);
    LiteralRoundTrip(e, c as int, s[i + 6..end]);
  }

  // Neither pass takes an escaped quote for the closing one.
  lemma {:induction false} ScansEscape(s: string, i: nat, c: char)
    requires Matches(s, i, EscapedChar(c)) && i + |EscapedChar(c)| < |s|
    ensures ClosingQuote(s, i) == ClosingQuote(s, i + |EscapedChar(c)|)
  {
    var e := EscapedChar(c);
    MatchesAt(s, i, e, 0);
    if NeedsEscape(c) && |e| == 6 {
      MatchesAt(s, i, e, 1);
      MatchesAt(s, i, e, 2);
      MatchesAt(s, i, e, 3);
      MatchesAt(s, i, e, 4);
      MatchesAt(s, i, e, 5);
      assert ClosingQuote(s, i) == ClosingQuote(s, i + 2);
      assert ClosingQuote(s, i + 2) == ClosingQuote(s, i + 3);
      assert ClosingQuote(s, i + 3) == ClosingQuote(s, i + 4);
      assert ClosingQuote(s, i + 4) == ClosingQuote(s, i + 5);
    }
  }

  lemma {:induction false} EscapedHead(s: string, i: nat, t: string)
    requires t != "" && Matches(s, i, Escaped(t))
    ensures Matches(s, i, EscapedChar(t[0])) && Matches(s, i + |EscapedChar(t[0])|, Escaped(t[1..]))
    ensures |Escaped(t)| == |EscapedChar(t[0])| + |Escaped(t[1..])|
  {
    hide EscapedChar;
    MatchesSplit(s, i, EscapedChar(t[0]), Escaped(t[1..]));
  }

  lemma {:induction false} ScansEscaped(s: string, i: nat, t: string)
    requires Matches(s, i, Escaped(t)) && i + |Escaped(t)| < |s| && s[i + |Escaped(t)|] == '"'
    ensures ClosingQuote(s, i) == Some(i + |Escaped(t)|)
    decreases |t|
  {
    hide EscapedChar, Matches;
    if t != "" {
      EscapedHead(s, i, t);
      ScansEscape(s, i, t[0]);
      ScansEscaped(s, i + |EscapedChar(t[0])|, t[1..]);
    }
  }

  lemma {:induction false} DecodesEscaped(s: string, i: nat, t: string)
    requires NulFree(t) && Matches(s, i, Escaped(t)) && i + |Escaped(t)| < |s|
    ensures Decoded(s, i, i + |Escaped(t)|) == Some(t)
    decreases |t|
  {
    hide EscapedChar, Matches, DecodeStep;
    if t != "" {
      var e := EscapedChar(t[0]);
      assert t[0] in t && forall c :: c in t[1..] ==> c in t;
      EscapedHead(s, i, t);
      DecodesEscaped(s, i + |e|, t[1..]);
      DecodesEscape(s, i, i + |Escaped(t)|, t[0]);
      assert [t[0]] + t[1..] == t;
    }
  }

  lemma {:induction false} QuotedRoundTrip(s: string, o: nat, t: string)
    requires NulFree(t) && Matches(s, o, Quoted(t))
    ensures StringAt(s, o) == ParsedText(t, o + |Quoted(t)|)
  {
    hide ClosingQuote, Decoded, Escaped;
    MatchesThree(s, o, "\"", Escaped(t), "\"");
    MatchesAt(s, o, "\"", 0);
    MatchesAt(s, o + 1 + |Escaped(t)|, "\"", 0);
    ScansEscaped(s, o + 1, t);
    DecodesEscaped(s, o + 1, t);
  }

  // ----- Numbers

  lemma {:induction false} RunOfLexeme(s: string, o: nat, l: string)
    requires Matches(s, o, l) && (forall i :: 0 <= i < |l| ==> IsNumberChar(l[i]))
    requires o + |l| < |s| && !IsNumberChar(s[o + |l|])
    ensures NumberRun(s, o) == |l|
    decreases |l|
  {
    if l != "" {
      MatchesAt(s, o, l, 0);
      assert l == l[..1] + l[1..];
      MatchesSplit(s, o, l[..1], l[1..]);
      RunOfLexeme(s, o + 1, l[1..]);
    }
  }

  lemma {:induction false} NumberRoundTrip(s: string, o: nat, l: string)
    requires EndsInNul(s) && IsLexeme(l) && Matches(s, o, l)
    requires o + |l| < |s| && !IsNumberChar(s[o + |l|])
    ensures ParsedNumber(s, o) == Parsed(Number(l), o + |l|)
  {
    RunOfLexeme(s, o, l);
    assert NumberCopy(s, o, NUMBER_BUFFER) == l;
    assert l[..|l|] == l;
  }

  // ----- Items

  lemma {:induction false} TextStart(v: Json, format: bool, indent: nat)
    requires Printable(v)
    ensures var t := Text(v, format, indent); t != "" && t[0] > ' ' && t[0] != ']' && t[0] != '}'
  {
  }

  // What may follow an item in a printed text.
  predicate Closes(c: char) {
    c == NUL || c == ',' || c == ']' || c == '}' || c == '\n'
  }

  lemma {:induction false} NotAWord(s: string, o: nat)
    requires o < |s| && s[o] != 'n' && s[o] != 'f' && s[o] != 't'
    ensures !Matches(s, o, "null") && !Matches(s, o, "false") && !Matches(s, o, "true")
  {
    if Matches(s, o, "null") {
      MatchesAt(s, o, "null", 0);
    }
    if Matches(s, o, "false") {
      MatchesAt(s, o, "false", 0);
    }
    if Matches(s, o, "true") {
      MatchesAt(s, o, "true", 0);
    }
  }

  // The first character decides what is read.
  lemma {:induction false} ByFirstCharacter(s: string, o: nat, depth: nat)
    requires EndsInNul(s) && o < |s|
    ensures s[o] == '[' ==> ParsedValue(s, o, depth) == ParsedArray(s, o, depth)
    ensures s[o] == '{' ==> ParsedValue(s, o, depth) == ParsedObject(s, o, depth)
    ensures s[o] == '-' || IsDigit(s[o]) ==> ParsedValue(s, o, depth) == ParsedNumber(s, o)
    ensures s[o] == '"' && StringAt(s, o).ParsedText? ==>
              ParsedValue(s, o, depth) == Parsed(String(StringAt(s, o).text), StringAt(s, o).end)
  {
    hide Matches, StringAt, ParsedArray, ParsedObject, ParsedNumber;
    if s[o] != 'n' && s[o] != 'f' && s[o] != 't' {
      NotAWord(s, o);
    }
  }

  lemma {:induction false} WordRoundTrip(s: string, o: nat, v: Json, format: bool, indent: nat, depth: nat)
    requires v.Null? || v.False? || v.True?
    requires EndsInNul(s) && Matches(s, o, Text(v, format, indent)) && o < |s|
    ensures ParsedValue(s, o, depth) == Parsed(v, o + |Text(v, format, indent)|)
  {
    var t := Text(v, format, indent);
    MatchesAt(s, o, t, 0);
    if Matches(s, o, "null") {
      MatchesAt(s, o, "null", 0);
    }
    if Matches(s, o, "false") {
      MatchesAt(s, o, "false", 0);
    }
  }

  // What parsing an item in printed form gives, at a given depth of nesting.
  function Expected(v: Json, end: nat, depth: nat): Parsed {
    if depth + Nesting(v) <= NESTING_LIMIT then Parsed(v, end) else Failed
  }

  lemma {:induction false} ValueRoundTrip(s: string, o: nat, v: Json, format: bool, indent: nat, depth: nat)
    requires EndsInNul(s) && Printable(v) && depth <= NESTING_LIMIT
    requires Matches(s, o, Text(v, format, indent))
    requires o + |Text(v, format, indent)| < |s| && Closes(s[o + |Text(v, format, indent)|])
    ensures ParsedValue(s, o, depth) == Expected(v, o + |Text(v, format, indent)|, depth)
    decreases v, 6
  {
    hide ParsedValue, Quoted, SkipWhitespace, StringAt, IsLexeme, Closes, Matches, Escaped, ItemsText, MembersText,
         ParsedNumber, ParsedArray, ParsedObject;
    match v
    case Number(l) =>
      NumberValue(s, o, l, depth);
    case String(text) =>
      StringValue(s, o, text, depth);
    case Array(items) =>
      ArrayRoundTrip(s, o, items, format, indent, depth);
    case Object(members) =>
      ObjectRoundTrip(s, o, members, format, indent, depth);
    case _ =>
      WordRoundTrip(s, o, v, format, indent, depth);
  }

  lemma {:induction false} NumberValue(s: string, o: nat, l: string, depth: nat)
    requires EndsInNul(s) && IsLexeme(l) && Matches(s, o, l) && o + |l| < |s| && Closes(s[o + |l|])
    ensures ParsedValue(s, o, depth) == Parsed(Number(l), o + |l|)
  {
    hide ParsedValue, ParsedNumber;
    MatchesAt(s, o, l, 0);
    ByFirstCharacter(s, o, depth);
    NumberRoundTrip(s, o, l);
  }

  lemma {:induction false} StringValue(s: string, o: nat, text: string, depth: nat)
    requires EndsInNul(s) && NulFree(text) && Matches(s, o, Quoted(text)) && o + |Quoted(text)| < |s|
    ensures ParsedValue(s, o, depth) == Parsed(String(text), o + |Quoted(text)|)
  {
    hide ParsedValue, StringAt, Escaped;
    MatchesThree(s, o, "\"", Escaped(text), "\"");
    MatchesAt(s, o, "\"", 0);
    ByFirstCharacter(s, o, depth);
    QuotedRoundTrip(s, o, text);
  }

  // ----- Arrays

  lemma {:induction false} ArrayRoundTrip(s: string, o: nat, items: seq<Json>, format: bool, indent: nat, depth: nat)
    requires EndsInNul(s) && Printable(Array(items)) && depth <= NESTING_LIMIT
    requires Matches(s, o, Text(Array(items), format, indent)) && o + |Text(Array(items), format, indent)| < |s|
    ensures ParsedValue(s, o, depth) == Expected(Array(items), o + |Text(Array(items), format, indent)|, depth)
    decreases items, 5
  {
    hide ParsedValue, ParsedElements;
    var inner := ItemsText(items, format, indent + 1);
    MatchesThree(s, o, "[", inner, "]");
    MatchesAt(s, o, "[", 0);
    MatchesAt(s, o + 1 + |inner|, "]", 0);
    ByFirstCharacter(s, o, depth);
    if items != [] && depth < NESTING_LIMIT {
      ItemsStart(s, o + 1, items, format, indent + 1);
      ElementsRoundTrip(s, o, o + 1, items, format, indent + 1, depth + 1);
    }
  }

  lemma {:induction false} ItemsStart(s: string, p: nat, items: seq<Json>, format: bool, indent: nat)
    requires items != [] && Printable(items[0]) && Matches(s, p, ItemsText(items, format, indent))
    ensures p < |s| && s[p] > ' ' && s[p] != ']'
  {
    var t, comma := Text(items[0], format, indent), if |items| > 1 then Comma(format) else "";
    MatchesThree(s, p, t, comma, ItemsText(items[1..], format, indent));
    TextStart(items[0], format, indent);
    MatchesAt(s, p, t, 0);
  }

  // The last element is followed by the bracket, any other by a comma.
  lemma {:induction false} LastElement(s: string, o: nat, p: nat, v: Json, end: nat, depth: nat)
    requires EndsInNul(s) && o + 1 < |s| && SkipWhitespace(s, o + 1) == p
    requires end < |s| && s[end] == ']' && ParsedValue(s, p, depth) == Expected(v, end, depth)
    ensures ParsedElements(s, o, depth)
         == if depth + Nesting(v) <= NESTING_LIMIT then ParsedItems([v], end + 1) else NoItems
  {
  }

  lemma {:induction false} AnotherElement(s: string, o: nat, p: nat, v: Json, end: nat, depth: nat)
    requires EndsInNul(s) && o + 1 < |s| && SkipWhitespace(s, o + 1) == p
    requires end + 1 < |s| && s[end] == ',' && ParsedValue(s, p, depth) == Expected(v, end, depth)
    ensures ParsedElements(s, o, depth)
         == if depth + Nesting(v) <= NESTING_LIMIT then After([v], ParsedElements(s, end, depth)) else NoItems
  {
  }

  // o is a bracket or comma, p where the text of the elements starts.
  lemma {:induction false} ElementsRoundTrip(
    s: string, o: nat, p: nat, items: seq<Json>, format: bool, indent: nat, depth: nat)
    requires EndsInNul(s) && items != [] && depth <= NESTING_LIMIT
    requires forall i :: 0 <= i < |items| ==> Printable(items[i])
    requires o + 1 < |s| && SkipWhitespace(s, o + 1) == p && Matches(s, p, ItemsText(items, format, indent))
    requires var end := p + |ItemsText(items, format, indent)|; end < |s| && s[end] == ']'
    ensures ParsedElements(s, o, depth)
         == if depth + ItemsNesting(items) <= NESTING_LIMIT
            then ParsedItems(items, p + |ItemsText(items, format, indent)| + 1) else NoItems
    decreases items, 4
  {
    hide ParsedElements, SkipWhitespace, Matches, Text, Printable, ParsedValue;
    var t, comma := Text(items[0], format, indent), if |items| > 1 then Comma(format) else "";
    var end := p + |t|;
    MatchesThree(s, p, t, comma, ItemsText(items[1..], format, indent));
    assert items == [items[0]] + items[1..];
    if |items| == 1 {
      ValueRoundTrip(s, p, items[0], format, indent, depth);
      LastElement(s, o, p, items[0], end, depth);
    } else {
      ItemsStart(s, end + |comma|, items[1..], format, indent);
      SkipsComma(s, end, format);
      ValueRoundTrip(s, p, items[0], format, indent, depth);
      AnotherElement(s, o, p, items[0], end, depth);
      ElementsRoundTrip(s, end, end + |comma|, items[1..], format, indent, depth);
    }
  }

  // The blank behind a comma is skipped.
  lemma {:induction false} SkipsComma(s: string, end: nat, format: bool)
    requires EndsInNul(s) && Matches(s, end, Comma(format))
    requires var p := end + |Comma(format)|; p < |s| && s[p] > ' '
    ensures s[end] == ',' && end + 1 < |s| && SkipWhitespace(s, end + 1) == end + |Comma(format)|
  {
    MatchesAt(s, end, Comma(format), 0);
    if format {
      MatchesAt(s, end, Comma(format), 1);
      SkipsBlanks(s, end + 1, 1);
    }
  }

  // ----- Objects

  // An object from its opening brace at o to the closing one at x.
  lemma {:induction false} ObjectBetween(s: string, o: nat, x: nat, ms: seq<Member>, depth: nat)
    requires EndsInNul(s) && o + 1 < |s| && s[o] == '{'
    requires ms == [] ==> SkipWhitespace(s, o + 1) == x && x < |s| && s[x] == '}'
    requires ms != [] && depth < NESTING_LIMIT ==>
               && s[SkipWhitespace(s, o + 1)] == '"'
               && ParsedMembersFrom(s, o, depth + 1)
                  == if depth + 1 + MembersNesting(ms) <= NESTING_LIMIT then ParsedMembers(ms, x + 1) else NoMembers
    ensures ParsedValue(s, o, depth) == Expected(Object(ms), x + 1, depth)
  {
    hide ParsedValue, ParsedMembersFrom, SkipWhitespace;
    ByFirstCharacter(s, o, depth);
    StepBack(s, o, depth + 1);
  }

  lemma {:induction false} MembersPrintable(ms: seq<Member>)
    requires Printable(Object(ms))
    ensures forall i :: 0 <= i < |ms| ==> NulFree(ms[i].key) && Printable(ms[i].value)
  {
  }

  lemma {:induction false} ObjectRoundTrip(s: string, o: nat, ms: seq<Member>, format: bool, indent: nat, depth: nat)
    requires EndsInNul(s) && Printable(Object(ms)) && depth <= NESTING_LIMIT
    requires Matches(s, o, Text(Object(ms), format, indent)) && o + |Text(Object(ms), format, indent)| < |s|
    ensures ParsedValue(s, o, depth) == Expected(Object(ms), o + |Text(Object(ms), format, indent)|, depth)
    decreases ms, 5
  {
    hide ParsedValue, ParsedMembersFrom, SkipWhitespace, StringAt, Matches, Text, Expected, Indent, MembersText,
         Printable, NulFree;
    MembersPrintable(ms);
    var q, e, x := ObjectParts(s, o, ms, format, indent);
    if ms == [] {
      NoMembersText(format, indent + 1);
      SkipsIndent(s, o + 1, format, indent);
    } else if depth < NESTING_LIMIT {
      MembersStart(s, o, q, ms, format, indent + 1);
      MembersRoundTrip(s, o, q, e, x, ms, format, indent + 1, depth + 1);
    }
    ObjectBetween(s, o, x, ms, depth);
  }

  // The parser steps back from the first key by one character only.
  lemma {:induction false} StepBack(s: string, o: nat, depth: nat)
    requires EndsInNul(s) && o + 1 < |s|
    ensures var p := SkipWhitespace(s, o + 1);
            s[p] > ' ' ==> ParsedMembersFrom(s, p - 1, depth) == ParsedMembersFrom(s, o, depth)
  {
  }

  // The text of an object: where its members start and end, and its closing brace.
  lemma {:induction false} ObjectParts(s: string, o: nat, ms: seq<Member>, format: bool, indent: nat)
    returns (q: nat, e: nat, x: nat)
    requires Matches(s, o, Text(Object(ms), format, indent))
    ensures s[o] == '{' && Matches(s, o + 1, Newline(format)) && q == o + 1 + |Newline(format)|
    ensures Matches(s, q, MembersText(ms, format, indent + 1)) && e == q + |MembersText(ms, format, indent + 1)|
    ensures Matches(s, e, Indent(format, indent)) && x == e + |Indent(format, indent)|
    ensures x < |s| && s[x] == '}' && x + 1 == o + |Text(Object(ms), format, indent)|
  {
    hide MembersText, Matches;
    var n, inner, tabs := Newline(format), MembersText(ms, format, indent + 1), Indent(format, indent);
    var t := "{" + n + inner + tabs;
    assert Text(Object(ms), format, indent) == t + "}";
    MatchesSplit(s, o, t, "}");
    MatchesFour(s, o, "{", n, inner, tabs);
    MatchesAt(s, o, "{", 0);
    q := o + 1 + |n|;
    e := q + |inner|;
    x := e + |tabs|;
    MatchesAt(s, x, "}", 0);
  }

  // Newline and indentation are skipped.
  lemma {:induction false} SkipsIndent(s: string, o: nat, format: bool, indent: nat)
    requires EndsInNul(s)
    requires Matches(s, o, Newline(format)) && Matches(s, o + |Newline(format)|, Indent(format, indent))
    requires var x := o + |Newline(format)| + |Indent(format, indent)|; x < |s| && s[x] > ' '
    ensures o < |s| && SkipWhitespace(s, o) == o + |Newline(format)| + |Indent(format, indent)|
  {
    var n, m := |Newline(format)|, |Indent(format, indent)|;
    forall i | o <= i < o + n + m
      ensures s[i] <= ' '
    {
      if i < o + n {
        MatchesAt(s, o, Newline(format), i - o);
      } else {
        MatchesAt(s, o + n, Indent(format, indent), i - o - n);
      }
    }
    SkipsBlanks(s, o, n + m);
  }

  // The text of a member list at q: its first member at p, the line end, the rest.
  lemma {:induction false} MembersParts(s: string, q: nat, ms: seq<Member>, format: bool, indent: nat)
    returns (p: nat, end: nat, next: nat)
    requires ms != [] && Matches(s, q, MembersText(ms, format, indent))
    ensures Matches(s, q, Indent(format, indent)) && p == q + |Indent(format, indent)|
    ensures MemberAt(s, p, ms[0], format, indent, end)
    ensures |ms| > 1 ==> end < |s| && s[end] == ','
    ensures next == end + (if |ms| > 1 then 1 else 0) + |Newline(format)|
    ensures Matches(s, next - |Newline(format)|, Newline(format))
            && Matches(s, next, MembersText(ms[1..], format, indent))
    ensures q + |MembersText(ms, format, indent)| == next + |MembersText(ms[1..], format, indent)|
  {
    hide Text, MemberText, MemberAt, Quoted, Escaped;
    var m, sep, n := MemberText(ms[0], format, indent), if |ms| > 1 then "," else "", Newline(format);
    MatchesFour(s, q, m, sep, n, MembersText(ms[1..], format, indent));
    p, end := MemberParts(s, q, ms[0], format, indent);
    next := end + |sep| + |n|;
    if |ms| > 1 {
      MatchesAt(s, end, sep, 0);
    }
  }

  // A key, a colon and a value from p to end.
  ghost predicate MemberAt(s: string, p: nat, m: Member, format: bool, indent: nat, end: nat) {
    var c := p + |Quoted(m.key)|;
    var o := c + |Colon(format)|;
    && Matches(s, p, Quoted(m.key)) && Matches(s, c, Colon(format)) && Matches(s, o, Text(m.value, format, indent))
    && end == o + |Text(m.value, format, indent)|
  }

  lemma {:induction false} MemberParts(s: string, q: nat, m: Member, format: bool, indent: nat)
    returns (p: nat, end: nat)
    requires Matches(s, q, MemberText(m, format, indent))
    ensures Matches(s, q, Indent(format, indent)) && p == q + |Indent(format, indent)|
    ensures MemberAt(s, p, m, format, indent, end) && end == q + |MemberText(m, format, indent)|
  {
    MatchesFour(s, q, Indent(format, indent), Quoted(m.key), Colon(format), Text(m.value, format, indent));
    p, end := q + |Indent(format, indent)|, q + |MemberText(m, format, indent)|;
  }

  // Behind the brace or comma at o, the first key is found.
  lemma {:induction false} MembersStart(s: string, o: nat, q: nat, ms: seq<Member>, format: bool, indent: nat)
    requires EndsInNul(s) && ms != [] && Matches(s, o + 1, Newline(format)) && q == o + 1 + |Newline(format)|
    requires Matches(s, q, MembersText(ms, format, indent))
    ensures var p := q + |Indent(format, indent)|;
            o + 1 < |s| && SkipWhitespace(s, o + 1) == p && p < |s| && s[p] == '"'
  {
    hide MembersText, SkipWhitespace, Text;
    var p, end, next := MembersParts(s, q, ms, format, indent);
    MatchesAt(s, p, Quoted(ms[0].key), 0);
    SkipsIndent(s, o + 1, format, indent);
  }

  lemma {:induction false} LastMember(s: string, o: nat, p: nat, m: Member, end: nat, close: nat, depth: nat)
    requires EndsInNul(s) && o + 1 < |s| && SkipWhitespace(s, o + 1) == p && end < |s|
    requires SkipWhitespace(s, end) == close && s[close] == '}'
    requires ParsedMemberFrom(s, p, depth) == ExpectedMember(m, end, depth)
    ensures ParsedMembersFrom(s, o, depth)
         == if depth + Nesting(m.value) <= NESTING_LIMIT then ParsedMembers([m], close + 1) else NoMembers
  {
  }

  lemma {:induction false} AnotherMember(s: string, o: nat, p: nat, m: Member, end: nat, depth: nat)
    requires EndsInNul(s) && o + 1 < |s| && SkipWhitespace(s, o + 1) == p && end + 1 < |s| && s[end] == ','
    requires ParsedMemberFrom(s, p, depth) == ExpectedMember(m, end, depth)
    ensures ParsedMembersFrom(s, o, depth)
         == if depth + Nesting(m.value) <= NESTING_LIMIT then AfterMembers([m], ParsedMembersFrom(s, end, depth))
            else NoMembers
  {
  }

  function ExpectedMember(m: Member, end: nat, depth: nat): ParsedMember {
    if depth + Nesting(m.value) <= NESTING_LIMIT then ParsedMember(m, end) else NoMember
  }

  // o is a brace or comma, q where the text of the members starts, e where it
  // ends, x the closing brace behind the indentation.
  lemma {:induction false} MembersRoundTrip(
    s: string, o: nat, q: nat, e: nat, x: nat, ms: seq<Member>, format: bool, indent: nat, depth: nat)
    requires EndsInNul(s) && ms != [] && depth <= NESTING_LIMIT && indent > 0
    requires forall i :: 0 <= i < |ms| ==> NulFree(ms[i].key) && Printable(ms[i].value)
    requires o + 1 < |s| && Matches(s, o + 1, Newline(format)) && q == o + 1 + |Newline(format)|
    requires Matches(s, q, MembersText(ms, format, indent)) && e == q + |MembersText(ms, format, indent)|
    requires Matches(s, e, Indent(format, indent - 1)) && x == e + |Indent(format, indent - 1)| && x < |s|
             && s[x] == '}'
    ensures ParsedMembersFrom(s, o, depth)
         == if depth + MembersNesting(ms) <= NESTING_LIMIT then ParsedMembers(ms, x + 1) else NoMembers
    decreases ms, 4
  {
    hide MemberText, Quoted, StringAt, SkipWhitespace, ParsedMemberFrom, ParsedMembersFrom, Text, Escaped, Matches,
         Printable;
    var p, end, next := MembersParts(s, q, ms, format, indent);
    MembersStart(s, o, q, ms, format, indent);
    var rest := ms[1..];
    assert ms == [ms[0]] + rest && forall i :: 0 <= i < |rest| ==> rest[i] == ms[i + 1];
    if |ms| == 1 {
      assert next == e;
      SkipsIndent(s, end, format, indent - 1);
      BreakCloses(s, end, format, indent - 1);
      MemberRoundTrip(s, p, ms[0], end, format, indent, depth);
      LastMember(s, o, p, ms[0], end, x, depth);
    } else {
      MemberRoundTrip(s, p, ms[0], end, format, indent, depth);
      AnotherMember(s, o, p, ms[0], end, depth);
      MembersStart(s, end, next, rest, format, indent);
      MembersRoundTrip(s, end, next, e, x, rest, format, indent, depth);
    }
  }

  // Behind the last value there is a line break or the closing brace.
  lemma {:induction false} BreakCloses(s: string, end: nat, format: bool, indent: nat)
    requires Matches(s, end, Newline(format)) && end < |s|
    requires !format ==> s[end] == '}'
    ensures Closes(s[end])
  {
    if format {
      MatchesAt(s, end, Newline(format), 0);
    }
  }

  lemma {:induction false} MemberRoundTrip(
    s: string, p: nat, m: Member, end: nat, format: bool, indent: nat, depth: nat)
    requires EndsInNul(s) && NulFree(m.key) && Printable(m.value) && depth <= NESTING_LIMIT
    requires MemberAt(s, p, m, format, indent, end) && end < |s| && Closes(s[end])
    ensures ParsedMemberFrom(s, p, depth) == ExpectedMember(m, end, depth)
    decreases m, 7
  {
    hide StringAt, SkipWhitespace, ParsedValue, Text, Escaped, Printable, ParsedMemberFrom;
    var c := p + |Quoted(m.key)|;
    var o := c + |Colon(format)|;
    QuotedRoundTrip(s, p, m.key);
    TextStart(m.value, format, indent);
    MatchesAt(s, o, Text(m.value, format, indent), 0);
    MatchesAt(s, c, Colon(format), 0);
    SkipsColon(s, c, format);
    ValueRoundTrip(s, o, m.value, format, indent, depth);
    MemberFound(s, p, c, o, m, end, depth);
  }

  lemma {:induction false} MemberFound(s: string, p: nat, c: nat, o: nat, m: Member, end: nat, depth: nat)
    requires EndsInNul(s) && p < |s| && c + 1 < |s| && o < |s|
    requires StringAt(s, p) == ParsedText(m.key, c) && s[c] == ':' && SkipWhitespace(s, c + 1) == o
    requires ParsedValue(s, o, depth) == Expected(m.value, end, depth)
    ensures ParsedMemberFrom(s, p, depth) == ExpectedMember(m, end, depth)
  {
    hide StringAt, ParsedValue;
  }

  lemma {:induction false} SkipsColon(s: string, c: nat, format: bool)
    requires EndsInNul(s) && Matches(s, c, Colon(format))
    requires var o := c + |Colon(format)|; o < |s| && s[o] > ' '
    ensures c + 1 < |s| && SkipWhitespace(s, c + 1) == c + |Colon(format)|
  {
    if format {
      MatchesAt(s, c, Colon(format), 1);
      SkipsBlanks(s, c + 1, 1);
    }
  }

  // ----- The theorem

  // Reading back a print, with or without the demand that nothing follows.
  lemma {:induction false} PrintParseRoundTrip(v: Json, format: bool, requireNullTerminated: bool)
    requires Printable(v)
    ensures ParsedDocument(Text(v, format, 0), requireNullTerminated)
         == if Nesting(v) <= NESTING_LIMIT then Some(v) else None
  {
    hide ParsedValue, Printable, Escaped, ItemsText, MembersText;
    var t := Text(v, format, 0);
    var s := t + [NUL];
    assert s[0..|t|] == t;
    TextStart(v, format, 0);
    ValueRoundTrip(s, 0, v, format, 0, 0);
    assert SkipWhitespace(s, 0) == 0;
    assert SkipWhitespace(s, |t|) == |t|;
  }
}
