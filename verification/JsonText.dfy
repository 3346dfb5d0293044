/**
  The text of an item, formatted or not, as print_value lays it out (RFC 8259).
  Numbers are printed as their lexemes, strings with the escapes that print_string_ptr
  writes. The depth counts tabs, so a formatted text depends on where it stands, and an
  unformatted one does not.
 */
module JsonText {
  import opened CStrings
  import opened Json

  // ----- Strings

  const BACKSPACE: char := 8 as char
  const FORM_FEED: char := 12 as char

  function HexDigit(n: nat): char
    requires n < 16
  {
    if n < 10 then (n + '0' as int) as char else (n - 10 + 'a' as int) as char
  }

  function Hex4(n: nat): (r: string)
    requires n < 0x10000
    ensures |r| == 4
  {
    [HexDigit(n / 0x1000), HexDigit(n / 0x100 % 16), HexDigit(n / 16 % 16), HexDigit(n % 16)]
  }

  predicate NeedsEscape(c: char) {
    c < ' ' || c == '"' || c == '\\'
  }

  function EscapedChar(c: char): (r: string)
    ensures r != "" && |r| <= 6
  {
    if !NeedsEscape(c) then [c]
    else if c == '\\' then "\\\\"
    else if c == '"' then "\\\""
    else if c == BACKSPACE then "\\b"
    else if c == FORM_FEED then "\\f"
    else if c == '\n' then "\\n"
    else if c == '\r' then "\\r"
    else if c == '\t' then "\\t"
    else "\\u" + Hex4(c as int)
  }

  function Escaped(s: string): string {
    if s == "" then "" else EscapedChar(s[0]) + Escaped(s[1..])
  }

  // Every character as it is printed: the short escapes, a numeric one in lower case for
  // the other control characters, and any other as it stands.
  lemma {:induction false} EscapesSpelled(c: char)
    ensures c == '"' ==> Escaped([c]) == "\\\""
    ensures c == '\\' ==> Escaped([c]) == "\\\\"
    ensures c == 8 as char ==> Escaped([c]) == "\\b"
    ensures c == 12 as char ==> Escaped([c]) == "\\f"
    ensures c == 10 as char ==> Escaped([c]) == "\\n"
    ensures c == 13 as char ==> Escaped([c]) == "\\r"
    ensures c == 9 as char ==> Escaped([c]) == "\\t"
    ensures c < ' ' && c as int !in {8, 9, 10, 12, 13} ==>
              Escaped([c]) == "\\u00" + ["01"[c as int / 16], "0123456789abcdef"[c as int % 16]]
    ensures c >= ' ' && c != '"' && c != '\\' ==> Escaped([c]) == [c]
  {
    assert [c][1..] == "" && EscapedChar(c) + "" == EscapedChar(c);
  }

  lemma {:induction false} EscapedOneByOne(s: string, t: string)
    ensures Escaped(s + t) == Escaped(s) + Escaped(t)
  {
    if s == "" {
      assert s + t == t;
    } else {
      assert (s + t)[1..] == s[1..] + t;
      EscapedOneByOne(s[1..], t);
    }
  }

  function Quoted(s: string): string {
    "\"" + Escaped(s) + "\""
  }

  // ----- Items

  function Tabs(n: nat): (r: string)
    ensures |r| == n
  {
    seq(n, _ => '\t')
  }

  function Comma(format: bool): string {
    if format then ", " else ","
  }

  function Colon(format: bool): string {
    if format then ":\t" else ":"
  }

  function Newline(format: bool): string {
    if format then "\n" else ""
  }

  function Indent(format: bool, depth: nat): string {
    if format then Tabs(depth) else ""
  }

  // depth counts the containers around the item.
  function Text(v: Json, format: bool, depth: nat): string
    decreases v
  {
    match v
    case Invalid => ""
    case Null => "null"
    case False => "false"
    case True => "true"
    case Number(lexeme) => lexeme
    case String(text) => Quoted(text)
    case Array(items) => "[" + ItemsText(items, format, depth + 1) + "]"
    case Object(members) =>
      "{" + Newline(format) + MembersText(members, format, depth + 1) + Indent(format, depth) + "}"
  }

  function ItemsText(items: seq<Json>, format: bool, depth: nat): string
    decreases items
  {
    if items == [] then ""
    else
      var comma := if |items| > 1 then Comma(format) else "";
      Text(items[0], format, depth) + comma + ItemsText(items[1..], format, depth)
  }

  function MemberText(m: Member, format: bool, depth: nat): string
    decreases m
  {
    Indent(format, depth) + Quoted(m.key) + Colon(format) + Text(m.value, format, depth)
  }

  function MembersText(ms: seq<Member>, format: bool, depth: nat): string
    decreases ms
  {
    if ms == [] then ""
    else
      MemberText(ms[0], format, depth) + (if |ms| > 1 then "," else "") + Newline(format)
      + MembersText(ms[1..], format, depth)
  }

  lemma {:induction false} NoItemsText(format: bool, depth: nat)
    ensures ItemsText([], format, depth) == ""
  {
  }

  lemma {:induction false} NoMembersText(format: bool, depth: nat)
    ensures MembersText([], format, depth) == ""
  {
  }

  // ----- Numbers

  predicate IsDigit(c: char) {
    '0' <= c <= '9'
  }

  predicate IsNumberChar(c: char) {
    IsDigit(c) || c == '+' || c == '-' || c == 'e' || c == 'E' || c == '.'
  }

  function DigitsLength(s: string): (n: nat)
    ensures n <= |s| && (forall i :: 0 <= i < n ==> IsDigit(s[i])) && (n < |s| ==> !IsDigit(s[n]))
  {
    if s == "" || !IsDigit(s[0]) then 0 else 1 + DigitsLength(s[1..])
  }

  function SignLength(s: string): nat {
    if s != "" && (s[0] == '+' || s[0] == '-') then 1 else 0
  }

  // A sign and digits with at most one point among or around them; zero without digits.
  function MantissaLength(s: string): (n: nat)
    ensures n <= |s|
  {
    var sign := SignLength(s);
    var whole := DigitsLength(s[sign..]);
    var a := sign + whole;
    var point := a < |s| && s[a] == '.';
    var fraction := if point then DigitsLength(s[a + 1..]) else 0;
    if whole + fraction == 0 then 0 else if point then a + 1 + fraction else a
  }

  // How much of a text of number characters strtod reads in the C locale: a
  // mantissa, and an exponent if it is complete.
  function NumberLength(s: string): (n: nat)
    ensures n <= |s|
  {
    var b := MantissaLength(s);
    if b > 0 && b < |s| && (s[b] == 'e' || s[b] == 'E') then
      var c := b + 1 + SignLength(s[b + 1..]);
      var exponent := DigitsLength(s[c..]);
      if exponent == 0 then b else c + exponent
    else b
  }

  // The longest text that sprintf may produce for a number.
  const MAX_LEXEME: nat := 25

  // A number as "%g" prints it: read back whole, starting with a digit or a minus sign.
  ghost predicate IsLexeme(s: string) {
    && 0 < |s| <= MAX_LEXEME
    && (forall i :: 0 <= i < |s| ==> IsNumberChar(s[i]))
    && (s[0] == '-' || IsDigit(s[0]))
    && NumberLength(s) == |s|
  }

  // ----- Which items have a text

  // print_value refuses invalid items and over-long numbers.
  predicate Renderable(v: Json) {
    match v
    case Invalid => false
    case Number(lexeme) => |lexeme| <= MAX_LEXEME
    case Array(items) => forall i :: 0 <= i < |items| ==> Renderable(items[i])
    case Object(members) => forall i :: 0 <= i < |members| ==> Renderable(members[i].value)
    case _ => true
  }

  // All strings in the item are C strings.
  ghost predicate Terminated(v: Json) {
    match v
    case Number(lexeme) => NulFree(lexeme)
    case String(text) => NulFree(text)
    case Array(items) => forall i :: 0 <= i < |items| ==> Terminated(items[i])
    case Object(members) => forall i :: 0 <= i < |members| ==> NulFree(members[i].key) && Terminated(members[i].value)
    case _ => true
  }

  // Items as they come out of the parser: printable, with number lexemes.
  ghost predicate Printable(v: Json) {
    match v
    case Invalid => false
    case Number(lexeme) => IsLexeme(lexeme)
    case String(text) => NulFree(text)
    case Array(items) => forall i :: 0 <= i < |items| ==> Printable(items[i])
    case Object(members) => forall i :: 0 <= i < |members| ==> NulFree(members[i].key) && Printable(members[i].value)
    case _ => true
  }

  lemma {:induction false} PrintableIsRenderable(v: Json)
    requires Printable(v)
    ensures Renderable(v) && Terminated(v)
  {
    match v
    case Array(items) =>
      forall i | 0 <= i < |items|
        ensures Renderable(items[i]) && Terminated(items[i])
      {
        PrintableIsRenderable(items[i]);
      }
    case Object(members) =>
      forall i | 0 <= i < |members|
        ensures Renderable(members[i].value) && Terminated(members[i].value)
      {
        PrintableIsRenderable(members[i].value);
      }
    case _ =>
  }

  // ----- No text contains a NUL

  lemma {:induction false} EscapedNulFree(s: string)
    requires NulFree(s)
    ensures NulFree(Escaped(s))
  {
    if s != "" {
      assert s[0] in s;
      forall c | c in s[1..]
        ensures c in s
      {
      }
      EscapedNulFree(s[1..]);
      EscapedCharNulFree(s[0]);
    }
  }

  lemma {:induction false} EscapedCharNulFree(c: char)
    requires c != NUL
    ensures NulFree(EscapedChar(c))
  {
  }

  lemma {:induction false} TextNulFree(v: Json, format: bool, depth: nat)
    requires Terminated(v)
    ensures NulFree(Text(v, format, depth))
    decreases v
  {
    hide ItemsText, MembersText, Escaped, EscapedChar;
    match v
    case String(text) =>
      EscapedNulFree(text);
    case Array(items) =>
      ItemsTextNulFree(items, format, depth + 1);
    case Object(members) =>
      MembersTextNulFree(members, format, depth + 1);
    case _ =>
  }

  lemma {:induction false} ItemsTextNulFree(items: seq<Json>, format: bool, depth: nat)
    requires forall i :: 0 <= i < |items| ==> Terminated(items[i])
    ensures NulFree(ItemsText(items, format, depth))
    decreases items
  {
    if items != [] {
      TextNulFree(items[0], format, depth);
      ItemsTextNulFree(items[1..], format, depth);
    }
  }

  lemma {:induction false} MembersTextNulFree(ms: seq<Member>, format: bool, depth: nat)
    requires forall i :: 0 <= i < |ms| ==> NulFree(ms[i].key) && Terminated(ms[i].value)
    ensures NulFree(MembersText(ms, format, depth))
    decreases ms, 1
  {
    hide MemberText, Terminated;
    if ms != [] {
      var rest := ms[1..];
      assert forall i :: 0 <= i < |rest| ==> rest[i] == ms[i + 1];
      MemberTextNulFree(ms[0], format, depth);
      MembersTextNulFree(rest, format, depth);
    }
  }

  lemma {:induction false} MemberTextNulFree(m: Member, format: bool, depth: nat)
    requires NulFree(m.key) && Terminated(m.value)
    ensures NulFree(MemberText(m, format, depth))
    decreases m
  {
    hide Escaped, Text, Terminated;
    EscapedNulFree(m.key);
    TextNulFree(m.value, format, depth);
  }
}
