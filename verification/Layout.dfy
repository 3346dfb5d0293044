/**
  The layout of formatted text (print_array and print_object), told on the characters
  of the unformatted text alone.
 */
module Layout {
  import opened CStrings
  import opened Json
  import opened JsonText
  import Minify

  ghost function Repeated(n: nat): string {
    if n == 0 then "" else "\t" + Repeated(n - 1)
  }

  // What formatting makes of an unformatted text. open has the brackets around it, the
  // innermost last; first says that an opening brace is right in front of it.
  //
  // An opening brace, a comma between members, and the last member end their lines. A
  // member is indented by as many tabs as brackets are open, a closing brace by one
  // less. A tab follows a colon, and a blank a comma between elements.
  ghost function LaidOut(u: string, open: string, first: bool): string
    decreases |u|, first
  {
    if u == "" then ""
    else if first && u[0] != '}' then Repeated(|open|) + LaidOut(u, open, false)
    else if u[0] == '"' then
      match Minify.LiteralLength(u[1..])
      case None => u
      case Some(n) => u[..n + 1] + LaidOut(u[n + 1..], open, false)
    else if u[0] == '{' then "{\n" + LaidOut(u[1..], open + "{", true)
    else if u[0] == '[' then "[" + LaidOut(u[1..], open + "[", false)
    else if u[0] == '}' && open != "" then
      (if first then "" else "\n") + Repeated(|open| - 1) + "}" + LaidOut(u[1..], open[..|open| - 1], false)
    else if u[0] == ']' && open != "" then "]" + LaidOut(u[1..], open[..|open| - 1], false)
    else if u[0] == ',' then
      (if open != "" && open[|open| - 1] == '{' then ",\n" + Repeated(|open|) else ", ")
      + LaidOut(u[1..], open, false)
    else if u[0] == ':' then ":\t" + LaidOut(u[1..], open, false)
    else [u[0]] + LaidOut(u[1..], open, false)
  }

  lemma {:induction false} TabsAreRepeated(n: nat)
    ensures Tabs(n) == Repeated(n)
  {
    if n > 0 {
      TabsAreRepeated(n - 1);
      assert Tabs(n) == "\t" + Tabs(n - 1);
    }
  }

  lemma {:induction false} LaidQuoted(t: string, rest: string, open: string)
    ensures LaidOut(Quoted(t) + rest, open, false) == Quoted(t) + LaidOut(rest, open, false)
  {
    var u := Quoted(t) + rest;
    Minify.LiteralPastEscaped(t, rest);
    assert u[1..] == Escaped(t) + ("\"" + rest);
    assert u[..|Quoted(t)|] == Quoted(t) && u[|Quoted(t)|..] == rest;
  }

  lemma {:induction false} LaidPlain(t: string, rest: string, open: string)
    requires forall i :: 0 <= i < |t| ==> t[i] !in "\"{}[],:"
    ensures LaidOut(t + rest, open, false) == t + LaidOut(rest, open, false)
  {
    if t == "" {
      assert t + rest == rest;
    } else {
      var u := t + rest;
      assert u[1..] == t[1..] + rest && u[0] == t[0];
      LaidPlain(t[1..], rest, open);
      assert t == [t[0]] + t[1..];
    }
  }

  // The signs, one by one.
  lemma {:induction false} Opened(rest: string, open: string)
    ensures LaidOut("{" + rest, open, false) == "{\n" + LaidOut(rest, open + "{", true)
    ensures LaidOut("[" + rest, open, false) == "[" + LaidOut(rest, open + "[", false)
    ensures rest != "" && rest[0] != '}' ==> LaidOut(rest, open, true) == Repeated(|open|) + LaidOut(rest, open, false)
  {
    assert ("{" + rest)[1..] == rest && ("[" + rest)[1..] == rest;
  }

  lemma {:induction false} Closed(rest: string, open: string, first: bool)
    ensures LaidOut("}" + rest, open + "{", first)
         == (if first then "" else "\n") + Repeated(|open|) + "}" + LaidOut(rest, open, false)
    ensures LaidOut("]" + rest, open + "[", false) == "]" + LaidOut(rest, open, false)
  {
    assert ("}" + rest)[1..] == rest && ("]" + rest)[1..] == rest;
    assert (open + "{")[..|open|] == open && (open + "[")[..|open|] == open;
  }

  lemma {:induction false} Separated(rest: string, open: string)
    ensures LaidOut("," + rest, open + "{", false) == ",\n" + Repeated(|open| + 1) + LaidOut(rest, open + "{", false)
    ensures LaidOut("," + rest, open + "[", false) == ", " + LaidOut(rest, open + "[", false)
    ensures LaidOut(":" + rest, open, false) == ":\t" + LaidOut(rest, open, false)
  {
    assert ("," + rest)[1..] == rest && (":" + rest)[1..] == rest;
  }

  lemma {:induction false} LaidText(v: Json, d: nat, open: string, rest: string)
    requires Printable(v)
    ensures LaidOut(Text(v, false, d) + rest, open, false) == Text(v, true, |open|) + LaidOut(rest, open, false)
    decreases v
  {
    hide LaidOut, IsLexeme;
    match v
    case Null => LaidPlain("null", rest, open);
    case False => LaidPlain("false", rest, open);
    case True => LaidPlain("true", rest, open);
    case Number(lexeme) => LaidLexeme(lexeme, rest, open);
    case String(text) => LaidQuoted(text, rest, open);
    case Array(items) => LaidArray(items, d, open, rest);
    case Object(members) => LaidObject(members, d, open, rest);
  }

  lemma {:induction false} LaidLexeme(lexeme: string, rest: string, open: string)
    requires IsLexeme(lexeme)
    ensures LaidOut(lexeme + rest, open, false) == lexeme + LaidOut(rest, open, false)
  {
    LaidPlain(lexeme, rest, open);
  }

  lemma {:induction false} LaidArray(items: seq<Json>, d: nat, open: string, rest: string)
    requires forall i :: 0 <= i < |items| ==> Printable(items[i])
    ensures LaidOut(Text(Array(items), false, d) + rest, open, false)
         == Text(Array(items), true, |open|) + LaidOut(rest, open, false)
    decreases items, 1
  {
    hide LaidOut, Printable;
    LaidItems(items, d + 1, open, "]" + rest);
    Opened(ItemsText(items, false, d + 1) + ("]" + rest), open);
    Closed(rest, open, false);
    assert Text(Array(items), false, d) + rest == "[" + (ItemsText(items, false, d + 1) + ("]" + rest));
  }

  lemma {:induction false} LaidItems(items: seq<Json>, d: nat, open: string, rest: string)
    requires forall i :: 0 <= i < |items| ==> Printable(items[i])
    ensures LaidOut(ItemsText(items, false, d) + rest, open + "[", false)
         == ItemsText(items, true, |open| + 1) + LaidOut(rest, open + "[", false)
    decreases items, 0
  {
    hide LaidOut, Printable, Text;
    var inside := open + "[";
    if items == [] {
      assert "" + rest == rest;
    } else {
      var t, tail := Text(items[0], false, d), ItemsText(items[1..], false, d);
      LaidItems(items[1..], d, open, rest);
      if |items| == 1 {
        LaidText(items[0], d, inside, rest);
        assert t + "" + "" + rest == t + rest;
      } else {
        LaidText(items[0], d, inside, "," + (tail + rest));
        Separated(tail + rest, open);
        assert t + "," + tail + rest == t + ("," + (tail + rest));
      }
    }
  }

  lemma {:induction false} LaidMember(m: Member, d: nat, open: string, rest: string)
    requires Printable(m.value)
    ensures Repeated(|open|) + LaidOut(MemberText(m, false, d) + rest, open, false)
         == MemberText(m, true, |open|) + LaidOut(rest, open, false)
    decreases m
  {
    hide LaidOut, Printable, Text, Quoted, Repeated, Tabs, MemberText;
    TabsAreRepeated(|open|);
    var k, t := Quoted(m.key), Text(m.value, false, d);
    LaidQuoted(m.key, ":" + (t + rest), open);
    Separated(t + rest, open);
    LaidText(m.value, d, open, rest);
    MemberLine(m, d, rest);
    MemberLaid(m, |open|, LaidOut(rest, open, false));
  }

  lemma {:induction false} MemberLine(m: Member, d: nat, rest: string)
    ensures MemberText(m, false, d) + rest == Quoted(m.key) + (":" + (Text(m.value, false, d) + rest))
  {
    hide Text, Quoted;
  }

  lemma {:induction false} MemberLaid(m: Member, d: nat, rest: string)
    ensures Tabs(d) + (Quoted(m.key) + (":\t" + (Text(m.value, true, d) + rest))) == MemberText(m, true, d) + rest
  {
    hide Text, Quoted;
  }

  lemma {:induction false} MembersParts(ms: seq<Member>, format: bool, d: nat)
    requires ms != []
    ensures MembersText(ms, format, d)
         == if |ms| == 1 then MemberText(ms[0], format, d) + Newline(format)
            else MemberText(ms[0], format, d) + "," + Newline(format) + MembersText(ms[1..], format, d)
  {
    if |ms| == 1 {
      NoMembersText(format, d);
    }
  }

  lemma {:induction false} LaidMembers(ms: seq<Member>, d: nat, open: string, rest: string)
    requires ms != [] && forall i :: 0 <= i < |ms| ==> Printable(ms[i].value)
    ensures Repeated(|open| + 1) + LaidOut(MembersText(ms, false, d) + ("}" + rest), open + "{", false)
         == MembersText(ms, true, |open| + 1) + Repeated(|open|) + "}" + LaidOut(rest, open, false)
    decreases ms, 0
  {
    hide LaidOut, Printable, MemberText, MembersText, Repeated;
    var inside, t, m := open + "{", MemberText(ms[0], false, d), MemberText(ms[0], true, |open| + 1);
    MembersParts(ms, false, d);
    MembersParts(ms, true, |open| + 1);
    if |ms| == 1 {
      assert MembersText(ms, false, d) + ("}" + rest) == t + ("}" + rest);
      LaidMember(ms[0], d, inside, "}" + rest);
      Closed(rest, open, false);
      LastLine(m, Repeated(|open|), LaidOut(rest, open, false));
    } else {
      var tail := MembersText(ms[1..], false, d) + ("}" + rest);
      assert MembersText(ms, false, d) + ("}" + rest) == t + ("," + tail);
      LaidMember(ms[0], d, inside, "," + tail);
      Separated(tail, open);
      LaidMembers(ms[1..], d, open, rest);
      AnotherLine(m, Repeated(|open| + 1), LaidOut(tail, inside, false), MembersText(ms[1..], true, |open| + 1),
                  Repeated(|open|) + "}" + LaidOut(rest, open, false));
    }
  }

  lemma {:induction false} LastLine(m: string, tabs: string, rest: string)
    ensures m + ("\n" + tabs + "}" + rest) == m + "\n" + tabs + "}" + rest
  {
  }

  lemma {:induction false} AnotherLine(m: string, tabs: string, laid: string, more: string, rest: string)
    requires tabs + laid == more + rest
    ensures m + (",\n" + tabs + laid) == (m + "," + "\n" + more) + rest
  {
    assert m + (",\n" + tabs + laid) == m + ",\n" + (tabs + laid);
  }

  lemma {:induction false} LaidObject(ms: seq<Member>, d: nat, open: string, rest: string)
    requires forall i :: 0 <= i < |ms| ==> NulFree(ms[i].key) && Printable(ms[i].value)
    ensures LaidOut(Text(Object(ms), false, d) + rest, open, false)
         == Text(Object(ms), true, |open|) + LaidOut(rest, open, false)
    decreases ms, 1
  {
    hide LaidOut, Printable, MembersText, Text, Repeated, Tabs;
    TabsAreRepeated(|open|);
    ObjectLines(ms, d, |open|, rest, LaidOut(rest, open, false));
    var inner := MembersText(ms, false, d + 1) + ("}" + rest);
    Opened(inner, open);
    if ms == [] {
      NoMembersText(false, d + 1);
      NoMembersText(true, |open| + 1);
      Closed(rest, open, true);
      assert inner == "}" + rest;
    } else {
      MembersStartQuoted(ms, d + 1);
      Opened(inner, open + "{");
      LaidMembers(ms, d + 1, open, rest);
    }
  }

  lemma {:induction false} ObjectLines(ms: seq<Member>, d: nat, k: nat, rest: string, laid: string)
    ensures Text(Object(ms), false, d) + rest == "{" + (MembersText(ms, false, d + 1) + ("}" + rest))
    ensures Text(Object(ms), true, k) + laid == "{\n" + (MembersText(ms, true, k + 1) + Tabs(k) + "}" + laid)
  {
    hide MembersText, Tabs;
  }

  lemma {:induction false} MembersStartQuoted(ms: seq<Member>, d: nat)
    requires ms != []
    ensures MembersText(ms, false, d) != "" && MembersText(ms, false, d)[0] == '"'
  {
  }

  // The formatted print is the unformatted one, laid out.
  lemma {:induction false} FormattedIsLaidOut(v: Json)
    requires Printable(v)
    ensures Text(v, true, 0) == LaidOut(Text(v, false, 0), "", false)
  {
    var u := Text(v, false, 0);
    LaidText(v, 0, "", "");
    assert u + "" == u && LaidOut("", "", false) == "";
  }
}
