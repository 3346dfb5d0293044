/**
  cJSON_Minify: blanks and comments are removed in place, string literals are kept.
 */
module Minify {
  import opened CStrings
  import opened Json
  import opened JsonText

  // ----- What is left of a text

  predicate Blank(c: char) {
    c == ' ' || c == '\t' || c == '\r' || c == '\n'
  }

  function LineLength(s: string): (n: nat)
    ensures n <= |s|
    ensures s != "" && s[0] != '\n' ==> n > 0
  {
    if s == "" || s[0] == '\n' then 0 else 1 + LineLength(s[1..])
  }

  function Longer(n: nat, length: Option<nat>): Option<nat> {
    match length
    case None => None
    case Some(m) => Some(n + m)
  }

  // Up to the end of the comment, if it is closed. The search starts at the slash
  // that opens it, so its own star may close it.
  function CommentLength(s: string): (n: Option<nat>)
    ensures n.Some? ==> 2 <= n.value <= |s|
  {
    if s == "" then None
    else if s[0] == '*' && |s| > 1 && s[1] == '/' then Some(2)
    else Longer(1, CommentLength(s[1..]))
  }

  // Behind an opening quote: up to the closing one, if there is one.
  function LiteralLength(s: string): (n: Option<nat>)
    ensures n.Some? ==> 1 <= n.value <= |s|
  {
    if s == "" then None
    else if s[0] == '"' then Some(1)
    else if s[0] != '\\' then Longer(1, LiteralLength(s[1..]))
    else if |s| == 1 then None
    else Longer(2, LiteralLength(s[2..]))
  }

  function Then(t: string, rest: Option<string>): Option<string> {
    match rest
    case None => None
    case Some(r) => Some(t + r)
  }

  // None: a comment or literal is not closed, and the walk leaves the text.
  function Minified(s: string): (r: Option<string>)
    ensures r.Some? ==> |r.value| <= |s|
    decreases |s|
  {
    if s == "" then Some("")
    else if Blank(s[0]) then Minified(s[1..])
    else if s[0] == '/' && |s| > 1 && s[1] == '/' then Minified(s[LineLength(s)..])
    else if s[0] == '/' && |s| > 1 && s[1] == '*' then
      match CommentLength(s)
      case None => None
      case Some(n) => Minified(s[n..])
    else if s[0] == '"' then
      match LiteralLength(s[1..])
      case None => None
      case Some(n) => Then(s[..n + 1], Minified(s[n + 1..]))
    else Then([s[0]], Minified(s[1..]))
  }

  // ----- The walk of two pointers over one array

  // The array holds text from some position on, as it did at first.
  ghost predicate Unread(json: array<char>, text: string, read: nat)
    reads json
  {
    && read <= |text| < json.Length
    && json[|text|] == NUL
    && forall i :: read <= i < |text| ==> json[i] == text[i]
  }

  // What is read: a character of the text, or the NUL behind it.
  lemma {:induction false} Peek(json: array<char>, text: string, read: nat)
    requires NulFree(text) && Unread(json, text, read)
    ensures |text| < json.Length && (json[read] == NUL <==> read == |text|)
    ensures read < |text| ==> json[read] == text[read]
    ensures read + 1 < |text| ==> json[read + 1] == text[read + 1]
    ensures read + 1 == |text| ==> json[read + 1] == NUL
    ensures read < |text| ==> Unread(json, text, read + 1)
  {
  }

  lemma {:induction false} MinifiedHead(s: string)
    requires s != ""
    ensures Minified(s)
         == if Blank(s[0]) then Minified(s[1..])
            else if s[0] == '/' && |s| > 1 && s[1] == '/' then Minified(s[LineLength(s)..])
            else if s[0] == '/' && |s| > 1 && s[1] == '*' then
              match CommentLength(s)
              case None => None
              case Some(n) => Minified(s[n..])
            else if s[0] == '"' then
              match LiteralLength(s[1..])
              case None => None
              case Some(n) => Then(s[..n + 1], Minified(s[n + 1..]))
            else Then([s[0]], Minified(s[1..]))
  {
  }

  lemma {:induction false} MinifiedStep(text: string, read: nat)
    requires read < |text|
    ensures var s, m := text[read..], Minified(text[read..]);
            if Blank(text[read]) then m == Minified(text[read + 1..])
            else if text[read] == '/' && read + 1 < |text| && text[read + 1] == '/' then
              m == Minified(s[LineLength(s)..])
            else if text[read] == '/' && read + 1 < |text| && text[read + 1] == '*' then
              m == match CommentLength(s)
                   case None => None
                   case Some(n) => Minified(s[n..])
            else if text[read] == '"' then
              m == match LiteralLength(text[read + 1..])
                   case None => None
                   case Some(n) => Then(text[read..read + 1 + n], Minified(text[read + 1 + n..]))
            else m == Then([text[read]], Minified(text[read + 1..]))
  {
    hide LineLength, CommentLength, LiteralLength, Minified, Then, Blank;
    var s := text[read..];
    MinifiedHead(s);
    assert s[1..] == text[read + 1..];
    if text[read] == '"' && LiteralLength(s[1..]).Some? {
      var n := LiteralLength(s[1..]).value;
      assert s[..n + 1] == text[read..read + 1 + n] && s[n + 1..] == text[read + 1 + n..];
    }
  }

  // The writing pointer stays behind the reading one: what is unread is intact. The
  // walk is given up where it steps over the terminator.
  method Minify(json: array<char>, ghost text: string) returns (inside: bool)
    requires NulFree(text) && Unread(json, text, 0)
    modifies json
    ensures inside <==> Minified(text).Some?
    ensures inside ==> var m := Minified(text).value;
                       |m| <= |text| && json[..|m|] == m && json[|m|] == '\0'
    ensures json[|text| + 1..] == old(json[|text| + 1..])
  {
    hide Minified, Unread, LineLength, CommentLength, LiteralLength, NulFree, Blank, Then;
    var into: nat, read: nat := 0, 0;
    assert text[0..] == text;
    ThenEdges(Minified(text));
    Peek(json, text, 0);
    while json[read] != NUL
      invariant into <= read <= |text| < json.Length && Unread(json, text, read)
      invariant Then(json[..into], Minified(text[read..])) == Minified(text)
      invariant json[|text| + 1..] == old(json[|text| + 1..])
      decreases |text| - read
    {
      Peek(json, text, read);
      MinifiedStep(text, read);
      if Blank(json[read]) {
        read := read + 1;
      } else if json[read] == '/' && json[read + 1] == '/' {
        read := SkipLine(json, text, read);
      } else if json[read] == '/' && json[read + 1] == '*' {
        inside, read := SkipComment(json, text, read);
        if !inside {
          ThenNothing(json[..into]);
          return;
        }
      } else if json[read] == '"' {
        ghost var done, from := json[..into], read;
        inside, into, read := CopyLiteral(json, text, into, read);
        if !inside {
          ThenNothing(done);
          return;
        }
        Regroup(done, text[from..read], Minified(text[read..]));
      } else {
        ghost var done := json[..into];
        Copy(json, text, into, read);
        into, read := into + 1, read + 1;
        Regroup(done, [text[read - 1]], Minified(text[read..]));
      }
    }
    Peek(json, text, read);
    MinifiedNothing();
    ThenNothing(json[..into]);
    json[into] := NUL;
    inside := true;
  }

  lemma {:induction false} MinifiedNothing()
    ensures Minified("") == Some("")
  {
  }

  lemma {:induction false} ThenEdges(rest: Option<string>)
    ensures Then("", rest) == rest
  {
    assert rest.Some? ==> "" + rest.value == rest.value;
  }

  lemma {:induction false} ThenNothing(done: string)
    ensures Then(done, None) == None && Then(done, Some("")) == Some(done)
  {
    assert done + "" == done;
  }

  lemma {:induction false} Regroup(a: string, b: string, rest: Option<string>)
    ensures Then(a, Then(b, rest)) == Then(a + b, rest)
  {
    if rest.Some? {
      assert a + (b + rest.value) == (a + b) + rest.value;
    }
  }

  method Copy(json: array<char>, ghost text: string, into: nat, read: nat)
    requires into <= read < |text| && Unread(json, text, read)
    modifies json
    ensures Unread(json, text, read + 1)
    ensures json[..into + 1] == old(json[..into]) + [text[read]]
    ensures json[|text| + 1..] == old(json[|text| + 1..])
  {
    json[into] := json[read];
  }

  method SkipLine(json: array<char>, ghost text: string, from: nat) returns (read: nat)
    requires NulFree(text) && Unread(json, text, from)
    ensures from <= read && Unread(json, text, read) && text[read..] == text[from..][LineLength(text[from..])..]
  {
    read := from;
    while json[read] != NUL && json[read] != '\n'
      invariant from <= read && Unread(json, text, read)
      invariant read - from + LineLength(text[read..]) == LineLength(text[from..])
      decreases |text| - read
    {
      assert text[read..][1..] == text[read + 1..];
      read := read + 1;
    }
    assert read < |text| ==> text[read] in text;
  }

  method SkipComment(json: array<char>, ghost text: string, from: nat) returns (inside: bool, read: nat)
    requires NulFree(text) && Unread(json, text, from)
    ensures inside <==> CommentLength(text[from..]).Some?
    ensures inside ==> from <= read && Unread(json, text, read)
                       && text[read..] == text[from..][CommentLength(text[from..]).value..]
    ensures !inside ==> read == |text| + 2
  {
    read := from;
    while json[read] != NUL && !(json[read] == '*' && json[read + 1] == '/')
      invariant from <= read && Unread(json, text, read)
      invariant Longer(read - from, CommentLength(text[read..])) == CommentLength(text[from..])
      decreases |text| - read
    {
      assert text[read..][1..] == text[read + 1..];
      read := read + 1;
    }
    assert read < |text| ==> text[read] in text;
    inside := json[read] != NUL;
    read := read + 2;
  }

  // A backslash takes the next character along.
  lemma {:induction false} LiteralStep(text: string, read: nat)
    requires read < |text| && text[read] != '"'
    ensures var n := if text[read] == '\\' then 2 else 1;
            LiteralLength(text[read..])
            == if read + n <= |text| then Longer(n, LiteralLength(text[read + n..])) else None
  {
  }

  lemma {:induction false} LiteralEnd(text: string, read: nat)
    requires read <= |text|
    ensures read == |text| ==> LiteralLength(text[read..]) == None
    ensures read < |text| && text[read] == '"' ==> LiteralLength(text[read..]) == Some(1)
  {
  }

  // One character of a literal, or a backslash and what it takes along; that may be
  // the terminator.
  method CopyCharacter(json: array<char>, ghost text: string, start: nat, from: nat)
    returns (inside: bool, into: nat, read: nat)
    requires NulFree(text) && start <= from < |text| && Unread(json, text, from) && text[from] != '"'
    modifies json
    ensures inside ==> into <= read && from < read <= |text| && Unread(json, text, read)
                       && LiteralLength(text[from..]) == Longer(read - from, LiteralLength(text[read..]))
                       && json[..into] == old(json[..start]) + text[from..read]
    ensures !inside ==> LiteralLength(text[from..]) == None && read == |text| + 1
    ensures json[|text| + 1..] == old(json[|text| + 1..])
  {
    hide LiteralLength, Unread;
    Peek(json, text, from);
    LiteralStep(text, from);
    into, read := start, from;
    if json[read] == '\\' {
      Copy(json, text, into, read);
      into, read := into + 1, read + 1;
      Peek(json, text, read);
    }
    inside := json[read] != NUL;
    if inside {
      Copy(json, text, into, read);
    } else {
      json[into] := json[read];
    }
    into, read := into + 1, read + 1;
  }

  // In the middle of the literal whose quote is at from: what is before it and what
  // has been read of it is in place.
  ghost predicate Copying(json: array<char>, text: string, before: string, from: nat, into: nat, read: nat)
    reads json
  {
    && into <= read && from < read <= |text| < json.Length && Unread(json, text, read)
    && LiteralLength(text[from + 1..]) == Longer(read - from - 1, LiteralLength(text[read..]))
    && json[..into] == before + text[from..read]
  }

  method CopyOn(json: array<char>, ghost text: string, ghost before: string, ghost quote: nat, start: nat, from: nat)
    returns (inside: bool, into: nat, read: nat)
    requires NulFree(text) && Copying(json, text, before, quote, start, from) && from < |text| && text[from] != '"'
    modifies json
    ensures inside ==> Copying(json, text, before, quote, into, read) && from < read
    ensures !inside ==> LiteralLength(text[quote + 1..]) == None && read == |text| + 1
    ensures json[|text| + 1..] == old(json[|text| + 1..])
  {
    hide LiteralLength, Unread, NulFree;
    inside, into, read := CopyCharacter(json, text, start, from);
    if inside {
      Joined(before, text, quote, from, read);
    }
  }

  // A literal up to its closing quote; without one, the walk takes the terminator along.
  method CopyLiteral(json: array<char>, ghost text: string, start: nat, from: nat)
    returns (inside: bool, into: nat, read: nat)
    requires NulFree(text) && start <= from < |text| && Unread(json, text, from) && text[from] == '"'
    modifies json
    ensures inside <==> LiteralLength(text[from + 1..]).Some?
    ensures inside ==> into <= read && Unread(json, text, read)
                       && read == from + 1 + LiteralLength(text[from + 1..]).value
                       && json[..into] == old(json[..start]) + text[from..read]
    ensures !inside ==> read == |text| + 1
    ensures json[|text| + 1..] == old(json[|text| + 1..])
  {
    ghost var before := json[..start];
    Peek(json, text, from);
    Copy(json, text, start, from);
    inside, into, read := true, start + 1, from + 1;
    assert Copying(json, text, before, from, into, read) by {
      hide LiteralLength, Unread;
      assert text[from..from + 1] == [text[from]];
    }
    while json[read] != NUL && json[read] != '"'
      invariant Copying(json, text, before, from, into, read)
      invariant json[|text| + 1..] == old(json[|text| + 1..])
      decreases |text| - read
    {
      hide LiteralLength, Unread, NulFree;
      Peek(json, text, read);
      inside, into, read := CopyOn(json, text, before, from, into, read);
      if !inside {
        return;
      }
    }
    hide LiteralLength, Unread, NulFree;
    Peek(json, text, read);
    Joined(before, text, from, read, if read < |text| then read + 1 else read);
    inside, into, read := CopyQuote(json, text, into, read);
  }

  // The closing quote, or the terminator in its place.
  method CopyQuote(json: array<char>, ghost text: string, start: nat, from: nat)
    returns (inside: bool, into: nat, read: nat)
    requires NulFree(text) && start <= from <= |text| && Unread(json, text, from)
    requires from < |text| ==> text[from] == '"'
    modifies json
    ensures into == start + 1 && read == from + 1
    ensures inside <==> from < |text|
    ensures LiteralLength(text[from..]) == if inside then Some(1) else None
    ensures inside ==> Unread(json, text, read) && json[..into] == old(json[..start]) + text[from..read]
    ensures json[|text| + 1..] == old(json[|text| + 1..])
  {
    Peek(json, text, from);
    LiteralEnd(text, from);
    inside := json[from] != NUL;
    if inside {
      Copy(json, text, start, from);
    } else {
      json[start] := json[from];
    }
    into, read := start + 1, from + 1;
  }

  lemma {:induction false} Joined(before: string, text: string, a: nat, b: nat, c: nat)
    requires a <= b <= c <= |text|
    ensures before + text[a..b] + text[b..c] == before + text[a..c]
  {
  }

  // ----- Minifying printed text

  // Wherever t stands, u is left of it, and the rest is not affected.
  ghost predicate LeavesOf(t: string, u: string) {
    forall rest: string {:induction false} :: Minified(t + rest) == Then(u, Minified(rest))
  }

  lemma {:induction false} LeavesAt(t: string, u: string, rest: string)
    requires LeavesOf(t, u)
    ensures Minified(t + rest) == Then(u, Minified(rest))
  {
  }

  lemma {:induction false} LeavesBoth(t: string, u: string, t2: string, u2: string)
    requires LeavesOf(t, u) && LeavesOf(t2, u2)
    ensures LeavesOf(t + t2, u + u2)
  {
    hide Minified, Then;
    forall rest: string
      ensures Minified((t + t2) + rest) == Then(u + u2, Minified(rest))
    {
      LeavesBothAt(t, u, t2, u2, rest);
    }
  }

  lemma {:induction false} LeavesBothAt(t: string, u: string, t2: string, u2: string, rest: string)
    requires LeavesOf(t, u) && LeavesOf(t2, u2)
    ensures Minified((t + t2) + rest) == Then(u + u2, Minified(rest))
  {
    hide LeavesOf, Minified;
    LeavesAt(t, u, t2 + rest);
    LeavesAt(t2, u2, rest);
    assert (t + t2) + rest == t + (t2 + rest);
    Regroup(u, u2, Minified(rest));
  }

  lemma {:induction false} LeavesNothing()
    ensures LeavesOf("", "")
  {
    forall rest: string
      ensures Minified("" + rest) == Then("", Minified(rest))
    {
      assert "" + rest == rest;
      assert Minified(rest).Some? ==> "" + Minified(rest).value == Minified(rest).value;
    }
  }

  lemma {:induction false} LeavesCharacter(c: char)
    requires c != '/' && c != '"'
    ensures LeavesOf([c], if Blank(c) then "" else [c])
  {
    forall rest: string
      ensures Minified([c] + rest) == Then(if Blank(c) then "" else [c], Minified(rest))
    {
      assert ([c] + rest)[1..] == rest;
      assert Minified(rest).Some? ==> "" + Minified(rest).value == Minified(rest).value;
    }
  }

  // The blanks, outside literals and comments: these four characters go, wherever they
  // stand, and any other stays, a slash too if it opens no comment.
  lemma {:induction false} WhatGoes(c: char, rest: string)
    ensures c == ' ' || c == '\t' || c == '\r' || c == '\n' ==> Minified([c] + rest) == Minified(rest)
    ensures c != ' ' && c != '\t' && c != '\r' && c != '\n' && c != '"'
            && (c != '/' || rest == "" || (rest[0] != '/' && rest[0] != '*')) ==>
              Minified([c] + rest) == Then([c], Minified(rest))
  {
    assert ([c] + rest)[1..] == rest;
  }

  lemma {:induction false} LeavesBlanks(t: string)
    requires forall c :: c in t ==> Blank(c)
    ensures LeavesOf(t, "")
  {
    hide LeavesOf;
    if t == "" {
      LeavesNothing();
    } else {
      assert t == [t[0]] + t[1..] && t[0] in t && "" + "" == "";
      LeavesCharacter(t[0]);
      LeavesBlanks(t[1..]);
      LeavesBoth([t[0]], "", t[1..], "");
    }
  }

  ghost predicate Solid(t: string) {
    forall c :: c in t ==> c != '/' && c != '"' && !Blank(c)
  }

  lemma {:induction false} LeavesSolid(t: string)
    requires Solid(t)
    ensures LeavesOf(t, t)
  {
    hide LeavesOf;
    if t == "" {
      LeavesNothing();
    } else {
      assert t == [t[0]] + t[1..] && t[0] in t && forall c :: c in t[1..] ==> c in t;
      LeavesCharacter(t[0]);
      LeavesSolid(t[1..]);
      LeavesBoth([t[0]], [t[0]], t[1..], t[1..]);
    }
  }

  lemma {:induction false} LiteralPastEscape(c: char, rest: string)
    ensures LiteralLength(EscapedChar(c) + rest) == Longer(|EscapedChar(c)|, LiteralLength(rest))
  {
    var e := EscapedChar(c);
    var s := e + rest;
    if !NeedsEscape(c) {
      assert s[1..] == rest;
    } else {
      assert s[2..] == e[2..] + rest;
      if |e| == 2 {
        assert e[2..] + rest == rest;
      } else {
        LiteralPastHex(e[2..], rest);
      }
    }
  }

  lemma {:induction false} LiteralPastHex(h: string, rest: string)
    requires forall i :: 0 <= i < |h| ==> h[i] != '"' && h[i] != '\\'
    ensures LiteralLength(h + rest) == Longer(|h|, LiteralLength(rest))
  {
    if h == "" {
      assert h + rest == rest;
    } else {
      assert (h + rest)[1..] == h[1..] + rest;
      LiteralPastHex(h[1..], rest);
    }
  }

  lemma {:induction false} LiteralPastEscaped(t: string, rest: string)
    ensures LiteralLength(Escaped(t) + ("\"" + rest)) == Some(|Escaped(t)| + 1)
  {
    if t != "" {
      var e, more := EscapedChar(t[0]), Escaped(t[1..]);
      assert (e + more) + ("\"" + rest) == e + (more + ("\"" + rest));
      LiteralPastEscape(t[0], more + ("\"" + rest));
      LiteralPastEscaped(t[1..], rest);
    }
  }

  lemma {:induction false} LeavesQuoted(t: string)
    ensures LeavesOf(Quoted(t), Quoted(t))
  {
    hide Escaped, LiteralLength, Minified, Then;
    forall rest: string
      ensures Minified(Quoted(t) + rest) == Then(Quoted(t), Minified(rest))
    {
      LeavesQuotedAt(t, rest);
    }
  }

  lemma {:induction false} LeavesQuotedAt(t: string, rest: string)
    ensures Minified(Quoted(t) + rest) == Then(Quoted(t), Minified(rest))
  {
    hide Escaped, LiteralLength, Minified;
    var s := Quoted(t) + rest;
    LiteralPastEscaped(t, rest);
    assert s[0..] == s && s[1..] == Escaped(t) + ("\"" + rest);
    assert s[..|Quoted(t)|] == Quoted(t) && s[|Quoted(t)|..] == rest;
    MinifiedStep(s, 0);
  }

  lemma {:induction false} LeavesText(v: Json, format: bool, depth: nat, d: nat)
    requires Printable(v)
    ensures LeavesOf(Text(v, format, depth), Text(v, false, d))
    decreases v
  {
    hide NumberLength, LeavesOf;
    match v
    case Number(lexeme) =>
      LeavesSolid(lexeme);
    case String(text) =>
      LeavesQuoted(text);
    case Array(items) =>
      LeavesSolid("[");
      LeavesSolid("]");
      LeavesItemsText(items, format, depth + 1, d + 1);
      LeavesBoth("[", "[", ItemsText(items, format, depth + 1), ItemsText(items, false, d + 1));
      LeavesBoth("[" + ItemsText(items, format, depth + 1), "[" + ItemsText(items, false, d + 1), "]", "]");
    case Object(members) =>
      LeavesObjectText(members, format, depth, d);
    case _ =>
      LeavesSolid(Text(v, false, d));
  }

  lemma {:induction false} LeavesBreak(format: bool, depth: nat)
    ensures LeavesOf(Newline(format), "") && LeavesOf(Indent(format, depth), "")
    ensures LeavesOf(Comma(format), ",") && LeavesOf(Colon(format), ":")
  {
    hide LeavesOf, Minified;
    LeavesBlanks(Newline(format));
    LeavesBlanks(Indent(format, depth));
    LeavesSolid(",");
    LeavesSolid(":");
    LeavesBlanks(" ");
    LeavesBlanks("\t");
    LeavesBoth(",", ",", " ", "");
    LeavesBoth(":", ":", "\t", "");
    assert "," + " " == ", " && ":" + "\t" == ":\t" && "," + "" == "," && ":" + "" == ":";
  }

  lemma {:induction false} LeavesItemsText(items: seq<Json>, format: bool, depth: nat, d: nat)
    requires forall i :: 0 <= i < |items| ==> Printable(items[i])
    ensures LeavesOf(ItemsText(items, format, depth), ItemsText(items, false, d))
    decreases items
  {
    hide LeavesOf;
    LeavesNothing();
    if items != [] {
      var t, u := Text(items[0], format, depth), Text(items[0], false, d);
      var c, x := if |items| > 1 then Comma(format) else "", if |items| > 1 then "," else "";
      LeavesText(items[0], format, depth, d);
      LeavesBreak(format, depth);
      LeavesItemsText(items[1..], format, depth, d);
      LeavesBoth(t, u, c, x);
      LeavesBoth(t + c, u + x, ItemsText(items[1..], format, depth), ItemsText(items[1..], false, d));
    }
  }

  lemma {:induction false} LeavesObjectText(ms: seq<Member>, format: bool, depth: nat, d: nat)
    requires forall i :: 0 <= i < |ms| ==> NulFree(ms[i].key) && Printable(ms[i].value)
    ensures LeavesOf(Text(Object(ms), format, depth), Text(Object(ms), false, d))
    decreases ms, 1
  {
    hide LeavesOf;
    var n, t, u, i := Newline(format), MembersText(ms, format, depth + 1), MembersText(ms, false, d + 1),
        Indent(format, depth);
    LeavesSolid("{");
    LeavesSolid("}");
    LeavesBreak(format, depth);
    LeavesMembersText(ms, format, depth + 1, d + 1);
    LeavesBoth("{", "{", n, "");
    LeavesBoth("{" + n, "{" + "", t, u);
    LeavesBoth("{" + n + t, "{" + "" + u, i, "");
    LeavesBoth("{" + n + t + i, "{" + "" + u + "", "}", "}");
  }

  lemma {:induction false} LeavesMembersText(ms: seq<Member>, format: bool, depth: nat, d: nat)
    requires forall i :: 0 <= i < |ms| ==> NulFree(ms[i].key) && Printable(ms[i].value)
    ensures LeavesOf(MembersText(ms, format, depth), MembersText(ms, false, d))
    decreases ms, 0
  {
    hide LeavesOf;
    LeavesNothing();
    if ms != [] {
      var rest := ms[1..];
      assert forall i :: 0 <= i < |rest| ==> rest[i] == ms[i + 1];
      var t, u := MemberText(ms[0], format, depth), MemberText(ms[0], false, d);
      var c, n := if |ms| > 1 then "," else "", Newline(format);
      LeavesMemberText(ms[0], format, depth, d);
      LeavesSolid(",");
      LeavesBreak(format, depth);
      LeavesMembersText(rest, format, depth, d);
      LeavesBoth(t, u, c, c);
      LeavesBoth(t + c, u + c, n, "");
      LeavesBoth(t + c + n, u + c + "", MembersText(rest, format, depth), MembersText(rest, false, d));
    }
  }

  lemma {:induction false} LeavesMemberText(m: Member, format: bool, depth: nat, d: nat)
    requires Printable(m.value)
    ensures LeavesOf(MemberText(m, format, depth), MemberText(m, false, d))
    decreases m, 0
  {
    hide LeavesOf;
    var i, k, c := Indent(format, depth), Quoted(m.key), Colon(format);
    LeavesBreak(format, depth);
    LeavesQuoted(m.key);
    LeavesText(m.value, format, depth, d);
    LeavesBoth(i, "", k, k);
    LeavesBoth(i + k, "" + k, c, ":");
    LeavesBoth(i + k + c, "" + k + ":", Text(m.value, format, depth), Text(m.value, false, d));
  }

  // The formatted print loses its formatting, and nothing else is lost or kept.
  lemma {:induction false} MinifyPrinted(v: Json, format: bool)
    requires Printable(v)
    ensures Minified(Text(v, format, 0)) == Some(Text(v, false, 0))
  {
    var t, u := Text(v, format, 0), Text(v, false, 0);
    LeavesText(v, format, 0, 0);
    assert t + "" == t && u + "" == u;
    assert Minified(t + "") == Then(u, Minified(""));
  }

  // ----- Comments

  lemma {:induction false} LineEnds(c: string, rest: string)
    requires '\n' !in c
    ensures LineLength(c + "\n" + rest) == |c|
  {
    var s := c + "\n" + rest;
    if c != "" {
      assert s[1..] == c[1..] + "\n" + rest;
      LineEnds(c[1..], rest);
    }
  }

  // A comment to the end of the line goes, and the line end with it.
  lemma {:induction false} LeavesLineComment(c: string)
    requires '\n' !in c
    ensures LeavesOf("//" + c + "\n", "")
  {
    hide Minified, Then;
    forall rest: string
      ensures Minified(("//" + c + "\n") + rest) == Then("", Minified(rest))
    {
      LineCommentGoes(c, rest);
      ThenEdges(Minified(rest));
    }
  }

  lemma {:induction false} LineCommentGoes(c: string, rest: string)
    requires '\n' !in c
    ensures Minified(("//" + c + "\n") + rest) == Minified(rest)
  {
    hide Minified, LineLength, LiteralLength, CommentLength, Then;
    var t, b := "//" + c, "\n" + rest;
    assert (t + "\n") + rest == t + "\n" + rest;
    LineEnds(t, rest);
    MinifiedHead(t + "\n" + rest);
    BehindPrefix(t, b);
    assert b[0] == '\n' && b[1..] == rest;
    MinifiedHead(b);
    assert t + "\n" + rest == t + b;
  }

  lemma {:induction false} BehindPrefix(t: string, b: string)
    ensures (t + b)[|t|..] == b
  {
  }

  // So does one at the end of the text.
  lemma {:induction false} LastLineComment(c: string)
    requires '\n' !in c
    ensures Minified("//" + c) == Some("")
  {
    var s := "//" + c;
    LineToEnd(s);
    assert s[|s|..] == "" && s[0..] == s;
    MinifiedStep(s, 0);
  }

  lemma {:induction false} LineToEnd(s: string)
    requires '\n' !in s
    ensures LineLength(s) == |s|
  {
    if s != "" {
      assert s[0] in s;
      LineToEnd(s[1..]);
    }
  }

  // No end of a comment before the last two characters.
  ghost predicate Unclosed(c: string) {
    forall i :: 0 <= i < |c| - 1 ==> !(c[i] == '*' && c[i + 1] == '/')
  }

  lemma {:induction false} CommentEnds(c: string, rest: string)
    requires Unclosed(c)
    ensures CommentLength(c + "*/" + rest) == Some(|c| + 2)
  {
    var s := c + "*/" + rest;
    if c != "" {
      assert s[1..] == c[1..] + "*/" + rest;
      assert c[0] == '*' ==> s[1] != '/' by {
        if |c| == 1 {
          assert s[1] == '*';
        } else {
          assert s[1] == c[1];
        }
      }
      forall i | 0 <= i < |c| - 2
        ensures !(c[1..][i] == '*' && c[1..][i + 1] == '/')
      {
        assert !(c[i + 1] == '*' && c[i + 1 + 1] == '/');
      }
      CommentEnds(c[1..], rest);
    }
  }

  // An earlier end is found.
  lemma {:induction false} CommentEndsEarly(c: string, i: nat)
    requires i + 1 < |c| && c[i] == '*' && c[i + 1] == '/'
    ensures CommentLength(c).Some? && CommentLength(c).value <= i + 2
  {
    if i > 0 {
      CommentEndsEarly(c[1..], i - 1);
    }
  }

  // The whole comment is found exactly if no star in it, the one that opens it
  // included, closes it before its end.
  lemma {:induction false} CommentFoundIff(c: string, rest: string)
    ensures CommentLength("/*" + c + "*/" + rest) == Some(|c| + 4) <==> Unclosed("*" + c)
  {
    var start, s := "/*" + c, "/*" + c + "*/" + rest;
    assert s == start + "*/" + rest;
    if Unclosed("*" + c) {
      forall i | 0 <= i < |start| - 1
        ensures !(start[i] == '*' && start[i + 1] == '/')
      {
        assert i > 0 ==> start[i] == ("*" + c)[i - 1] && start[i + 1] == ("*" + c)[i];
      }
      CommentEnds(start, rest);
    } else {
      var i :| 0 <= i < |"*" + c| - 1 && ("*" + c)[i] == '*' && ("*" + c)[i + 1] == '/';
      assert s[i + 1] == start[i + 1] == ("*" + c)[i] && s[i + 2] == start[i + 2] == ("*" + c)[i + 1];
      CommentEndsEarly(s, i + 1);
    }
  }

  // The opening star closes a comment exactly if a slash follows it.
  lemma {:induction false} OpeningStarCloses(c: string)
    ensures Unclosed("*" + c) <==> Unclosed(c) && (c == "" || c[0] != '/')
  {
    var s := "*" + c;
    if Unclosed(s) {
      forall i | 0 <= i < |c| - 1
        ensures !(c[i] == '*' && c[i + 1] == '/')
      {
        assert !(s[i + 1] == '*' && s[i + 1 + 1] == '/');
      }
      assert c != "" ==> !(s[0] == '*' && s[0 + 1] == '/');
    }
    if Unclosed(c) && (c == "" || c[0] != '/') {
      forall i | 0 <= i < |s| - 1
        ensures !(s[i] == '*' && s[i + 1] == '/')
      {
        assert i > 0 ==> s[i] == c[i - 1] && s[i + 1] == c[i];
      }
    }
  }

  // A comment that is found whole goes.
  lemma {:induction false} LeavesBlockComment(c: string)
    requires Unclosed(c) && (c == "" || c[0] != '/')
    ensures LeavesOf("/*" + c + "*/", "")
  {
    hide Minified, CommentLength, Unclosed;
    OpeningStarCloses(c);
    forall rest: string
      ensures Minified(("/*" + c + "*/") + rest) == Then("", Minified(rest))
    {
      var s := ("/*" + c + "*/") + rest;
      CommentFoundIff(c, rest);
      assert s == "/*" + c + "*/" + rest && s[0..] == s;
      MinifiedStep(s, 0);
      assert s[|c| + 4..] == rest;
      assert Minified(rest).Some? ==> "" + Minified(rest).value == Minified(rest).value;
    }
  }

  // ----- Minifying again

  // Outside literals no slash is followed by a slash or star.
  ghost predicate CommentFree(m: string)
    decreases |m|
  {
    m == "" ||
    if m[0] == '"' then
      match LiteralLength(m[1..])
      case None => true
      case Some(n) => CommentFree(m[n + 1..])
    else !(m[0] == '/' && |m| > 1 && (m[1] == '/' || m[1] == '*')) && CommentFree(m[1..])
  }

  // All literals are closed, and there are no blanks outside them.
  ghost predicate Stripped(m: string)
    decreases |m|
  {
    m == "" ||
    if m[0] == '"' then
      match LiteralLength(m[1..])
      case None => false
      case Some(n) => Stripped(m[n + 1..])
    else m[0] != ' ' && m[0] != '\t' && m[0] != '\r' && m[0] != '\n' && Stripped(m[1..])
  }

  lemma {:induction false} LiteralOfPrefix(t: string, n: nat, r: string)
    requires LiteralLength(t) == Some(n)
    ensures LiteralLength(t[..n] + r) == Some(n)
    decreases |t|
  {
    if t[0] != '"' {
      var k := if t[0] == '\\' then 2 else 1;
      LiteralOfPrefix(t[k..], n - k, r);
      assert (t[..n] + r)[k..] == t[k..][..n - k] + r;
    }
  }

  lemma {:induction false} StrippedLiteral(s: string, n: nat, r: string)
    requires s != "" && s[0] == '"' && LiteralLength(s[1..]) == Some(n) && Stripped(r)
    ensures Stripped(s[..n + 1] + r)
  {
    hide LiteralLength;
    LiteralOfPrefix(s[1..], n, r);
    var m := s[..n + 1] + r;
    assert m[1..] == s[1..][..n] + r && m[n + 1..] == r;
  }

  lemma {:induction false} MinifiedIsStripped(s: string)
    requires Minified(s).Some?
    ensures Stripped(Minified(s).value)
    decreases |s|
  {
    hide LineLength, CommentLength, LiteralLength, Minified;
    MinifiedNothing();
    if s != "" {
      assert s[0..] == s;
      MinifiedStep(s, 0);
      if Blank(s[0]) {
        MinifiedIsStripped(s[1..]);
      } else if s[0] == '/' && |s| > 1 && s[1] == '/' {
        MinifiedIsStripped(s[LineLength(s)..]);
      } else if s[0] == '/' && |s| > 1 && s[1] == '*' {
        MinifiedIsStripped(s[CommentLength(s).value..]);
      } else if s[0] == '"' {
        var n := LiteralLength(s[1..]).value;
        var r := Minified(s[n + 1..]).value;
        MinifiedIsStripped(s[n + 1..]);
        StrippedLiteral(s, n, r);
      } else {
        MinifiedIsStripped(s[1..]);
        assert ([s[0]] + Minified(s[1..]).value)[1..] == Minified(s[1..]).value;
      }
    }
  }

  lemma {:induction false} StrippedStays(m: string)
    requires Stripped(m)
    ensures Minified(m) == Some(m) <==> CommentFree(m)
    decreases |m|
  {
    hide LineLength, CommentLength, LiteralLength;
    MinifiedNothing();
    if m != "" {
      if m[0] == '"' {
        var n := LiteralLength(m[1..]).value;
        StrippedStays(m[n + 1..]);
        Continues(m[..n + 1], m[n + 1..]);
        assert m == m[..n + 1] + m[n + 1..];
      } else if m[0] == '/' && |m| > 1 && (m[1] == '/' || m[1] == '*') {
        CommentGoes(m);
      } else {
        StrippedStays(m[1..]);
        Continues([m[0]], m[1..]);
        assert m == [m[0]] + m[1..];
      }
    }
  }

  lemma {:induction false} CommentGoes(m: string)
    requires |m| > 1 && m[0] == '/' && (m[1] == '/' || m[1] == '*')
    ensures Minified(m).Some? ==> |Minified(m).value| < |m|
  {
    hide Minified;
    assert m[0..] == m;
    MinifiedStep(m, 0);
  }

  lemma {:induction false} Continues(t: string, r: string)
    ensures Then(t, Minified(r)) == Some(t + r) <==> Minified(r) == Some(r)
  {
    hide Minified;
    if Then(t, Minified(r)) == Some(t + r) {
      assert (t + Minified(r).value)[|t|..] == Minified(r).value && (t + r)[|t|..] == r;
    }
  }

  // Minifying again changes nothing exactly if what is left has no comment in it.
  lemma {:induction false} MinifyTwiceIff(s: string)
    requires Minified(s).Some?
    ensures Minified(Minified(s).value) == Minified(s) <==> CommentFree(Minified(s).value)
  {
    MinifiedIsStripped(s);
    StrippedStays(Minified(s).value);
  }

  // Blanks between two slashes go, and a comment comes about.
  lemma {:induction false} MinifyIsNotIdempotent()
    ensures Minified("/ /") == Some("//") && Minified("//") == Some("")
  {
    assert Minified("") == Some("");
    assert "/"[1..] == "" && Minified("/") == Then("/", Some("")) && "/" + "" == "/";
    assert " /"[1..] == "/" && Minified(" /") == Some("/");
    assert "/ /"[1..] == " /" && Minified("/ /") == Then("/", Some("/")) && "/" + "/" == "//";
    assert LineLength("//") == 2 by {
      assert "//"[1..] == "/" && LineLength("/") == 1;
    }
    assert "//"[2..] == "";
  }

  // The star that opens a comment may close it, too.
  lemma {:induction false} ShortComment()
    ensures Minified("/*/1") == Some("1")
  {
    assert Minified("") == Some("");
    assert "1"[1..] == "" && Minified("1") == Then("1", Some("")) && "1" + "" == "1";
    assert "/*/1"[1..] == "*/1" && CommentLength("*/1") == Some(2);
    assert CommentLength("/*/1") == Some(3);
    assert "/*/1"[3..] == "1";
  }
}
