/**
  Minifying keeps what a text means: a text that the parser accepts as a whole is
  still accepted when it is minified, and gives the same tree.
 */
module MinifyParse {
  import opened CStrings
  import opened Json
  import opened JsonText
  import opened ParseString
  import opened Parser
  import opened TextRoundTrip
  import opened Minify

  // ----- Blanks between tokens

  ghost predicate Spaces(t: string) {
    forall i :: 0 <= i < |t| ==> t[i] <= ' '
  }

  // Of t minifying leaves u, and of u nothing more goes.
  ghost predicate Settles(t: string, u: string) {
    LeavesOf(t, u) && LeavesOf(u, u)
  }

  lemma {:induction false} SettlesBoth(t: string, u: string, t2: string, u2: string)
    requires Settles(t, u) && Settles(t2, u2)
    ensures Settles(t + t2, u + u2)
  {
    hide LeavesOf;
    LeavesBoth(t, u, t2, u2);
    LeavesBoth(u, u, u2, u2);
  }

  lemma {:induction false} SettlesCharacter(c: char)
    requires c != '/' && c != '"'
    ensures Settles([c], if Blank(c) then "" else [c])
  {
    hide LeavesOf;
    LeavesNothing();
    LeavesCharacter(c);
  }

  // The parser skips more characters than the minifier removes.
  lemma {:induction false} SpacesSegment(t: string) returns (w: string)
    requires Spaces(t)
    ensures Settles(t, w) && Spaces(w) && |w| <= |t|
  {
    if t == "" {
      w := "";
      LeavesNothing();
    } else {
      var c := if Blank(t[0]) then "" else [t[0]];
      var rest := SpacesSegment(t[1..]);
      SettlesCharacter(t[0]);
      SettlesBoth([t[0]], c, t[1..], rest);
      assert [t[0]] + t[1..] == t;
      w := c + rest;
    }
  }

  // From o on, w is skipped, up to a character that is not skipped or the last one.
  ghost predicate SkipsTo(s: string, o: nat, w: string) {
    Matches(s, o, w) && o + |w| < |s| && (s[o + |w|] > ' ' || o + |w| == |s| - 1)
  }

  lemma {:induction false} Skips(s: string, o: nat, w: string)
    requires EndsInNul(s) && Spaces(w) && SkipsTo(s, o, w)
    ensures SkipWhitespace(s, o) == o + |w|
    decreases |w|
  {
    if w != "" {
      MatchesAt(s, o, w, 0);
      assert w == w[..1] + w[1..];
      MatchesSplit(s, o, w[..1], w[1..]);
      Skips(s, o + 1, w[1..]);
    }
  }

  lemma {:induction false} SkippedAreSpaces(s: string, o: nat)
    requires EndsInNul(s) && o < |s|
    ensures Spaces(s[o..SkipWhitespace(s, o)])
    decreases |s| - o
  {
    if s[o] <= ' ' && o + 1 < |s| {
      SkippedAreSpaces(s, o + 1);
      var x := SkipWhitespace(s, o);
      assert s[o..x] == [s[o]] + s[o + 1..x];
    }
  }

  lemma {:induction false} BlanksSegment(s: string, o: nat) returns (w: string)
    requires EndsInNul(s) && o < |s|
    ensures Settles(s[o..SkipWhitespace(s, o)], w) && Spaces(w)
    ensures s[o] > ' ' ==> w == ""
  {
    SkippedAreSpaces(s, o);
    w := SpacesSegment(s[o..SkipWhitespace(s, o)]);
  }

  // ----- String literals

  lemma {:induction false} ClosingMoves(s: string, i: nat, q: nat, m: string, j: nat)
    requires i <= |s| && ClosingQuote(s, i) == Some(q) && Matches(m, j, s[i..q + 1])
    ensures ClosingQuote(m, j) == Some(j + q - i)
    decreases |s| - i
  {
    var t := s[i..q + 1];
    MatchesAt(m, j, t, 0);
    if s[i] != '"' {
      var n := if s[i] == '\\' then 2 else 1;
      assert t == t[..n] + s[i + n..q + 1];
      MatchesSplit(m, j, t[..n], s[i + n..q + 1]);
      ClosingMoves(s, i + n, q, m, j + n);
    }
  }

  lemma {:induction false} ClosingIsLiteral(s: string, i: nat, q: nat, rest: string)
    requires i <= |s| && ClosingQuote(s, i) == Some(q)
    ensures LiteralLength(s[i..q + 1] + rest) == Some(q + 1 - i)
    decreases |s| - i
  {
    var t := s[i..q + 1] + rest;
    if s[i] != '"' {
      var n := if s[i] == '\\' then 2 else 1;
      assert t[n..] == s[i + n..q + 1] + rest;
      ClosingIsLiteral(s, i + n, q, rest);
    }
  }

  lemma {:induction false} DecodingMoves(s: string, i: nat, end: nat, m: string, j: nat)
    requires i <= end < |s| && Matches(m, j, s[i..end + 1])
    ensures Decoded(m, j, j + end - i) == Decoded(s, i, end)
    decreases end - i
  {
    hide DecodeStep, Matches;
    if i < end {
      var t := s[i..end + 1];
      StepMoves(s, i, end, m, j);
      match DecodeStep(s, i, end)
      case Stuck =>
      case Step(_, next) =>
        if next <= end {
          assert t == t[..next - i] + s[next..end + 1];
          MatchesSplit(m, j, t[..next - i], s[next..end + 1]);
          DecodingMoves(s, next, end, m, j + next - i);
        }
    }
  }

  lemma {:induction false} StepMoves(s: string, i: nat, end: nat, m: string, j: nat)
    requires i < end < |s| && Matches(m, j, s[i..end + 1])
    ensures DecodeStep(m, j, j + end - i)
         == match DecodeStep(s, i, end)
            case Stuck => Stuck
            case Step(output, next) => Step(output, j + next - i)
  {
    var t := s[i..end + 1];
    MatchesAt(m, j, t, 0);
    MatchesAt(m, j, t, 1);
    MatchesSlice(m, j, t);
    assert m[j..j + end - i] == m[j..j + |t|][..end - i] == t[..end - i] == s[i..end];
  }

  lemma {:induction false} MatchesSlice(m: string, j: nat, t: string)
    requires Matches(m, j, t)
    ensures m[j..j + |t|] == t
  {
  }

  // A literal is kept as it stands, and read as the same text anywhere.
  lemma {:induction false} LiteralSegment(s: string, o: nat)
    requires o < |s| && StringAt(s, o).ParsedText?
    ensures Settles(s[o..StringAt(s, o).end], s[o..StringAt(s, o).end])
  {
    hide ClosingQuote, Decoded, Minified, LiteralLength, Then;
    var end := StringAt(s, o).end;
    forall rest: string
      ensures Minified(s[o..end] + rest) == Then(s[o..end], Minified(rest))
    {
      LiteralSegmentAt(s, o, rest);
    }
  }

  lemma {:induction false} LiteralSegmentAt(s: string, o: nat, rest: string)
    requires o < |s| && StringAt(s, o).ParsedText?
    ensures var t := s[o..StringAt(s, o).end]; Minified(t + rest) == Then(t, Minified(rest))
  {
    hide ClosingQuote, Decoded, Minified, LiteralLength;
    var end := StringAt(s, o).end;
    var all := s[o..end] + rest;
    ClosingIsLiteral(s, o + 1, end - 1, rest);
    assert all[0..] == all && all[1..] == s[o + 1..end] + rest;
    assert all[..end - o] == s[o..end] && all[end - o..] == rest;
    MinifiedStep(all, 0);
  }

  lemma {:induction false} LiteralMoves(s: string, o: nat, m: string, p: nat)
    requires o < |s| && StringAt(s, o).ParsedText? && Matches(m, p, s[o..StringAt(s, o).end])
    ensures StringAt(m, p) == ParsedText(StringAt(s, o).text, p + StringAt(s, o).end - o)
  {
    hide ClosingQuote, Decoded;
    var end := StringAt(s, o).end;
    var t := s[o..end];
    MatchesAt(m, p, t, 0);
    assert t == t[..1] + s[o + 1..end];
    MatchesSplit(m, p, t[..1], s[o + 1..end]);
    ClosingMoves(s, o + 1, end - 1, m, p + 1);
    DecodingMoves(s, o + 1, end - 1, m, p + 1);
  }

  // ----- Numbers

  lemma {:induction false} DigitsOfPrefix(s: string, n: nat)
    requires n <= |s|
    ensures DigitsLength(s[..n]) == if DigitsLength(s) < n then DigitsLength(s) else n
  {
    if n > 0 && IsDigit(s[0]) {
      assert s[..n][1..] == s[1..][..n - 1];
      DigitsOfPrefix(s[1..], n - 1);
    }
  }

  lemma {:induction false} MantissaOfPrefix(s: string, n: nat)
    requires 0 < MantissaLength(s) <= n <= |s|
    ensures MantissaLength(s[..n]) == MantissaLength(s)
  {
    hide DigitsLength, SignLength;
    var t, sign := s[..n], SignLength(s);
    var a := sign + DigitsLength(s[sign..]);
    SignOfPrefix(s, n, 0);
    assert s[0..] == s && t[0..] == t;
    DigitsAfter(s, n, sign);
    if a < |s| && s[a] == '.' {
      DigitsAfter(s, n, a + 1);
    }
  }

  // What is read of a text is read of itself.
  lemma {:induction false} NumberOfPrefix(s: string)
    ensures NumberLength(s[..NumberLength(s)]) == NumberLength(s)
  {
    hide DigitsLength, SignLength, MantissaLength;
    var n, b := NumberLength(s), MantissaLength(s);
    if n > 0 {
      MantissaOfPrefix(s, n);
      if b < n {
        SignOfPrefix(s, n, b + 1);
        DigitsAfter(s, n, b + 1 + SignLength(s[b + 1..]));
      }
    }
  }

  lemma {:induction false} SignOfPrefix(s: string, n: nat, a: nat)
    requires a < n <= |s|
    ensures SignLength(s[..n][a..]) == SignLength(s[a..])
  {
  }

  lemma {:induction false} DigitsAfter(s: string, n: nat, a: nat)
    requires a <= n <= |s| && a + DigitsLength(s[a..]) <= n
    ensures DigitsLength(s[..n][a..]) == DigitsLength(s[a..])
  {
    assert s[..n][a..] == s[a..][..n - a];
    DigitsOfPrefix(s[a..], n - a);
  }

  lemma {:induction false} NumberSegment(s: string, o: nat)
    requires EndsInNul(s) && o < |s| && ParsedNumber(s, o).Parsed?
    ensures var u := s[o..ParsedNumber(s, o).end];
            Settles(u, u) && u != "" && ParsedNumber(s, o).value == Number(u) && |u| <= NUMBER_BUFFER
            && NumberLength(u) == |u| && forall i :: 0 <= i < |u| ==> IsNumberChar(u[i])
  {
    hide NumberLength;
    var run := NumberCopy(s, o, NUMBER_BUFFER);
    var n := NumberLength(run);
    assert run[..n] == s[o..o + n];
    NumberOfPrefix(run);
    LeavesSolid(run[..n]);
  }

  lemma {:induction false} NumberMoves(u: string, m: string, p: nat)
    requires u != "" && |u| <= NUMBER_BUFFER && NumberLength(u) == |u|
    requires forall i :: 0 <= i < |u| ==> IsNumberChar(u[i])
    requires EndsInNul(m) && Matches(m, p, u) && p + |u| < |m| && !IsNumberChar(m[p + |u|])
    ensures ParsedNumber(m, p) == Parsed(Number(u), p + |u|)
  {
    hide NumberLength;
    RunOfLexeme(m, p, u);
    assert NumberCopy(m, p, NUMBER_BUFFER) == u;
    assert u[..|u|] == u;
  }

  // ----- Pieces that are read as something wherever they stand

  ghost predicate ReadsValue(u: string, v: Json, depth: nat) {
    && u != "" && u[0] > ' ' && u[0] != ']'
    && forall m: string, p: nat {:induction false} ::
         EndsInNul(m) && Matches(m, p, u) && p + |u| < |m| && !IsNumberChar(m[p + |u|]) ==>
           ParsedValue(m, p, depth) == Parsed(v, p + |u|)
  }

  // Behind a bracket or comma at p.
  ghost predicate ReadsItems(u: string, items: seq<Json>, depth: nat) {
    forall m: string, p: nat {:induction false} ::
      EndsInNul(m) && Matches(m, p + 1, u) && p + 1 + |u| < |m| ==>
        ParsedElements(m, p, depth) == ParsedItems(items, p + 1 + |u|)
  }

  ghost predicate ReadsMember(u: string, member: Member, depth: nat) {
    && u != "" && u[0] == '"'
    && forall m: string, p: nat {:induction false} ::
         EndsInNul(m) && Matches(m, p, u) && p + |u| < |m| && !IsNumberChar(m[p + |u|]) ==>
           ParsedMemberFrom(m, p, depth) == ParsedMember(member, p + |u|)
  }

  ghost predicate ReadsMembers(u: string, members: seq<Member>, depth: nat) {
    forall m: string, p: nat {:induction false} ::
      EndsInNul(m) && Matches(m, p + 1, u) && p + 1 + |u| < |m| ==>
        ParsedMembersFrom(m, p, depth) == ParsedMembers(members, p + 1 + |u|)
  }

  lemma {:induction false} ReadsValueAt(u: string, v: Json, depth: nat, m: string, p: nat)
    requires ReadsValue(u, v, depth) && EndsInNul(m) && Matches(m, p, u) && p + |u| < |m| && !IsNumberChar(m[p + |u|])
    ensures ParsedValue(m, p, depth) == Parsed(v, p + |u|)
  {
  }

  lemma {:induction false} ReadsItemsAt(u: string, items: seq<Json>, depth: nat, m: string, p: nat)
    requires ReadsItems(u, items, depth) && EndsInNul(m) && Matches(m, p + 1, u) && p + 1 + |u| < |m|
    ensures ParsedElements(m, p, depth) == ParsedItems(items, p + 1 + |u|)
  {
  }

  lemma {:induction false} ReadsMemberAt(u: string, member: Member, depth: nat, m: string, p: nat)
    requires ReadsMember(u, member, depth) && EndsInNul(m) && Matches(m, p, u)
    requires p + |u| < |m| && !IsNumberChar(m[p + |u|])
    ensures ParsedMemberFrom(m, p, depth) == ParsedMember(member, p + |u|)
  {
  }

  lemma {:induction false} ReadsMembersAt(u: string, members: seq<Member>, depth: nat, m: string, p: nat)
    requires ReadsMembers(u, members, depth) && EndsInNul(m) && Matches(m, p + 1, u) && p + 1 + |u| < |m|
    ensures ParsedMembersFrom(m, p, depth) == ParsedMembers(members, p + 1 + |u|)
  {
  }

  // A piece u, blanks, and a sign behind them that no number contains.
  lemma {:induction false} Signed(m: string, p: nat, u: string, x: string, c: char)
    requires EndsInNul(m) && Spaces(x) && c > ' ' && !IsNumberChar(c)
    requires Matches(m, p, u + x + [c])
    ensures Matches(m, p, u) && p + |u| < |m| && !IsNumberChar(m[p + |u|])
    ensures SkipWhitespace(m, p + |u|) == p + |u| + |x| && p + |u| + |x| < |m| && m[p + |u| + |x|] == c
  {
    hide SkipWhitespace;
    MatchesThree(m, p, u, x, [c]);
    MatchesAt(m, p + |u| + |x|, [c], 0);
    Skips(m, p + |u|, x);
    if x != "" {
      MatchesAt(m, p + |u|, x, 0);
    }
  }

  // ----- Elements

  lemma {:induction false} LastItemReads(w: string, u: string, x: string, v: Json, depth: nat)
    requires Spaces(w) && Spaces(x) && ReadsValue(u, v, depth)
    ensures ReadsItems(w + u + x + "]", [v], depth)
  {
    hide ReadsValue, ParsedElements, Matches, SkipWhitespace, ParsedValue;
    forall m: string, p: nat | EndsInNul(m) && Matches(m, p + 1, w + u + x + "]") && p + 1 + |w + u + x + "]"| < |m|
      ensures ParsedElements(m, p, depth) == ParsedItems([v], p + 1 + |w + u + x + "]"|)
    {
      ItemReadsAt(m, p, w, u, x, ']', v, depth);
      OneItemRead(m, p, v, p + 1 + |w|, p + 1 + |w| + |u|, depth);
    }
  }

  lemma {:induction false} ItemReadsAt(m: string, p: nat, w: string, u: string, x: string, c: char, v: Json, depth: nat)
    requires EndsInNul(m) && Spaces(w) && Spaces(x) && ReadsValue(u, v, depth) && (c == ']' || c == ',')
    requires Matches(m, p + 1, w + u + x + [c])
    ensures p + 1 < |m| && SkipWhitespace(m, p + 1) == p + 1 + |w|
    ensures ParsedValue(m, p + 1 + |w|, depth) == Parsed(v, p + 1 + |w| + |u|)
    ensures SkipWhitespace(m, p + 1 + |w| + |u|) == p + 1 + |w| + |u| + |x|
    ensures p + 1 + |w| + |u| + |x| < |m| && m[p + 1 + |w| + |u| + |x|] == c
  {
    hide ParsedValue, SkipWhitespace;
    assert w + u + x + [c] == w + (u + x + [c]);
    MatchesSplit(m, p + 1, w, u + x + [c]);
    Signed(m, p + 1 + |w|, u, x, c);
    MatchesAt(m, p + 1 + |w|, u, 0);
    Skips(m, p + 1, w);
    ReadsValueAt(u, v, depth, m, p + 1 + |w|);
  }

  lemma {:induction false} OneItemRead(m: string, p: nat, v: Json, a: nat, b: nat, depth: nat)
    requires EndsInNul(m) && p + 1 < |m| && SkipWhitespace(m, p + 1) == a && ParsedValue(m, a, depth) == Parsed(v, b)
    ensures var y := SkipWhitespace(m, b);
            && (m[y] == ']' ==> ParsedElements(m, p, depth) == ParsedItems([v], y + 1))
            && (m[y] == ',' && ParsedElements(m, y, depth).ParsedItems? ==>
                  ParsedElements(m, p, depth)
                  == ParsedItems([v] + ParsedElements(m, y, depth).items, ParsedElements(m, y, depth).end))
  {
    hide ParsedValue, SkipWhitespace;
  }

  lemma {:induction false} NextItemReads(w: string, u: string, x: string, rest: string, v: Json, items: seq<Json>,
                                         depth: nat)
    requires Spaces(w) && Spaces(x) && ReadsValue(u, v, depth) && ReadsItems(rest, items, depth)
    ensures ReadsItems(w + u + x + "," + rest, [v] + items, depth)
  {
    hide ReadsValue, ParsedElements, Matches, SkipWhitespace, ParsedValue;
    var all := w + u + x + "," + rest;
    forall m: string, p: nat | EndsInNul(m) && Matches(m, p + 1, all) && p + 1 + |all| < |m|
      ensures ParsedElements(m, p, depth) == ParsedItems([v] + items, p + 1 + |all|)
    {
      MatchesSplit(m, p + 1, w + u + x + ",", rest);
      ItemReadsAt(m, p, w, u, x, ',', v, depth);
      ReadsItemsAt(rest, items, depth, m, p + 1 + |w| + |u| + |x|);
      OneItemRead(m, p, v, p + 1 + |w|, p + 1 + |w| + |u|, depth);
    }
  }

  // ----- Members

  lemma {:induction false} LastMemberReads(w: string, u: string, x: string, v: Member, depth: nat)
    requires Spaces(w) && Spaces(x) && ReadsMember(u, v, depth)
    ensures ReadsMembers(w + u + x + "}", [v], depth)
  {
    hide ReadsMember, ParsedMembersFrom, Matches, SkipWhitespace, ParsedMemberFrom;
    forall m: string, p: nat | EndsInNul(m) && Matches(m, p + 1, w + u + x + "}") && p + 1 + |w + u + x + "}"| < |m|
      ensures ParsedMembersFrom(m, p, depth) == ParsedMembers([v], p + 1 + |w + u + x + "}"|)
    {
      MemberReadsAt(m, p, w, u, x, '}', v, depth);
      OneMemberRead(m, p, v, p + 1 + |w|, p + 1 + |w| + |u|, depth);
    }
  }

  lemma {:induction false} MemberReadsAt(m: string, p: nat, w: string, u: string, x: string, c: char, v: Member,
                                         depth: nat)
    requires EndsInNul(m) && Spaces(w) && Spaces(x) && ReadsMember(u, v, depth) && (c == '}' || c == ',')
    requires Matches(m, p + 1, w + u + x + [c])
    ensures p + 1 < |m| && SkipWhitespace(m, p + 1) == p + 1 + |w|
    ensures ParsedMemberFrom(m, p + 1 + |w|, depth) == ParsedMember(v, p + 1 + |w| + |u|)
    ensures SkipWhitespace(m, p + 1 + |w| + |u|) == p + 1 + |w| + |u| + |x|
    ensures p + 1 + |w| + |u| + |x| < |m| && m[p + 1 + |w| + |u| + |x|] == c
  {
    hide ParsedMemberFrom, SkipWhitespace;
    assert w + u + x + [c] == w + (u + x + [c]);
    MatchesSplit(m, p + 1, w, u + x + [c]);
    Signed(m, p + 1 + |w|, u, x, c);
    MatchesAt(m, p + 1 + |w|, u, 0);
    Skips(m, p + 1, w);
    ReadsMemberAt(u, v, depth, m, p + 1 + |w|);
  }

  lemma {:induction false} OneMemberRead(m: string, p: nat, v: Member, a: nat, b: nat, depth: nat)
    requires EndsInNul(m) && p + 1 < |m| && SkipWhitespace(m, p + 1) == a
             && ParsedMemberFrom(m, a, depth) == ParsedMember(v, b)
    ensures var y := SkipWhitespace(m, b);
            && (m[y] == '}' ==> ParsedMembersFrom(m, p, depth) == ParsedMembers([v], y + 1))
            && (m[y] == ',' && ParsedMembersFrom(m, y, depth).ParsedMembers? ==>
                  ParsedMembersFrom(m, p, depth)
                  == ParsedMembers([v] + ParsedMembersFrom(m, y, depth).members, ParsedMembersFrom(m, y, depth).end))
  {
    hide ParsedMemberFrom, SkipWhitespace;
  }

  lemma {:induction false} NextMemberReads(
    w: string, u: string, x: string, rest: string, v: Member, members: seq<Member>, depth: nat)
    requires Spaces(w) && Spaces(x) && ReadsMember(u, v, depth) && ReadsMembers(rest, members, depth)
    ensures ReadsMembers(w + u + x + "," + rest, [v] + members, depth)
  {
    hide ReadsMember, ParsedMembersFrom, Matches, SkipWhitespace, ParsedMemberFrom;
    var all := w + u + x + "," + rest;
    forall m: string, p: nat | EndsInNul(m) && Matches(m, p + 1, all) && p + 1 + |all| < |m|
      ensures ParsedMembersFrom(m, p, depth) == ParsedMembers([v] + members, p + 1 + |all|)
    {
      MatchesSplit(m, p + 1, w + u + x + ",", rest);
      MemberReadsAt(m, p, w, u, x, ',', v, depth);
      ReadsMembersAt(rest, members, depth, m, p + 1 + |w| + |u| + |x|);
      OneMemberRead(m, p, v, p + 1 + |w|, p + 1 + |w| + |u|, depth);
    }
  }

  // ----- Containers, members and scalars

  lemma {:induction false} ContainerStart(m: string, p: nat, open: char, w: string, rest: string, depth: nat)
    requires EndsInNul(m) && Spaces(w) && rest != "" && rest[0] > ' ' && Matches(m, p, [open] + w + rest)
    ensures p + 1 < |m| && m[p] == open && SkipWhitespace(m, p + 1) == p + 1 + |w|
    ensures Matches(m, p + 1 + |w|, rest) && m[p + 1 + |w|] == rest[0]
  {
    hide SkipWhitespace;
    MatchesThree(m, p, [open], w, rest);
    MatchesAt(m, p, [open], 0);
    MatchesAt(m, p + 1 + |w|, rest, 0);
    Skips(m, p + 1, w);
  }

  lemma {:induction false} ArrayReads(w: string, rest: string, items: seq<Json>, depth: nat)
    requires Spaces(w) && rest != "" && rest[0] > ' '
    requires if items == [] then rest == "]" else rest[0] != ']' && ReadsItems(rest, items, depth + 1)
    requires depth < NESTING_LIMIT
    ensures ReadsValue("[" + w + rest, Array(items), depth)
  {
    hide ParsedElements, SkipWhitespace, Matches, ReadsItems, ParsedValue;
    var all := "[" + w + rest;
    forall m: string, p: nat | EndsInNul(m) && Matches(m, p, all) && p + |all| < |m| && !IsNumberChar(m[p + |all|])
      ensures ParsedValue(m, p, depth) == Parsed(Array(items), p + |all|)
    {
      ContainerStart(m, p, '[', w, rest, depth);
      ByFirstCharacter(m, p, depth);
      if items != [] {
        ReadsItemsAt(rest, items, depth + 1, m, p + |w|);
      }
    }
  }

  lemma {:induction false} ObjectReads(w: string, rest: string, members: seq<Member>, depth: nat)
    requires Spaces(w) && rest != "" && rest[0] > ' '
    requires if members == [] then rest == "}" else rest[0] != '}' && ReadsMembers(rest, members, depth + 1)
    requires depth < NESTING_LIMIT
    ensures ReadsValue("{" + w + rest, Object(members), depth)
  {
    hide ParsedMembersFrom, SkipWhitespace, Matches, ReadsMembers, ParsedValue;
    var all := "{" + w + rest;
    forall m: string, p: nat | EndsInNul(m) && Matches(m, p, all) && p + |all| < |m| && !IsNumberChar(m[p + |all|])
      ensures ParsedValue(m, p, depth) == Parsed(Object(members), p + |all|)
    {
      ContainerStart(m, p, '{', w, rest, depth);
      ByFirstCharacter(m, p, depth);
      if members != [] {
        ReadsMembersAt(rest, members, depth + 1, m, p + |w|);
      }
    }
  }

  lemma {:induction false} WordReads(v: Json, depth: nat)
    requires v.Null? || v.False? || v.True?
    ensures ReadsValue(Text(v, false, 0), v, depth)
  {
    hide ParsedValue, Matches;
    var u := Text(v, false, 0);
    forall m: string, p: nat | EndsInNul(m) && Matches(m, p, u) && p + |u| < |m| && !IsNumberChar(m[p + |u|])
      ensures ParsedValue(m, p, depth) == Parsed(v, p + |u|)
    {
      WordRoundTrip(m, p, v, false, 0, depth);
    }
  }

  lemma {:induction false} StringReads(s: string, o: nat, depth: nat)
    requires o < |s| && StringAt(s, o).ParsedText?
    ensures ReadsValue(s[o..StringAt(s, o).end], String(StringAt(s, o).text), depth)
  {
    hide ParsedValue, Matches, ClosingQuote, Decoded;
    var u := s[o..StringAt(s, o).end];
    forall m: string, p: nat | EndsInNul(m) && Matches(m, p, u) && p + |u| < |m| && !IsNumberChar(m[p + |u|])
      ensures ParsedValue(m, p, depth) == Parsed(String(StringAt(s, o).text), p + |u|)
    {
      LiteralMoves(s, o, m, p);
      MatchesAt(m, p, u, 0);
      ByFirstCharacter(m, p, depth);
    }
  }

  lemma {:induction false} NumberReads(u: string, depth: nat)
    requires u != "" && |u| <= NUMBER_BUFFER && NumberLength(u) == |u| && (u[0] == '-' || IsDigit(u[0]))
    requires forall i :: 0 <= i < |u| ==> IsNumberChar(u[i])
    ensures ReadsValue(u, Number(u), depth)
  {
    hide ParsedValue, Matches, NumberLength;
    forall m: string, p: nat | EndsInNul(m) && Matches(m, p, u) && p + |u| < |m| && !IsNumberChar(m[p + |u|])
      ensures ParsedValue(m, p, depth) == Parsed(Number(u), p + |u|)
    {
      NumberMoves(u, m, p);
      MatchesAt(m, p, u, 0);
      ByFirstCharacter(m, p, depth);
    }
  }

  lemma {:induction false} MemberReads(s: string, o: nat, w: string, x: string, u: string, v: Json, depth: nat)
    requires o < |s| && StringAt(s, o).ParsedText? && Spaces(w) && Spaces(x) && ReadsValue(u, v, depth)
    ensures ReadsMember(s[o..StringAt(s, o).end] + w + ":" + x + u, Member(StringAt(s, o).text, v), depth)
  {
    hide ParsedMemberFrom, ParsedValue, Matches, StringAt, SkipWhitespace;
    var key := s[o..StringAt(s, o).end];
    var all := key + w + ":" + x + u;
    assert key[0] == '"' by {
      KeyStart(s, o);
    }
    forall m: string, p: nat | EndsInNul(m) && Matches(m, p, all) && p + |all| < |m| && !IsNumberChar(m[p + |all|])
      ensures ParsedMemberFrom(m, p, depth) == ParsedMember(Member(StringAt(s, o).text, v), p + |all|)
    {
      MatchesThree(m, p, key + w + ":", x, u);
      assert key + w + ":" == key + w + [':'];
      Signed(m, p, key, w, ':');
      LiteralMoves(s, o, m, p);
      var c := p + |key| + |w|;
      MatchesAt(m, c + 1 + |x|, u, 0);
      Skips(m, c + 1, x);
      ReadsValueAt(u, v, depth, m, c + 1 + |x|);
      OneMemberParsed(m, p, StringAt(s, o).text, p + |key|, c, c + 1 + |x|, v, p + |all|, depth);
    }
  }

  lemma {:induction false} KeyStart(s: string, o: nat)
    requires o < |s| && StringAt(s, o).ParsedText?
    ensures s[o] == '"'
  {
  }

  lemma {:induction false} OneMemberParsed(
    m: string, p: nat, key: string, e: nat, c: nat, o: nat, v: Json, end: nat, depth: nat)
    requires EndsInNul(m) && p < |m| && e < |m| && StringAt(m, p) == ParsedText(key, e)
    requires SkipWhitespace(m, e) == c && m[c] == ':' && c + 1 < |m| && SkipWhitespace(m, c + 1) == o
    requires ParsedValue(m, o, depth) == Parsed(v, end)
    ensures ParsedMemberFrom(m, p, depth) == ParsedMember(Member(key, v), end)
  {
    hide ParsedValue, StringAt, SkipWhitespace;
  }

  // ----- What the parser reads, minified

  lemma {:induction false} SettlesThree(s: string, a: nat, b: nat, c: nat, d: nat, u: string, v: string, w: string)
    requires a <= b <= c <= d <= |s|
    requires Settles(s[a..b], u) && Settles(s[b..c], v) && Settles(s[c..d], w)
    ensures Settles(s[a..d], u + v + w)
  {
    hide Settles;
    SettlesBoth(s[a..b], u, s[b..c], v);
    SettlesBoth(s[a..b] + s[b..c], u + v, s[c..d], w);
    assert s[a..b] + s[b..c] + s[c..d] == s[a..d];
  }

  lemma {:induction false} SettlesSign(s: string, o: nat)
    requires o < |s| && s[o] != '/' && s[o] != '"' && s[o] > ' '
    ensures Settles(s[o..o + 1], [s[o]])
  {
    SettlesCharacter(s[o]);
    assert s[o..o + 1] == [s[o]];
  }

  lemma {:induction false} ValueSegment(s: string, o: nat, depth: nat) returns (u: string)
    requires EndsInNul(s) && o < |s| && ParsedValue(s, o, depth).Parsed?
    ensures Settles(s[o..ParsedValue(s, o, depth).end], u)
    ensures ReadsValue(u, ParsedValue(s, o, depth).value, depth)
    decreases |s| - o, 2
  {
    hide Settles, LeavesOf, ReadsValue, StringAt, ParsedNumber, ParsedArray, ParsedObject;
    if Matches(s, o, "null") {
      u := WordSegment(s, o, Null, depth);
    } else if Matches(s, o, "false") {
      u := WordSegment(s, o, False, depth);
    } else if Matches(s, o, "true") {
      u := WordSegment(s, o, True, depth);
    } else if s[o] == '"' {
      u := s[o..StringAt(s, o).end];
      LiteralSegment(s, o);
      StringReads(s, o, depth);
    } else if s[o] == '-' || IsDigit(s[o]) {
      u := s[o..ParsedNumber(s, o).end];
      NumberSegment(s, o);
      NumberReads(u, depth);
    } else if s[o] == '[' {
      u := ArraySegment(s, o, depth);
    } else {
      u := ObjectSegment(s, o, depth);
    }
  }

  lemma {:induction false} WordSegment(s: string, o: nat, v: Json, depth: nat) returns (u: string)
    requires v.Null? || v.False? || v.True?
    requires Matches(s, o, Text(v, false, 0))
    ensures u == Text(v, false, 0) == s[o..o + |u|] && Settles(u, u) && ReadsValue(u, v, depth)
  {
    u := Text(v, false, 0);
    MatchesSlice(s, o, u);
    LeavesSolid(u);
    WordReads(v, depth);
  }

  lemma {:induction false} ArraySegment(s: string, o: nat, depth: nat) returns (u: string)
    requires EndsInNul(s) && o < |s| && s[o] == '[' && ParsedArray(s, o, depth).Parsed?
    ensures Settles(s[o..ParsedArray(s, o, depth).end], u)
    ensures ReadsValue(u, ParsedArray(s, o, depth).value, depth)
    decreases |s| - o, 1
  {
    hide Settles, LeavesOf, ReadsValue, ReadsItems, ParsedElements, SkipWhitespace;
    var x, end := SkipWhitespace(s, o + 1), ParsedArray(s, o, depth).end;
    var w := BlanksSegment(s, o + 1);
    var rest;
    if s[x] == ']' {
      rest := "]";
      SettlesSign(s, x);
      ArrayReads(w, rest, [], depth);
    } else {
      rest := ElementsSegment(s, x - 1, depth + 1);
      ArrayReads(w, rest, ParsedElements(s, x - 1, depth + 1).items, depth);
    }
    SettlesSign(s, o);
    u := "[" + w + rest;
    SettlesThree(s, o, o + 1, x, end, "[", w, rest);
  }

  // From behind the bracket or comma to behind the closing bracket.
  lemma {:induction false} ElementsSegment(s: string, o: nat, depth: nat) returns (u: string)
    requires EndsInNul(s) && o + 1 < |s| && ParsedElements(s, o, depth).ParsedItems?
    ensures Settles(s[o + 1..ParsedElements(s, o, depth).end], u)
    ensures ParsedElements(s, o, depth).items != [] && ReadsItems(u, ParsedElements(s, o, depth).items, depth)
    ensures o + 2 < |s|
    ensures s[o + 1] > ' ' ==> u != "" && u[0] > ' ' && u[0] != ']'
    decreases |s| - o, 0
  {
    hide Settles, LeavesOf, ReadsItems, SkipWhitespace, ParsedValue;
    var a := SkipWhitespace(s, o + 1);
    var value, b := ParsedValue(s, a, depth).value, ParsedValue(s, a, depth).end;
    var y := SkipWhitespace(s, b);
    var w := BlanksSegment(s, o + 1);
    var v := ValueSegment(s, a, depth);
    var x := BlanksSegment(s, b);
    SettlesThree(s, o + 1, a, b, y, w, v, x);
    SettlesSign(s, y);
    if s[y] == ',' {
      var rest := ElementsSegment(s, y, depth);
      SettlesThree(s, o + 1, y, y + 1, ParsedElements(s, y, depth).end, w + v + x, ",", rest);
      NextItemReads(w, v, x, rest, value, ParsedElements(s, y, depth).items, depth);
      u := w + v + x + "," + rest;
    } else {
      SettlesBoth(s[o + 1..y], w + v + x, s[y..y + 1], "]");
      assert s[o + 1..y] + s[y..y + 1] == s[o + 1..y + 1];
      LastItemReads(w, v, x, value, depth);
      u := w + v + x + "]";
    }
  }

  lemma {:induction false} ObjectSegment(s: string, o: nat, depth: nat) returns (u: string)
    requires EndsInNul(s) && o < |s| && s[o] == '{' && ParsedObject(s, o, depth).Parsed?
    ensures Settles(s[o..ParsedObject(s, o, depth).end], u)
    ensures ReadsValue(u, ParsedObject(s, o, depth).value, depth)
    decreases |s| - o, 1
  {
    hide Settles, LeavesOf, ReadsValue, ReadsMembers, ParsedMembersFrom, SkipWhitespace;
    var x, end := SkipWhitespace(s, o + 1), ParsedObject(s, o, depth).end;
    var w := BlanksSegment(s, o + 1);
    var rest;
    if s[x] == '}' {
      rest := "}";
      SettlesSign(s, x);
      ObjectReads(w, rest, [], depth);
    } else {
      rest := MembersSegment(s, x - 1, depth + 1);
      ObjectReads(w, rest, ParsedMembersFrom(s, x - 1, depth + 1).members, depth);
    }
    SettlesSign(s, o);
    u := "{" + w + rest;
    SettlesThree(s, o, o + 1, x, end, "{", w, rest);
  }

  lemma {:induction false} MembersSegment(s: string, o: nat, depth: nat) returns (u: string)
    requires EndsInNul(s) && o + 1 < |s| && ParsedMembersFrom(s, o, depth).ParsedMembers?
    ensures Settles(s[o + 1..ParsedMembersFrom(s, o, depth).end], u)
    ensures ParsedMembersFrom(s, o, depth).members != []
            && ReadsMembers(u, ParsedMembersFrom(s, o, depth).members, depth)
    ensures o + 2 < |s|
    ensures s[o + 1] > ' ' ==> u != "" && u[0] > ' ' && u[0] != '}'
    decreases |s| - o, 0
  {
    hide Settles, LeavesOf, ReadsMembers, SkipWhitespace, ParsedMemberFrom;
    var a := SkipWhitespace(s, o + 1);
    var member, b := ParsedMemberFrom(s, a, depth).member, ParsedMemberFrom(s, a, depth).end;
    var y := SkipWhitespace(s, b);
    var w := BlanksSegment(s, o + 1);
    var v := MemberSegment(s, a, depth);
    var x := BlanksSegment(s, b);
    SettlesThree(s, o + 1, a, b, y, w, v, x);
    SettlesSign(s, y);
    if s[y] == ',' {
      var rest := MembersSegment(s, y, depth);
      SettlesThree(s, o + 1, y, y + 1, ParsedMembersFrom(s, y, depth).end, w + v + x, ",", rest);
      NextMemberReads(w, v, x, rest, member, ParsedMembersFrom(s, y, depth).members, depth);
      u := w + v + x + "," + rest;
    } else {
      SettlesBoth(s[o + 1..y], w + v + x, s[y..y + 1], "}");
      assert s[o + 1..y] + s[y..y + 1] == s[o + 1..y + 1];
      LastMemberReads(w, v, x, member, depth);
      u := w + v + x + "}";
    }
  }

  lemma {:induction false} MemberSegment(s: string, o: nat, depth: nat) returns (u: string)
    requires EndsInNul(s) && o < |s| && ParsedMemberFrom(s, o, depth).ParsedMember?
    ensures Settles(s[o..ParsedMemberFrom(s, o, depth).end], u)
    ensures ReadsMember(u, ParsedMemberFrom(s, o, depth).member, depth)
    decreases |s| - o, 2
  {
    hide Settles, LeavesOf, ReadsValue, ReadsMember, SkipWhitespace, ParsedValue, StringAt;
    var b := StringAt(s, o).end;
    var colon := SkipWhitespace(s, b);
    var a := SkipWhitespace(s, colon + 1);
    var end := ParsedValue(s, a, depth).end;
    var w := BlanksSegment(s, b);
    var x := BlanksSegment(s, colon + 1);
    var v := ValueSegment(s, a, depth);
    var key := s[o..b];
    LiteralSegment(s, o);
    SettlesSign(s, colon);
    SettlesThree(s, o, b, colon, colon + 1, key, w, ":");
    SettlesThree(s, o, colon + 1, a, end, key + w + ":", x, v);
    MemberReads(s, o, w, x, v, ParsedValue(s, a, depth).value, depth);
    u := key + w + ":" + x + v;
  }

  // ----- The theorem

  // A text that is accepted as a whole has the same tree when it is minified, and
  // minifying it again changes nothing.
  lemma {:induction false} MinifyKeepsMeaning(text: string)
    requires NulFree(text) && ParsedDocument(text, true).Some?
    ensures Minified(text).Some?
    ensures ParsedDocument(Minified(text).value, true) == ParsedDocument(text, true)
    ensures Minified(Minified(text).value) == Minified(text)
  {
    var s := text + [NUL];
    var a := SkipWhitespace(s, 0);
    var value, b := ParsedValue(s, a, 0).value, ParsedValue(s, a, 0).end;
    var y := SkipWhitespace(s, b);
    assert y == |text| by {
      forall i | 0 <= i < |text|
        ensures s[i] != NUL
      {
        assert text[i] in text;
      }
    }
    var w := BlanksSegment(s, 0);
    var u := ValueSegment(s, a, 0);
    var x := BlanksSegment(s, b);
    SettlesThree(s, 0, a, b, y, w, u, x);
    assert s[0..y] == text;
    var m := w + u + x;
    LeavesAt(text, m, "");
    LeavesAt(m, m, "");
    assert text + "" == text && m + "" == m && Minified("") == Some("");
    MinifiedDocument(w, u, x, value);
  }

  lemma {:induction false} MinifiedDocument(w: string, u: string, x: string, v: Json)
    requires Spaces(w) && Spaces(x) && ReadsValue(u, v, 0)
    ensures ParsedDocument(w + u + x, true) == Some(v)
  {
    hide ParsedValue, SkipWhitespace;
    var m := w + u + x + [NUL];
    assert Matches(m, 0, w + u + x);
    MatchesThree(m, 0, w, u, x);
    MatchesAt(m, |w|, u, 0);
    Skips(m, 0, w);
    if x != "" {
      MatchesAt(m, |w| + |u|, x, 0);
    }
    ReadsValueAt(u, v, 0, m, |w|);
    Skips(m, |w| + |u|, x);
  }

  // The converse does not hold: two numbers become one.
  lemma {:induction false} MinifyAcceptsMore()
    ensures ParsedDocument("1 2", true).None?
    ensures Minified("1 2") == Some("12") && ParsedDocument("12", true) == Some(Number("12"))
  {
    hide ParsedDocument, Minified, NumberLength;
    TwoNumbersRefused();
    TwoNumbersMinified();
    TwoDigits("12");
    PrintParseRoundTrip(Number("12"), false, true);
  }

  lemma {:induction false} TwoNumbersMinified()
    ensures Minified("1 2") == Some("12")
  {
    assert "1 2"[1..] == " 2" && " 2"[1..] == "2" && "2"[1..] == "" && Minified("") == Some("");
    assert "2" + "" == "2" && "1" + "2" == "12";
    assert Minified("2") == Some("2") && Minified(" 2") == Some("2");
  }

  lemma {:induction false} TwoNumbersRefused()
    ensures ParsedDocument("1 2", true).None?
  {
    hide NumberLength, ParsedValue;
    var s := "1 2" + [NUL];
    assert NumberRun(s, 1) == 0 && NumberRun(s, 0) == 1;
    assert NumberCopy(s, 0, NUMBER_BUFFER) == "1";
    OneDigit("1");
    ByFirstCharacter(s, 0, 0);
    assert SkipWhitespace(s, 0) == 0 && SkipWhitespace(s, 1) == 2;
  }

  lemma {:induction false} OneDigit(l: string)
    requires |l| == 1 && IsDigit(l[0])
    ensures NumberLength(l) == 1
  {
    assert l[0..] == l && DigitsLength(l[1..]) == 0;
  }

  lemma {:induction false} TwoDigits(l: string)
    requires |l| == 2 && IsDigit(l[0]) && IsDigit(l[1])
    ensures NumberLength(l) == 2
  {
    assert l[0..] == l && l[1..][1..] == l[2..] && DigitsLength(l[2..]) == 0 && DigitsLength(l[1..]) == 1;
  }
}
