/**
  Where a literal ends for the minifier, and what it makes of one, closed or not, and of
  a comment that is not closed.
 */
module MinifyLiterals {
  import opened Json
  import opened Minify
  import opened StringGrammar

  lemma {:induction false} LiteralEndsIff(t: string, n: nat)
    ensures LiteralLength(t) == Some(n) <==> 1 <= n <= |t| && t[n - 1] == '"' && Inside(t[..n - 1])
    decreases |t|
  {
    if 1 < n <= |t| {
      var u, k := t[..n - 1], if t[0] == '\\' then 2 else 1;
      if k <= |u| {
        assert u[k..] == t[k..][..n - k - 1];
        LiteralEndsIff(t[k..], n - k);
      }
    }
  }

  // A closed literal stays as it is, wherever it stands.
  lemma {:induction false} LiteralStays(t: string, rest: string)
    requires Inside(t)
    ensures Minified("\"" + t + "\"" + rest) == Then("\"" + t + "\"", Minified(rest))
  {
    hide Minified, LiteralLength, Inside;
    var s, u := "\"" + t + "\"" + rest, t + "\"" + rest;
    assert s[1..] == u && u[..|t|] == t;
    LiteralEndsIff(u, |t| + 1);
    MinifiedHead(s);
    assert s[..|t| + 2] == "\"" + t + "\"" && s[|t| + 2..] == rest;
  }

  // With a literal that is not closed the walk leaves the text,
  lemma {:induction false} OpenLiteral(t: string)
    requires forall i :: 0 <= i < |t| && t[i] == '"' ==> !Inside(t[..i])
    ensures Minified("\"" + t) == None
  {
    hide Minified, Inside;
    var s := "\"" + t;
    assert s[1..] == t;
    MinifiedHead(s);
    if LiteralLength(t).Some? {
      LiteralEndsIff(t, LiteralLength(t).value);
    }
  }

  // and with a comment, too.
  lemma {:induction false} OpenComment(c: string)
    requires Unclosed("*" + c)
    ensures Minified("/*" + c) == None
  {
    hide Minified, Unclosed;
    var s := "/*" + c;
    MinifiedHead(s);
    assert s[1..] == "*" + c;
    NoCommentEnd("*" + c);
  }

  lemma {:induction false} NoCommentEnd(s: string)
    requires Unclosed(s)
    ensures CommentLength(s).None?
  {
    if s != "" {
      assert forall i :: 0 <= i < |s[1..]| ==> s[1..][i] == s[i + 1];
      NoCommentEnd(s[1..]);
    }
  }
}
