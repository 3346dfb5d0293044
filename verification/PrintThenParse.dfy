/**
  The printer, the minifier and the parser one after the other, each as it runs.
 */
module PrintThenParse {
  import opened CStrings
  import opened Json
  import opened JsonText
  import PrintBuffer
  import Minify
  import opened Parser
  import opened TextRoundTrip

  // What a C string in an array says: the characters in front of its terminator.
  method StringIn(a: array<char>, ghost t: string) returns (s: string)
    requires NulFree(t) && |t| < a.Length && a[..|t|] == t && a[|t|] == NUL
    ensures s == t
  {
    forall i | 0 <= i < |t|
      ensures a[i] != NUL
    {
      assert a[i] == a[..|t|][i] == t[i] && t[i] in t;
    }
    var n := 0;
    while a[n] != NUL
      invariant n <= |t|
      decreases |t| - n
    {
      n := n + 1;
    }
    s := a[..n];
  }

  // An item is printed, minified if asked to, and parsed again.
  method PrintThenParse(item: Json, format: bool, minify: bool) returns (printed: bool, back: Option<Json>)
    requires Printable(item)
    ensures printed <==> |Text(item, format, 0)| + PrintBuffer.Slack(item) <= PrintBuffer.INT_MAX
    ensures back == if printed && Nesting(item) <= 1000 then Some(item) else None
  {
    hide Text, Printable, Renderable, Terminated;
    PrintableIsRenderable(item);
    ghost var text := Text(item, format, 0);
    TextNulFree(item, format, 0);
    var buffer := PrintBuffer.Print(item, format);
    if buffer.None? {
      return false, None;
    }
    var json := buffer.value;
    if minify {
      Minify.MinifyPrinted(item, format);
      TextNulFree(item, false, 0);
      assert Minify.Unread(json, text, 0) by {
        assert forall i :: 0 <= i < |text| ==> json[i] == json[..|text|][i] == text[i];
      }
      var inside := Minify.Minify(json, text);
      text := Text(item, false, 0);
    }
    var s := StringIn(json, text);
    PrintParseRoundTrip(item, format, true);
    PrintParseRoundTrip(item, false, true);
    var end;
    back, end := ParseWithOpts(s, true);
    printed := true;
  }
}
