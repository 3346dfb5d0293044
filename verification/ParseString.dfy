/**
  parse_string: a first pass finds the closing quote and sizes the output, a
  second one decodes. The passes read escapes differently, so for malformed
  input they fall out of step; the output still fits.

  s is the whole input, ending in its terminator.
 */
module ParseString {
  import opened CStrings
  import opened Json
  import opened JsonText
  import opened Utf8

  ghost predicate EndsInNul(s: string) {
    s != "" && s[|s| - 1] == NUL
  }

  // ----- First pass

  // The closing quote, seen from i; a backslash takes the next character with it.
  function ClosingQuote(s: string, i: nat): (r: Option<nat>)
    requires i <= |s|
    ensures r.Some? ==> i <= r.value < |s| && s[r.value] == '"'
    decreases |s| - i
  {
    if i == |s| then None
    else if s[i] == '"' then Some(i)
    else if s[i] == '\\' then if i + 1 < |s| then ClosingQuote(s, i + 2) else None
    else ClosingQuote(s, i + 1)
  }

  // How many backslashes the pass has taken when it gets to p or beyond.
  ghost function Skips(s: string, i: nat, p: nat): nat
    requires p <= |s|
    decreases |s| - i
  {
    if i >= p then 0 else if s[i] == '\\' then 1 + Skips(s, i + 2, p) else Skips(s, i + 1, p)
  }

  // Where it stands then: at p, or one further if p is an escaped character.
  ghost function Stand(s: string, i: nat, p: nat): (j: nat)
    requires i <= p <= |s|
    ensures p <= j <= p + 1
    decreases |s| - i
  {
    if i == p then i
    else if s[i] == '\\' then if i + 2 > p then i + 2 else Stand(s, i + 2, p)
    else Stand(s, i + 1, p)
  }

  lemma {:induction false} SkipsSplit(s: string, i: nat, p: nat, q: nat)
    requires i <= p <= q <= |s|
    ensures Skips(s, i, q) == Skips(s, i, p) + Skips(s, Stand(s, i, p), q)
    decreases p - i
  {
    if i < p {
      if s[i] == '\\' {
        if i + 2 <= p {
          SkipsSplit(s, i + 2, p, q);
        }
      } else {
        SkipsSplit(s, i + 1, p, q);
      }
    }
  }

  lemma {:induction false} SkipsBound(s: string, i: nat, p: nat)
    requires i <= p + 1 && p <= |s|
    ensures Skips(s, i, p) <= (p + 1 - i) / 2
    decreases |s| + 1 - i
  {
    if i < p {
      SkipsBound(s, if s[i] == '\\' then i + 2 else i + 1, p);
    }
  }

  // ----- Second pass

  // The character that a two-character escape stands for.
  function ShortEscape(c: char): Option<char> {
    if c == 'b' then Some(BACKSPACE)
    else if c == 'f' then Some(FORM_FEED)
    else if c == 'n' then Some('\n')
    else if c == 'r' then Some('\r')
    else if c == 't' then Some('\t')
    else if c == '"' || c == '\\' || c == '/' then Some(c)
    else None
  }

  // One step of the decoder at i, with the closing quote at end: what it writes
  // and where it goes. An escape may reach one character beyond the end.
  datatype Step = Stuck | Step(output: string, next: nat)

  function DecodeStep(s: string, i: nat, end: nat): (r: Step)
    requires i < end < |s|
    ensures r.Step? ==> i < r.next <= end + 1
    ensures r.Step? ==> |r.output| <= 4 && |r.output| <= (r.next - i) / 2 + 1
    ensures r.Step? && r.next == i + 1 ==> s[i] != '\\'
    ensures r.Step? ==> |r.output| == 1 || r.next >= i + 6
  {
    if s[i] != '\\' then Step([s[i]], i + 1)
    else if s[i + 1] == 'u' then
      match ReadLiteral(s[i..end])
      case BadLiteral => Stuck
      case Literal(codepoint, length) => Step(Encode(codepoint), i + length)
    else
      match ShortEscape(s[i + 1])
      case None => Stuck
      case Some(c) => Step([c], i + 2)
  }

  function Decoded(s: string, i: nat, end: nat): Option<string>
    requires end < |s|
    decreases end + 1 - i
  {
    if i >= end then Some("")
    else
      match DecodeStep(s, i, end)
      case Stuck => None
      case Step(output, next) =>
        match Decoded(s, next, end)
        case None => None
        case Some(rest) => Some(output + rest)
  }

  // A C string ends at its first NUL, which "\u0000" can put into it.
  function UpToNul(t: string): (r: string)
    ensures NulFree(r)
    ensures NulFree(t) ==> r == t
  {
    if t == "" || t[0] == NUL then "" else [t[0]] + UpToNul(t[1..])
  }

  datatype ParsedText = NoText | ParsedText(text: string, end: nat)

  // The string literal at o: its text and the offset behind its closing quote.
  function StringAt(s: string, o: nat): (r: ParsedText)
    requires o < |s|
    ensures r.ParsedText? ==> o + 1 < r.end <= |s| && s[r.end - 1] == '"'
  {
    if s[o] != '"' then NoText
    else
      match ClosingQuote(s, o + 1)
      case None => NoText
      case Some(end) =>
        match Decoded(s, o + 1, end)
        case None => NoText
        case Some(text) => ParsedText(UpToNul(text), end + 1)
  }

  // ----- Both passes as they run

  method FindClosingQuote(s: string, start: nat) returns (end: Option<nat>, skipped: nat)
    requires start <= |s|
    ensures end == ClosingQuote(s, start)
    ensures end.Some? ==> skipped == Skips(s, start, end.value)
  {
    var i := start;
    skipped := 0;
    while i < |s| && s[i] != '"'
      invariant start <= i <= |s|
      invariant ClosingQuote(s, start) == ClosingQuote(s, i)
      invariant skipped == Skips(s, start, i) && Stand(s, start, i) == i
      decreases |s| - i
    {
      if s[i] == '\\' {
        if i + 1 >= |s| {
          return None, skipped;
        }
        SkipsSplit(s, start, i, i + 2);
        StandSplit(s, start, i, i + 2);
        skipped := skipped + 1;
        i := i + 1;
      } else {
        SkipsSplit(s, start, i, i + 1);
        StandSplit(s, start, i, i + 1);
      }
      i := i + 1;
    }
    end := if i < |s| then Some(i) else None;
  }

  lemma {:induction false} StandSplit(s: string, i: nat, p: nat, q: nat)
    requires i <= p <= q <= |s| && Stand(s, i, p) <= q
    ensures Stand(s, i, q) == Stand(s, Stand(s, i, p), q)
    decreases p - i
  {
    if i < p {
      if s[i] == '\\' {
        if i + 2 <= p {
          StandSplit(s, i + 2, p, q);
        }
      } else {
        StandSplit(s, i + 1, p, q);
      }
    }
  }

  // However far the decoder has got, what it has written fits what the first pass
  // leaves for it, with the terminator to spare.
  lemma {:induction false} OutputFits(s: string, start: nat, p: nat, end: nat, written: nat)
    requires start <= p <= end + 1 && start <= end < |s|
    requires written + Skips(s, start, p) <= p - start
    ensures written + Skips(s, start, end) <= end + 1 - start
  {
    if p <= end {
      SkipsSplit(s, start, p, end);
      SkipsBound(s, Stand(s, start, p), end);
    } else {
      SkipsSplit(s, start, end, p);
    }
  }

  // A step of the decoder never writes more than the first pass allows for.
  lemma {:induction false} StepFits(s: string, start: nat, p: nat, end: nat, written: nat)
    requires start <= p < end < |s| && DecodeStep(s, p, end).Step?
    requires written + Skips(s, start, p) <= p - start
    ensures var step := DecodeStep(s, p, end);
            written + |step.output| + Skips(s, start, step.next) <= step.next - start
  {
    var next := DecodeStep(s, p, end).next;
    SkipsSplit(s, start, p, next);
    SkipsBound(s, Stand(s, start, p), next);
  }

  // The decoding loop, into an array of the computed size.
  method DecodeInto(s: string, start: nat, end: nat, output: array<char>) returns (ok: bool, at: nat, next: nat)
    requires start <= end < |s| && output.Length + Skips(s, start, end) == end + 2 - start
    modifies output
    ensures ok <==> Decoded(s, start, end).Some?
    ensures ok ==> at < output.Length && Decoded(s, start, end) == Some(output[..at])
  {
    var i := start;
    at := 0;
    SkipsBound(s, start, end);
    PrefixedNothing(output[..at], Decoded(s, start, end));
    while i < end
      invariant start <= i <= end + 1
      invariant at + Skips(s, start, i) <= i - start && at < output.Length
      invariant Decoded(s, start, end) == Prefixed(output[..at], Decoded(s, i, end))
      decreases end + 1 - i
    {
      ghost var step, before := DecodeStep(s, i, end), output[..at];
      if step.Step? {
        StepFits(s, start, i, end, at);
        OutputFits(s, start, step.next, end, at + |step.output|);
        PrefixedStep(before, step.output, Decoded(s, step.next, end));
      }
      ok, i, at := WriteStep(s, i, end, output, at);
      if !ok {
        return false, at, i;
      }
    }
    assert output[..at] + "" == output[..at];
    ok, next := true, i;
  }

  // parse_string; every write is within the allocation.
  method ReadString(s: string, o: nat) returns (text: Option<string>, next: nat)
    requires o < |s|
    ensures text.Some? <==> StringAt(s, o).ParsedText?
    ensures text.Some? ==> ParsedText(text.value, next) == StringAt(s, o)
  {
    next := o;
    if s[o] != '"' {
      return None, next;
    }
    var closing, skipped := FindClosingQuote(s, o + 1);
    if closing.None? {
      return None, next;
    }
    var end := closing.value;
    SkipsBound(s, o + 1, end);
    var allocation := end - o - skipped;
    var output := new char[allocation + 1];
    var ok, at;
    ok, at, next := DecodeInto(s, o + 1, end, output);
    if !ok {
      return None, next;
    }
    output[at] := NUL;
    var stored := ReadBack(output, at);
    return Some(stored), end + 1;
  }

  // One round of the decoding loop.
  method WriteStep(s: string, i: nat, end: nat, output: array<char>, at: nat) returns (ok: bool, next: nat, at': nat)
    requires i < end < |s|
    requires DecodeStep(s, i, end).Step? ==> at + |DecodeStep(s, i, end).output| < output.Length
    modifies output
    ensures ok <==> DecodeStep(s, i, end).Step?
    ensures ok ==> next == DecodeStep(s, i, end).next && at' == at + |DecodeStep(s, i, end).output| < output.Length
    ensures ok ==> output[..at'] == old(output[..at]) + DecodeStep(s, i, end).output
  {
    next, at' := i, at;
    if s[i] != '\\' {
      output[at] := s[i];
      next, at' := i + 1, at + 1;
    } else if s[i + 1] == 'u' {
      var literal := ReadLiteral(s[i..end]);
      if literal.BadLiteral? {
        return false, next, at';
      }
      EncodeInto(output, at, literal.codepoint);
      next, at' := i + literal.length, at + Utf8Length(literal.codepoint);
    } else {
      var c := ShortEscape(s[i + 1]);
      if c.None? {
        return false, next, at';
      }
      output[at] := c.value;
      next, at' := i + 2, at + 1;
    }
    ok := true;
  }

  // Whatever the input, the decoded text and its terminator fit the allocation
  // that the first pass computes.
  lemma {:induction false} DecodedFits(s: string, start: nat, p: nat, end: nat, written: nat)
    requires start <= p <= end + 1 && start <= end < |s|
    requires written + Skips(s, start, p) <= p - start
    ensures Decoded(s, p, end).Some? ==> written + |Decoded(s, p, end).value| + Skips(s, start, end) <= end + 1 - start
    decreases end + 1 - p
  {
    if p >= end {
      OutputFits(s, start, p, end, written);
    } else if DecodeStep(s, p, end).Step? {
      var step := DecodeStep(s, p, end);
      StepFits(s, start, p, end, written);
      DecodedFits(s, start, step.next, end, written + |step.output|);
    }
  }

  ghost function Prefixed(before: string, rest: Option<string>): Option<string> {
    match rest
    case None => None
    case Some(t) => Some(before + t)
  }

  lemma {:induction false} PrefixedNothing(before: string, rest: Option<string>)
    requires before == ""
    ensures Prefixed(before, rest) == rest
  {
    match rest
    case None =>
    case Some(t) => assert before + t == t;
  }

  lemma {:induction false} PrefixedStep(before: string, output: string, rest: Option<string>)
    ensures Prefixed(before, Prefixed(output, rest)) == Prefixed(before + output, rest)
  {
    match rest
    case None =>
    case Some(t) => assert before + (output + t) == (before + output) + t;
  }

  // The array as the C string that later code sees.
  method ReadBack(output: array<char>, end: nat) returns (t: string)
    requires end < output.Length && output[end] == NUL
    ensures t == UpToNul(output[..end])
  {
    var n := 0;
    while output[n] != NUL
      invariant 0 <= n <= end
      invariant UpToNul(output[..end]) == output[..n] + UpToNul(output[n..end])
      decreases end - n
    {
      assert output[n..end][1..] == output[n + 1..end];
      n := n + 1;
    }
    t := output[..n];
    assert n == end || output[n..end][0] == NUL;
  }
}
