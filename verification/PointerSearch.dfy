/**
  Building pointers: escaping keys, undoing it in place, and the search for a node.
 */
module PointerSearch {
  import opened CStrings
  import opened Json
  import opened Pointers

  // Section 3 of RFC 6901.
  function Escape(s: string): string {
    if s == "" then ""
    else (if s[0] == '~' then "~0" else if s[0] == '/' then "~1" else [s[0]]) + Escape(s[1..])
  }

  method PointerEncodedLength(s: string) returns (length: nat)
    ensures length == |Escape(s)|
  {
    length := 0;
    var i := 0;
    while i < |s|
      invariant 0 <= i <= |s|
      invariant |Escape(s)| == length + |Escape(s[i..])|
    {
      if s[i] == '~' || s[i] == '/' {
        length := length + 1;
      }
      i, length := i + 1, length + 1;
    }
  }

  // What encode_string_as_pointer makes of the memory it writes to. For '/' it leaves
  // a character as it was.
  function EncodedOver(s: string, memory: string): (r: string)
    requires |memory| == |Escape(s)|
    ensures |r| == |memory|
  {
    if s == "" then ""
    else if s[0] == '/' then [memory[0], '1'] + EncodedOver(s[1..], memory[2..])
    else if s[0] == '~' then "~1" + EncodedOver(s[1..], memory[2..])
    else [s[0]] + EncodedOver(s[1..], memory[1..])
  }

  // The same for a string without '/', which does not depend on the memory.
  function Encoded(s: string): (r: string)
    requires '/' !in s
    ensures '/' !in r
    ensures |r| == |Escape(s)|
  {
    if s == "" then ""
    else (if s[0] == '~' then "~1" else [s[0]]) + Encoded(s[1..])
  }

  lemma {:induction false} EncodedAnywhere(s: string, memory: string)
    requires '/' !in s && |memory| == |Escape(s)|
    ensures EncodedOver(s, memory) == Encoded(s)
  {
    if s != "" {
      EncodedAnywhere(s[1..], memory[if s[0] == '~' then 2 else 1..]);
    }
  }

  // The characters of the escapes for '/' that are never written hold '~' already.
  ghost predicate HoldsTildes(s: string, memory: string)
    requires |memory| == |Escape(s)|
  {
    s == "" ||
    if s[0] == '/' then memory[0] == '~' && HoldsTildes(s[1..], memory[2..])
    else if s[0] == '~' then HoldsTildes(s[1..], memory[2..])
    else HoldsTildes(s[1..], memory[1..])
  }

  // Over given memory the escape is right exactly if there is no '~' in the string
  // and the memory holds what is not written.
  lemma {:induction false} EncodedOverIsRightIff(s: string, memory: string)
    requires |memory| == |Escape(s)|
    ensures EncodedOver(s, memory) == Escape(s) <==> '~' !in s && HoldsTildes(s, memory)
  {
    if s != "" {
      var n := if s[0] == '/' || s[0] == '~' then 2 else 1;
      EncodedOverIsRightIff(s[1..], memory[n..]);
      var e, r := Escape(s), EncodedOver(s, memory);
      assert e[n..] == Escape(s[1..]) && r[n..] == EncodedOver(s[1..], memory[n..]);
      assert e == e[..n] + e[n..] && r == r[..n] + r[n..];
      assert '~' in s <==> s[0] == '~' || '~' in s[1..];
      assert s[0] == '~' ==> e[1] != r[1];
      assert s[0] == '/' ==> e[0] == '~' && r[0] == memory[0] && e[1] == r[1];
    }
  }

  // It is right over any memory exactly if there is nothing to escape.
  lemma {:induction false} EncodedAlwaysRightIff(s: string)
    ensures (forall memory: string {:induction false} ::
               |memory| == |Escape(s)| ==> EncodedOver(s, memory) == Escape(s))
       <==> '~' !in s && '/' !in s
  {
    if '~' !in s && '/' !in s {
      forall memory: string | |memory| == |Escape(s)|
        ensures EncodedOver(s, memory) == Escape(s)
      {
        EncodedAnywhere(s, memory);
        PlainEncoded(s);
      }
    } else {
      var memory := seq(|Escape(s)|, _ => '0');
      EncodedOverIsRightIff(s, memory);
      if '/' in s {
        NoTildes(s, memory);
      }
      assert EncodedOver(s, memory) != Escape(s);
    }
  }

  lemma {:induction false} NoTildes(s: string, memory: string)
    requires '/' in s && |memory| == |Escape(s)| && '~' !in memory
    ensures !HoldsTildes(s, memory)
  {
    if s[0] != '/' {
      NoTildes(s[1..], memory[if s[0] == '~' then 2 else 1..]);
    }
  }

  // What is made of the memory for one character.
  function EncodedChar(c: char, memory: char): string {
    if c == '/' then [memory, '1'] else if c == '~' then "~1" else [c]
  }

  lemma {:induction false} EncodedStep(s: string, memory: string)
    requires s != "" && |memory| == |Escape(s)|
    ensures var n := |EncodedChar(s[0], memory[0])|;
            && n <= |memory| && |memory[n..]| == |Escape(s[1..])|
            && EncodedOver(s, memory) == EncodedChar(s[0], memory[0]) + EncodedOver(s[1..], memory[n..])
  {
  }

  method EncodeCharacter(destination: array<char>, at: nat, c: char) returns (next: nat)
    requires at < destination.Length && at + |EncodedChar(c, destination[at])| <= destination.Length
    modifies destination
    ensures next == at + |EncodedChar(c, old(destination[at]))| <= destination.Length
    ensures destination[..next] == old(destination[..at]) + EncodedChar(c, old(destination[at]))
    ensures destination[next..] == old(destination[next..])
  {
    next := at;
    if c == '/' {
      destination[next + 1] := '1';
      next := next + 1;
    } else if c == '~' {
      destination[next] := '~';
      destination[next + 1] := '1';
      next := next + 1;
    } else {
      destination[next] := c;
    }
    next := next + 1;
  }

  // encode_string_as_pointer
  method EncodeStringAsPointer(destination: array<char>, at: nat, source: string)
    requires at + |Escape(source)| < destination.Length
    modifies destination
    ensures var end := at + |Escape(source)|;
            && destination[..end] == old(destination[..at]) + EncodedOver(source, old(destination[at..end]))
            && destination[end] == '\0' && destination[end + 1..] == old(destination[end + 1..])
  {
    hide EncodedOver, Escape, EncodedChar;
    ghost var was, end := destination[..], at + |Escape(source)|;
    ghost var goal := was[..at] + EncodedOver(source, was[at..end]);
    var i, to := 0, at;
    assert source[0..] == source;
    while i < |source|
      invariant 0 <= i <= |source| && at <= to && to + |Escape(source[i..])| == end
      invariant destination[to..] == was[to..]
      invariant destination[..to] + EncodedOver(source[i..], was[to..end]) == goal
    {
      ghost var before, done := to, destination[..to];
      EncodedFurther(source, i, was, to, end);
      assert destination[to] == destination[to..][0] == was[to..][0] == was[to];
      to := EncodeCharacter(destination, to, source[i]);
      assert was[before..][to - before..] == was[to..];
      Regroup(done, EncodedChar(source[i], was[before]), EncodedOver(source[i + 1..], was[to..end]));
      i := i + 1;
    }
    assert source[i..] == "";
    EncodedNothing();
    ghost var text := destination[..to];
    assert text + "" == text && was[to..end] == "";
    destination[to] := NUL;
    assert destination[..to] == text;
    assert destination[to + 1..] == was[to..][1..];
  }

  lemma {:induction false} EncodedFurther(s: string, i: nat, memory: string, to: nat, end: nat)
    requires i < |s| && to <= end <= |memory| && to + |Escape(s[i..])| == end
    ensures to < end
    ensures var next := to + |EncodedChar(s[i], memory[to])|;
            && next + |Escape(s[i + 1..])| == end
            && EncodedOver(s[i..], memory[to..end])
               == EncodedChar(s[i], memory[to]) + EncodedOver(s[i + 1..], memory[next..end])
  {
    assert s[i..][1..] == s[i + 1..];
    EncodedStep(s[i..], memory[to..end]);
    var n := |EncodedChar(s[i], memory[to])|;
    assert memory[to..end][n..] == memory[to + n..end];
  }

  lemma {:induction false} EncodedNothing()
    ensures Escape("") == "" && EncodedOver("", "") == ""
  {
  }

  // The key in a path of its own.
  method EncodedKey(key: string) returns (encoded: string)
    requires '/' !in key
    ensures encoded == Encoded(key)
  {
    var length := PointerEncodedLength(key);
    var destination := new char[length + 1];
    EncodedAnywhere(key, destination[0..length]);
    EncodeStringAsPointer(destination, 0, key);
    encoded := destination[..length];
  }

  // A '~' in a key comes out as the escape for '/'.
  function Slashed(s: string): (r: string)
    ensures |r| == |s|
    ensures forall i :: 0 <= i < |s| ==> r[i] == if s[i] == '~' then '/' else s[i]
  {
    seq(|s|, i requires 0 <= i < |s| => if s[i] == '~' then '/' else s[i])
  }

  lemma {:induction false} UnescapeEncoded(s: string)
    requires '/' !in s
    ensures Unescape(Encoded(s)) == Some(Slashed(s))
  {
    if s != "" {
      hide Unescape, Encoded, Slashed;
      UnescapeEncoded(s[1..]);
      var c := if s[0] == '~' then '/' else s[0];
      EncodedHead(s);
      UnescapeHead(Encoded(s), c, Encoded(s[1..]));
      SlashedHead(s);
    }
  }

  lemma {:induction false} SlashedHead(s: string)
    requires s != ""
    ensures Slashed(s) == [if s[0] == '~' then '/' else s[0]] + Slashed(s[1..])
  {
  }

  lemma {:induction false} EncodedHead(s: string)
    requires '/' !in s && s != ""
    ensures Encoded(s) == (if s[0] == '~' then "~1" else [s[0]]) + Encoded(s[1..])
  {
  }

  lemma {:induction false} UnescapeHead(e: string, c: char, rest: string)
    requires (c == '/' && e == "~1" + rest) || (c != '~' && c != '/' && e == [c] + rest)
    ensures Unescape(e) == Prepend(c, Unescape(rest))
  {
    assert e[if c == '/' then 2 else 1..] == rest;
  }

  // Escaping is right exactly when there is nothing to escape.
  lemma {:induction false} EncodedIsRightIffPlain(s: string)
    requires '/' !in s
    ensures Encoded(s) == Escape(s) <==> '~' !in s
    ensures Unescape(Encoded(s)) == Some(s) <==> '~' !in s
    ensures '~' !in s ==> Encoded(s) == s
  {
    UnescapeEncoded(s);
    UnescapeEscape(s);
    if '~' in s {
      var i :| 0 <= i < |s| && s[i] == '~';
      assert Slashed(s)[i] != s[i];
    } else {
      assert Slashed(s) == s;
      PlainEncoded(s);
    }
  }

  lemma {:induction false} PlainEncoded(s: string)
    requires '/' !in s && '~' !in s
    ensures Encoded(s) == s && Escape(s) == s
  {
    if s != "" {
      PlainEncoded(s[1..]);
      assert s == [s[0]] + s[1..];
    }
  }

  lemma {:induction false} UnescapeEscape(s: string)
    ensures Unescape(Escape(s)) == Some(s)
  {
    if s != "" {
      UnescapeEscape(s[1..]);
      var e := Escape(s);
      assert e[if s[0] == '~' || s[0] == '/' then 2 else 1..] == Escape(s[1..]);
      assert s == [s[0]] + s[1..];
    }
  }

  // ----- Undoing the escapes in place

  // decode_pointer_inplace: b is the buffer, to is where the next decoded
  // character goes, from is the next one to read. Characters that are not
  // escaped are never moved.
  function DecodedFrom(b: string, to: nat, from: nat): string
    requires to <= from <= |b|
    decreases |b| - from
  {
    if from == |b| then b[..to]
    else if b[from] == '~' then
      if CharAt(b, from + 1) == '0' then DecodedFrom(b[to := '~'], to + 1, from + 2)
      else if CharAt(b, from + 1) == '1' then DecodedFrom(b[to + 1 := '/'], to + 1, from + 2)
      else b
    else DecodedFrom(b, to + 1, from + 1)
  }

  function Decoded(s: string): string {
    DecodedFrom(s, 0, 0)
  }

  lemma {:induction false} DecodedPlain(b: string, from: nat)
    requires '~' !in b && from <= |b|
    ensures DecodedFrom(b, from, from) == b
    decreases |b| - from
  {
    if from < |b| {
      DecodedPlain(b, from + 1);
    } else {
      assert b[..|b|] == b;
    }
  }

  // A key that is escaped and then decoded in place comes back exactly if it has
  // no '~' but at its end.
  lemma {:induction false} KeySurvivesIff(key: string)
    requires '/' !in key
    ensures Decoded(Encoded(key)) == key <==> key == "" || '~' !in key[..|key| - 1]
  {
    if '~' !in key {
      PlainEncoded(key);
      DecodedPlain(key, 0);
    } else {
      var p := FirstTilde(key);
      var b := Encoded(key);
      EncodedUpTo(key, p);
      DecodedUpTo(b, 0, p);
      var c := b[p + 1 := '/'];
      var d := DecodedFrom(c, p + 1, p + 2);
      PrefixStays(c, p + 1, p + 2);
      if p + 1 == |key| {
        assert d == c[..p + 1] == b[..p] + "~" == key;
      } else {
        LeftBehind(c, p + 1, p + 2);
        assert key[p] in key[..|key| - 1];
      }
    }
  }

  lemma {:induction false} FirstTilde(s: string) returns (p: nat)
    requires '~' in s
    ensures p < |s| && s[p] == '~' && '~' !in s[..p]
  {
    p := 0;
    while s[p] != '~'
      invariant p < |s| && '~' !in s[..p] && '~' in s[p..]
      decreases |s| - p
    {
      assert s[..p + 1] == s[..p] + [s[p]] && s[p..] == [s[p]] + s[p + 1..];
      p := p + 1;
    }
  }

  lemma {:induction false} EncodedUpTo(s: string, p: nat)
    requires '/' !in s && p < |s| && s[p] == '~' && '~' !in s[..p]
    ensures Encoded(s) == s[..p] + "~1" + Encoded(s[p + 1..])
    ensures |Encoded(s)| == p + 2 <==> p + 1 == |s|
  {
    hide Escape, Encoded;
    EncodedHead(s);
    if p > 0 {
      assert s[0] == s[..p][0] && s[..p] == [s[0]] + s[1..][..p - 1];
      EncodedUpTo(s[1..], p - 1);
      assert s[1..][p..] == s[p + 1..];
    } else {
      assert s[..0] + "~1" == "~1";
      EncodedIsEmpty(s[1..]);
    }
  }

  lemma {:induction false} EncodedIsEmpty(s: string)
    requires '/' !in s
    ensures Encoded(s) == "" <==> s == ""
  {
  }

  // At an escape that is none the decoding stops: what is decoded stands in front, and
  // the memory behind it stays as it is, without a new end.
  lemma {:induction false} DecodedStops(t: string, rest: string)
    requires Unescape(t).Some? && rest != "" && rest[0] == '~' && CharAt(rest, 1) != '0' && CharAt(rest, 1) != '1'
    ensures var d := Decoded(t + rest);
            |d| == |t + rest| && |Decoded(t)| <= |t| && d[..|Decoded(t)|] == Decoded(t) && d[|t|..] == rest
  {
    assert t[0..] == t;
    DecodedStopsFrom(t, rest, 0, 0);
  }

  lemma {:induction false} DecodedStopsFrom(b: string, rest: string, to: nat, from: nat)
    requires to <= from <= |b| && Unescape(b[from..]).Some?
    requires rest != "" && rest[0] == '~' && CharAt(rest, 1) != '0' && CharAt(rest, 1) != '1'
    ensures var d, e := DecodedFrom(b + rest, to, from), DecodedFrom(b, to, from);
            |d| == |b + rest| && |e| <= |b| && d[..|e|] == e && d[|b|..] == rest
    decreases |b| - from
  {
    if from == |b| {
      assert CharAt(b + rest, from + 1) == CharAt(rest, 1);
      assert (b + rest)[..to] == b[..to];
    } else {
      var s := b[from..];
      assert (b + rest)[from] == b[from] == s[0] && CharAt(s, 1) == CharAt(b, from + 1);
      if b[from] == '~' {
        var c := if CharAt(b, from + 1) == '0' then b[to := '~'] else b[to + 1 := '/'];
        assert s[2..] == b[from + 2..] == c[from + 2..];
        assert c + rest == if CharAt(b, from + 1) == '0' then (b + rest)[to := '~'] else (b + rest)[to + 1 := '/'];
        DecodedStopsFrom(c, rest, to + 1, from + 2);
      } else {
        assert s[1..] == b[from + 1..];
        DecodedStopsFrom(b, rest, to + 1, from + 1);
      }
    }
  }

  lemma {:induction false} DecodedUpTo(b: string, from: nat, p: nat)
    requires from <= p < |b| && '~' !in b[..p]
    ensures DecodedFrom(b, from, from) == DecodedFrom(b, p, p)
    decreases p - from
  {
    if from < p {
      assert b[from] == b[..p][from];
      DecodedUpTo(b, from + 1, p);
    }
  }

  // The slash written behind the last decoded character stays if anything follows.
  lemma {:induction false} LeftBehind(b: string, to: nat, from: nat)
    requires to < from < |b| && b[to] == '/'
    requires b[from] == '~' ==> CharAt(b, from + 1) == '1'
    ensures '/' in DecodedFrom(b, to, from)
  {
    var c, n := if b[from] == '~' then b[to + 1 := '/'] else b, if b[from] == '~' then 2 else 1;
    PrefixStays(c, to + 1, from + n);
    assert c[..to + 1][to] == '/';
    assert DecodedFrom(b, to, from)[..to + 1][to] == '/';
  }

  // From an ordinary character at from on: no escape is "~1", and every ordinary
  // character equals the one it should have been moved to.
  ghost predicate InPlace(s: string, to: nat, from: nat)
    requires to <= from <= |s|
    decreases |s| - from
  {
    from == |s| ||
    if s[from] == '~' then CharAt(s, from + 1) == '0' && InPlace(s, to + 1, from + 2)
    else s[from] == s[to] && InPlace(s, to + 1, from + 1)
  }

  // Exactly which escaped tokens are decoded rightly.
  lemma {:induction false} DecodedIsRightIff(s: string)
    requires '/' !in s && Unescape(s).Some?
    ensures Decoded(s) == Unescape(s).value <==> InPlace(s, 0, 0)
  {
    assert s[0..] == s && s[..0] == "";
    DecodedRightFrom(s, s, 0, 0);
    assert "" + Unescape(s).value == Unescape(s).value;
  }

  // One step: what becomes of the buffer, which character should come out, and
  // where the walk goes on.
  lemma {:induction false} DecodedStep(s: string, b: string, to: nat, from: nat)
    returns (c: string, right: char, next: nat)
    requires '/' !in s && |b| == |s| && to <= from < |s| && b[to..] == s[to..] && Unescape(s[from..]).Some?
    ensures from < next <= |s| && |c| == |s| && c[..to] == b[..to]
    ensures DecodedFrom(b, to, from) == DecodedFrom(c, to + 1, next)
    ensures Unescape(s[next..]).Some? && Unescape(s[from..]).value == [right] + Unescape(s[next..]).value
    ensures right == '/' ==> !InPlace(s, to, from) && c[to] != '/'
    ensures right != '/' ==> c[to + 1..] == s[to + 1..]
    ensures right != '/' ==> (InPlace(s, to, from) <==> c[to] == right && InPlace(s, to + 1, next))
  {
    var t := s[from..];
    assert b[from] == b[to..][from - to] == s[from] && b[to] == s[to..][0] == s[to];
    assert from + 1 < |s| ==> b[from + 1] == b[to..][from + 1 - to] == s[from + 1];
    assert b[to + 1..] == b[to..][1..] && s[to + 1..] == s[to..][1..];
    assert s[to] in s && s[from] in s;
    if s[from] != '~' {
      c, right, next := b, s[from], from + 1;
      assert t[1..] == s[next..];
    } else {
      next := from + 2;
      assert t[2..] == s[next..];
      if CharAt(s, from + 1) == '0' {
        c, right := b[to := '~'], '~';
      } else {
        c, right := b[to + 1 := '/'], '/';
      }
    }
  }

  lemma {:induction false} DecodedRightFrom(s: string, b: string, to: nat, from: nat)
    requires '/' !in s && |b| == |s| && to <= from <= |s| && b[to..] == s[to..] && Unescape(s[from..]).Some?
    ensures DecodedFrom(b, to, from) == b[..to] + Unescape(s[from..]).value <==> InPlace(s, to, from)
    decreases |s| - from
  {
    if from < |s| {
      hide DecodedFrom, Unescape, InPlace;
      var c, right, next := DecodedStep(s, b, to, from);
      PrefixStays(c, to + 1, next);
      assert c[..to + 1] == b[..to] + [c[to]];
      if right != '/' {
        DecodedRightFrom(s, c, to + 1, next);
      }
      Decides(DecodedFrom(c, to + 1, next), b[..to], c[to], right, Unescape(s[next..]).value);
    }
  }

  // The character that was left decides whether the rest can be right.
  lemma {:induction false} Decides(d: string, before: string, left: char, right: char, rest: string)
    requires |before| < |d| && d[..|before| + 1] == before + [left]
    ensures d == before + ([right] + rest) <==> left == right && d == before + [left] + rest
  {
    if d == before + ([right] + rest) {
      assert d[|before|] == right && d[..|before| + 1][|before|] == left;
    }
    assert left == right ==> before + ([right] + rest) == before + [left] + rest;
  }

  // What is decoded stays.
  lemma {:induction false} PrefixStays(b: string, to: nat, from: nat)
    requires to <= from <= |b|
    ensures to <= |DecodedFrom(b, to, from)| && DecodedFrom(b, to, from)[..to] == b[..to]
    decreases |b| - from
  {
    if from < |b| {
      if b[from] != '~' {
        PrefixStays(b, to + 1, from + 1);
        assert b[..to] == b[..to + 1][..to];
        assert DecodedFrom(b, to, from)[..to] == DecodedFrom(b, to, from)[..to + 1][..to];
      } else if CharAt(b, from + 1) == '0' || CharAt(b, from + 1) == '1' {
        var c := if CharAt(b, from + 1) == '0' then b[to := '~'] else b[to + 1 := '/'];
        PrefixStays(c, to + 1, from + 2);
        assert b[..to] == c[..to + 1][..to];
        assert DecodedFrom(c, to + 1, from + 2)[..to] == DecodedFrom(c, to + 1, from + 2)[..to + 1][..to];
      }
    }
  }

  // Without a '~' nothing changes; with one the rest of the token is lost.
  lemma {:induction false} DecodedMisplaces()
    ensures Unescape("~0a") == Some("~a") && Decoded("~0a") == "~0"
  {
    var b := "~0a";
    assert b[0 := '~'] == b;
    assert DecodedFrom(b, 2, 3) == "~0";
    assert DecodedFrom(b, 1, 2) == "~0";
    assert b[2..] == "a" && "a"[1..] == "";
    assert ['a'] + "" == "a" && ['~'] + "a" == "~a";
    assert Unescape("a") == Prepend('a', Unescape(""));
  }

  // ----- Searching for a node

  ghost predicate SlashFree(v: Json) {
    match v
    case Array(items) => forall i :: 0 <= i < |items| ==> SlashFree(items[i])
    case Object(members) => forall i :: 0 <= i < |members| ==> '/' !in members[i].key && SlashFree(members[i].value)
    case _ => true
  }

  ghost predicate SlashFreeMembers(ms: seq<Member>) {
    forall i :: 0 <= i < |ms| ==> '/' !in ms[i].key && SlashFree(ms[i].value)
  }

  // No array outgrows an index of type size_t.
  ghost predicate Fits(v: Json) {
    match v
    case Array(items) => |items| <= SIZE_LIMIT && forall i :: 0 <= i < |items| ==> Fits(items[i])
    case Object(members) => forall i :: 0 <= i < |members| ==> Fits(members[i].value)
    case _ => true
  }

  ghost predicate FitsMembers(ms: seq<Member>) {
    forall i :: 0 <= i < |ms| ==> Fits(ms[i].value)
  }

  // The token for one child.
  function Label(v: Json, i: nat): (r: string)
    requires SlashFree(v) && i < ChildCount(v)
    ensures '/' !in r
  {
    match v
    case Array(_) => Decimal(i)
    case Object(members) => Encoded(members[i].key)
  }

  function PathText(v: Json, pos: Position): string
    requires SlashFree(v) && Valid(v, pos)
  {
    if pos == [] then ""
    else "/" + (Label(v, pos[0]) + PathText(Child(v, pos[0]), pos[1..]))
  }

  lemma {:induction false} SlashFreeChild(v: Json, i: nat)
    requires SlashFree(v) && i < ChildCount(v)
    ensures SlashFree(Child(v, i))
  {
  }

  lemma {:induction false} PathTextHead(v: Json, pos: Position)
    requires SlashFree(v)
    ensures Valid(v, []) && PathText(v, []) == ""
    ensures pos != [] && pos[0] < ChildCount(v) && Valid(Child(v, pos[0]), pos[1..]) ==>
              && Valid(v, pos) && SlashFree(Child(v, pos[0]))
              && PathText(v, pos) == "/" + (Label(v, pos[0]) + PathText(Child(v, pos[0]), pos[1..]))
  {
  }

  // cJSONUtils_FindPointerFromObjectTo on the node v, which is at position here
  // of the tree in which target is sought.
  method FindPointerFromObjectTo(v: Json, here: Position, target: Position) returns (pointer: Option<string>)
    requires SlashFree(v)
    ensures pointer.Some? <==> here <= target && Valid(v, target[|here|..])
    ensures pointer.Some? ==> pointer.value == PathText(v, target[|here|..])
    decreases v
  {
    hide PathText, Valid;
    if here == target {
      PathTextHead(v, []);
      return Some("");
    }
    var i := 0;
    while i < ChildCount(v)
      invariant 0 <= i <= ChildCount(v)
      invariant forall j :: 0 <= j < i ==> !(here + [j] <= target && Valid(Child(v, j), target[|here| + 1..]))
    {
      SlashFreeChild(v, i);
      var rest := FindPointerFromObjectTo(Child(v, i), here + [i], target);
      if rest.Some? {
        assert target[|here|..] == [i] + target[|here| + 1..];
        assert ([i] + target[|here| + 1..])[1..] == target[|here| + 1..];
        SlashFreeChild(v, i);
        PathTextHead(v, target[|here|..]);
        return Some("/" + (Label(v, i) + rest.value));
      }
      i := i + 1;
    }
    NoChildLeadsThere(v, here, target);
    pointer := None;
  }

  lemma {:induction false} NoChildLeadsThere(v: Json, here: Position, target: Position)
    requires here != target
    requires forall j :: 0 <= j < ChildCount(v) ==> !(here + [j] <= target && Valid(Child(v, j), target[|here| + 1..]))
    ensures !(here <= target && Valid(v, target[|here|..]))
  {
  }

  // ----- Search and lookup are inverse, exactly when the path allows it

  // Nothing follows an array step; on every object step the key has no '~' and
  // no earlier sibling matches it.
  ghost predicate Followable(v: Json, pos: Position, cs: bool)
    requires Valid(v, pos)
  {
    pos == [] ||
    match v
    case Array(_) => |pos| == 1
    case Object(ms) =>
      && '~' !in ms[pos[0]].key
      && (forall j :: 0 <= j < pos[0] ==> Key(ms[j].key, cs) != Key(ms[pos[0]].key, cs))
      && Followable(ms[pos[0]].value, pos[1..], cs)
  }

  lemma {:induction false} FindThenResolve(v: Json, target: Position, cs: bool)
    requires SlashFree(v) && Fits(v) && Valid(v, target)
    ensures Resolve(v, PathText(v, target), cs) == Some(target) <==> Followable(v, target, cs)
    decreases target
  {
    if target != [] {
      var below := PathText(Child(v, target[0]), target[1..]);
      assert target == [target[0]] + target[1..];
      match v
      case Array(items) =>
        ResolveArrayStep(items, target[0], below, cs);
      case Object(ms) =>
        FindThenResolve(ms[target[0]].value, target[1..], cs);
        FollowMember(ms, target, below, cs);
    }
  }

  // below is the text of the path under the member.
  lemma {:induction false} FollowMember(ms: seq<Member>, target: Position, below: string, cs: bool)
    requires SlashFreeMembers(ms) && target != [] && Valid(Object(ms), target)
    requires below == "" || below[0] == '/'
    requires var child, rest := ms[target[0]].value, target[1..];
             Resolve(child, below, cs) == Some(rest) <==> Followable(child, rest, cs)
    ensures Resolve(Object(ms), "/" + (Encoded(ms[target[0]].key) + below), cs) == Some(target)
        <==> Followable(Object(ms), target, cs)
  {
    hide Encoded, Resolve, SlashFree;
    var i, rest := target[0], target[1..];
    var first := FindMember(ms, ms[i].key, cs).value;
    ResolveToMember(ms, i, below, cs);
    assert target == [i] + rest;
    var r := Resolve(ms[first].value, below, cs);
    if first != i {
      assert Key(ms[first].key, cs) == Key(ms[i].key, cs);
      assert r.Some? ==> ([first] + r.value)[0] != target[0];
    } else {
      assert r.Some? ==> ([i] + r.value)[1..] == r.value;
    }
  }

  // An array step ends the walk.
  lemma {:induction false} ResolveArrayStep(items: seq<Json>, i: nat, below: string, cs: bool)
    requires i < |items| && i < SIZE_LIMIT && (below == "" || below[0] == '/')
    ensures Resolve(Array(items), "/" + (Decimal(i) + below), cs) == Some([i])
  {
    var p := Decimal(i) + below;
    IndexOfDecimal(i, below);
    assert p[0] == Decimal(i)[0];
    assert ("/" + p)[1..] == p;
    assert Resolve(items[i], p, cs) == Some([]);
    assert [i] + [] == [i];
  }

  // An object step leads to the first member with the same key, unless that has a '~'.
  lemma {:induction false} ResolveToMember(ms: seq<Member>, i: nat, below: string, cs: bool)
    requires SlashFreeMembers(ms) && i < |ms| && (below == "" || below[0] == '/')
    ensures var first := FindMember(ms, ms[i].key, cs);
            && first.Some? && first.value <= i
            && Resolve(Object(ms), "/" + (Encoded(ms[i].key) + below), cs)
               == if '~' in ms[i].key then None else Step(first.value, Resolve(ms[first.value].value, below, cs))
  {
    ResolveObjectStep(ms, ms[i].key, below, cs);
    NamedByEncoded(ms, i, below, cs);
  }

  lemma {:induction false} ResolveObjectStep(ms: seq<Member>, key: string, below: string, cs: bool)
    requires '/' !in key && (below == "" || below[0] == '/')
    ensures Resolve(Object(ms), "/" + (Encoded(key) + below), cs)
         == match FindNamed(ms, Encoded(key) + below, cs)
            case None => None
            case Some(i) => Step(i, Resolve(ms[i].value, below, cs))
  {
    var p := Encoded(key) + below;
    TokenOfLabel(key, below);
    assert ("/" + p)[1..] == p;
  }

  lemma {:induction false} TokenOfLabel(key: string, below: string)
    requires '/' !in key && (below == "" || below[0] == '/')
    ensures TokenLength(Encoded(key) + below) == |Encoded(key)|
    ensures FirstToken(Encoded(key) + below) == Encoded(key)
    ensures (Encoded(key) + below)[TokenLength(Encoded(key) + below)..] == below
  {
    var e := Encoded(key);
    assert (e + below)[..|e|] == e;
    TokenLengthIs(e + below, |e|);
  }

  // Which sibling an encoded key leads to.
  lemma {:induction false} NamedByEncoded(ms: seq<Member>, i: nat, below: string, cs: bool)
    requires SlashFreeMembers(ms) && i < |ms| && (below == "" || below[0] == '/')
    ensures '~' in ms[i].key ==> FindNamed(ms, Encoded(ms[i].key) + below, cs).None?
    ensures '~' !in ms[i].key ==>
              FindNamed(ms, Encoded(ms[i].key) + below, cs) == FindMember(ms, ms[i].key, cs)
  {
    hide FindNamed, FindMember, Names, Encoded, SlashFree;
    var key := ms[i].key;
    var p := Encoded(key) + below;
    forall j | 0 <= j < |ms|
      ensures Names(ms[j].key, p, cs) <==> '~' !in key && Key(ms[j].key, cs) == Key(key, cs)
    {
      NamesEncoded(ms[j].key, key, below, cs);
    }
    match FindMember(ms, key, cs)
    case None => assert false;
    case Some(k) => FindNamedIs(ms, p, cs, if '~' in key then |ms| else k);
  }

  lemma {:induction false} NamesEncoded(name: string, key: string, below: string, cs: bool)
    requires '/' !in name && '/' !in key && (below == "" || below[0] == '/')
    ensures Names(name, Encoded(key) + below, cs) <==> '~' !in key && Key(name, cs) == Key(key, cs)
  {
    hide Unescape, FirstToken, TokenLength, Encoded;
    TokenOfLabel(key, below);
    UnescapeEncoded(key);
    if '~' in key {
      var n :| 0 <= n < |key| && key[n] == '~';
      SlashedDiffers(name, key, n, cs);
    } else {
      assert Slashed(key) == key;
    }
  }

  lemma {:induction false} SlashedDiffers(other: string, key: string, n: nat, cs: bool)
    requires '/' !in other && n < |key| && key[n] == '~'
    ensures Key(Slashed(key), cs) != Key(other, cs)
  {
  }
}
