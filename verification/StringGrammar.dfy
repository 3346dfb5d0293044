/**
  String literals piece by piece, as section 7 of RFC 8259 has them, and the few more
  forms that parse_string takes.
 */
module StringGrammar {
  import opened CStrings
  import opened Json
  import opened Utf8
  import opened ParseString

  // ----- Pieces

  // The last two are no JSON: a numeric escape in which not all of the four characters
  // are digits, and, behind such an escape, a backslash that takes the closing quote.
  datatype Piece =
    | Plain(c: char)
    | Short(letter: char)
    | Unicode(escape: string, scalar: nat, bytes: string)
    | Garbled(four: string)
    | Dangling

  // The two-character escapes.
  const SHORT_ESCAPES: map<char, char> :=
    map['"' := '"', '\\' := '\\', '/' := '/', 'b' := 8 as char, 'f' := 12 as char, 'n' := 10 as char,
        'r' := 13 as char, 't' := 9 as char]

  ghost predicate Allowed(p: Piece) {
    match p
    case Plain(c) => c != '\\'
    case Short(letter) => letter in SHORT_ESCAPES
    case Unicode(e, cp, bytes) => IsScalar(cp) && Escapes(e, cp) && Utf8Value(bytes) == Some(cp)
    case Garbled(four) => |four| == 4 && exists i :: 0 <= i < 4 && HexValue(four[i]).None?
    case Dangling => true
  }

  function PieceText(p: Piece): string {
    match p
    case Plain(c) => [c]
    case Short(letter) => "\\" + [letter]
    case Unicode(e, _, _) => e
    case Garbled(four) => "\\u" + four
    case Dangling => "\\"
  }

  function PieceValue(p: Piece): string
    requires p.Short? ==> p.letter in SHORT_ESCAPES
  {
    match p
    case Plain(c) => [c]
    case Short(letter) => [SHORT_ESCAPES[letter]]
    case Unicode(_, _, bytes) => bytes
    case Garbled(_) => [0 as char]
    case Dangling => "\""
  }

  ghost predicate AllAllowed(ps: seq<Piece>) {
    && (forall i :: 0 <= i < |ps| ==> Allowed(ps[i]))
    && (forall i :: 0 <= i < |ps| - 1 ==> !ps[i].Dangling?)
  }

  function TextOf(ps: seq<Piece>): string {
    if ps == [] then "" else PieceText(ps[0]) + TextOf(ps[1..])
  }

  ghost function ValueOf(ps: seq<Piece>): string
    requires AllAllowed(ps)
  {
    if ps == [] then "" else PieceValue(ps[0]) + ValueOf(ps[1..])
  }

  // No quote in it closes the literal early: each is behind a backslash that is not
  // itself behind one.
  ghost predicate Inside(t: string)
    decreases |t|
  {
    t == "" || if t[0] == '\\' then |t| > 1 && Inside(t[2..]) else t[0] != '"' && Inside(t[1..])
  }

  // What parse_string takes between two quotes.
  ghost predicate Taken(ps: seq<Piece>) {
    AllAllowed(ps) && Inside(TextOf(ps))
  }

  // What section 7 of RFC 8259 allows there.
  ghost predicate Legal(ps: seq<Piece>) {
    forall i :: 0 <= i < |ps| ==>
      && Allowed(ps[i]) && !ps[i].Garbled? && !ps[i].Dangling?
      && (ps[i].Plain? ==> ps[i].c >= ' ' && ps[i].c != '"')
  }

  // ----- Every legal literal is taken

  lemma {:induction false} LegalIsTaken(ps: seq<Piece>)
    requires Legal(ps)
    ensures Taken(ps)
  {
    if ps != [] {
      assert forall i :: 0 <= i < |ps[1..]| ==> ps[1..][i] == ps[i + 1];
      LegalIsTaken(ps[1..]);
      var p, rest := ps[0], TextOf(ps[1..]);
      match p
      case Plain(c) => assert ([c] + rest)[1..] == rest;
      case Short(letter) => assert ("\\" + [letter] + rest)[2..] == rest;
      case Unicode(e, cp, _) => EscapeIsInside(e, cp, rest);
    }
  }

  lemma {:induction false} EscapeIsInside(e: string, cp: nat, rest: string)
    requires IsScalar(cp) && Escapes(e, cp) && Inside(rest)
    ensures Inside(e + rest)
  {
    var t := e + rest;
    if cp < 0x10000 {
      DigitsInside(e[2..], cp, rest);
      assert t[2..] == e[2..] + rest;
    } else {
      var high, low := e[2..6], e[8..];
      DigitsInside(low, 0xDC00 + (cp - 0x10000) % 0x400, rest);
      var second := "\\u" + low + rest;
      assert second[2..] == low + rest;
      DigitsInside(high, 0xD800 + (cp - 0x10000) / 0x400, second);
      assert t[2..] == high + second by {
        assert e == "\\u" + high + ("\\u" + low);
      }
    }
    assert t[0] == e[..2][0];
  }

  lemma {:induction false} DigitsInside(d: string, unit: nat, rest: string)
    requires DigitsOf(d, unit) && Inside(rest)
    ensures Inside(d + rest)
  {
    assert forall i :: 0 <= i < 4 ==> d[i] != '"' && d[i] != '\\';
    OrdinaryInside(d, rest);
  }

  lemma {:induction false} OrdinaryInside(d: string, rest: string)
    requires (forall i :: 0 <= i < |d| ==> d[i] != '"' && d[i] != '\\') && Inside(rest)
    ensures Inside(d + rest)
  {
    if d == "" {
      assert d + rest == rest;
    } else {
      assert (d + rest)[1..] == d[1..] + rest;
      OrdinaryInside(d[1..], rest);
    }
  }

  // ----- The first pass

  lemma {:induction false} ClosingQuoteIff(s: string, i: nat, q: nat)
    requires i <= q < |s|
    ensures ClosingQuote(s, i) == Some(q) <==> s[q] == '"' && Inside(s[i..q])
    decreases |s| - i
  {
    var t := s[i..q];
    if i < q {
      if s[i] == '\\' {
        if i + 2 <= q {
          assert t[2..] == s[i + 2..q];
          ClosingQuoteIff(s, i + 2, q);
        }
      } else {
        assert t[1..] == s[i + 1..q];
        ClosingQuoteIff(s, i + 1, q);
      }
    }
  }

  // ----- The second pass

  // A piece at i, with the closing quote at end.
  lemma {:induction false} PieceDecoded(s: string, i: nat, end: nat, p: Piece, rest: string)
    requires i < end < |s| && s[end] == '"' && Allowed(p) && s[i..end] == PieceText(p) + rest
    requires p.Dangling? ==> rest == ""
    ensures DecodeStep(s, i, end)
         == Step(PieceValue(p), if p.Dangling? then end + 1 else i + |PieceText(p)|)
  {
    hide ReadLiteral, Encode, Escapes, Hex4Value, HexValue;
    var t := s[i..end];
    assert s[i] == t[0] && (i + 1 < end ==> s[i + 1] == t[1]);
    match p
    case Plain(c) =>
    case Short(letter) =>
    case Unicode(e, cp, bytes) =>
      EscapeDecoded(e, cp, bytes, rest);
    case Garbled(four) =>
      GarbledDecoded(four, rest);
    case Dangling =>
  }

  lemma {:induction false} EscapeDecoded(e: string, cp: nat, bytes: string, rest: string)
    requires IsScalar(cp) && Escapes(e, cp) && Utf8Value(bytes) == Some(cp)
    ensures |e| >= 2 && e[0] == '\\' && e[1] == 'u'
    ensures ReadLiteral(e + rest) == Literal(cp, |e|) && Encode(cp) == bytes
  {
    hide DigitsOf;
    LiteralRoundTrip(e, cp, rest);
    EncodingIsUnique(bytes, cp);
    assert e[0] == e[..2][0] && e[1] == e[..2][1];
  }

  lemma {:induction false} GarbledDecoded(four: string, rest: string)
    requires |four| == 4 && exists i :: 0 <= i < 4 && HexValue(four[i]).None?
    ensures ReadLiteral("\\u" + four + rest) == Literal(0, 6) && Encode(0) == [0 as char]
  {
    hide HexValue;
    assert ("\\u" + four + rest)[2..6] == four;
    assert Hex4Value(four) == 0;
  }

  lemma {:induction false} PiecesDecoded(s: string, i: nat, end: nat, ps: seq<Piece>)
    requires i <= end < |s| && s[end] == '"' && AllAllowed(ps) && s[i..end] == TextOf(ps)
    ensures Decoded(s, i, end) == Some(ValueOf(ps))
    decreases |ps|
  {
    hide DecodeStep, Allowed, PieceValue, PieceText;
    if ps != [] {
      var p, rest := ps[0], TextOf(ps[1..]);
      PieceNonempty(p);
      PieceDecoded(s, i, end, p, rest);
      var next := i + |PieceText(p)|;
      assert s[next..end] == s[i..end][|PieceText(p)|..] == rest;
      assert forall k :: 0 <= k < |ps[1..]| ==> ps[1..][k] == ps[k + 1];
      PiecesDecoded(s, next, end, ps[1..]);
      if p.Dangling? {
        assert ps[1..] == [] && ValueOf(ps) == PieceValue(p) + "";
      }
    }
  }

  lemma {:induction false} PieceNonempty(p: Piece)
    requires Allowed(p)
    ensures PieceText(p) != ""
  {
  }

  // What is decoded has pieces.
  lemma {:induction false} StepPiece(s: string, i: nat, end: nat) returns (p: Piece)
    requires i < end < |s| && s[end] == '"' && DecodeStep(s, i, end).Step?
    ensures Allowed(p) && DecodeStep(s, i, end).output == PieceValue(p)
    ensures p.Dangling? ==> i + 1 == end && s[i..end] == PieceText(p) && DecodeStep(s, i, end).next == end + 1
    ensures !p.Dangling? ==> i + |PieceText(p)| == DecodeStep(s, i, end).next <= end
                             && s[i..DecodeStep(s, i, end).next] == PieceText(p)
  {
    var step := DecodeStep(s, i, end);
    if s[i] != '\\' {
      p := Plain(s[i]);
    } else if s[i + 1] == 'u' {
      var t := s[i..end];
      var length := ReadLiteral(t).length;
      p := LiteralPiece(t);
      assert t[..length] == s[i..i + length];
    } else if i + 1 == end {
      p := Dangling;
    } else {
      p := Short(s[i + 1]);
      assert s[i..i + 2] == "\\" + [s[i + 1]];
    }
  }

  lemma {:induction false} LiteralPiece(t: string) returns (p: Piece)
    requires |t| >= 2 && t[0] == '\\' && t[1] == 'u' && ReadLiteral(t).Literal?
    ensures (p.Unicode? || p.Garbled?) && Allowed(p)
    ensures PieceText(p) == t[..ReadLiteral(t).length] && PieceValue(p) == Encode(ReadLiteral(t).codepoint)
  {
    var cp, length := ReadLiteral(t).codepoint, ReadLiteral(t).length;
    LiteralIsScalar(t);
    EncodeDecodes(cp);
    var e := t[..length];
    var four := t[2..6];
    if forall i :: 0 <= i < 4 ==> HexValue(four[i]).Some? {
      p := Unicode(e, cp, Encode(cp));
      assert e[..2] == "\\u" && e[2..6] == four;
      if length == 12 {
        PairEscapes(t);
      }
    } else {
      p := Garbled(four);
      assert Hex4Value(four) == 0 && e == "\\u" + four;
    }
  }

  lemma {:induction false} PairEscapes(t: string)
    requires |t| >= 12 && t[0] == '\\' && t[1] == 'u' && ReadLiteral(t).Literal? && ReadLiteral(t).length == 12
    ensures Escapes(t[..12], ReadLiteral(t).codepoint)
  {
    var e, first, second := t[..12], Hex4Value(t[2..6]), Hex4Value(t[8..12]);
    assert e[2..6] == t[2..6] && e[8..] == t[8..12] && e[..2] == "\\u" && e[6..8] == "\\u";
    AllDigits(t[2..6]);
    AllDigits(t[8..12]);
    assert first == 0xD800 + first % 0x400 && second == 0xDC00 + second % 0x400;
  }

  lemma {:induction false} AllDigits(d: string)
    requires |d| == 4 && Hex4Value(d) != 0
    ensures forall i :: 0 <= i < 4 ==> HexValue(d[i]).Some?
  {
  }

  lemma {:induction false} DecodedPieces(s: string, i: nat, end: nat) returns (ps: seq<Piece>)
    requires i <= end < |s| && s[end] == '"' && Decoded(s, i, end).Some?
    ensures AllAllowed(ps) && TextOf(ps) == s[i..end] && ValueOf(ps) == Decoded(s, i, end).value
    decreases end - i
  {
    hide Allowed, PieceText, PieceValue, DecodeStep;
    if i == end {
      ps := [];
    } else {
      var p := StepPiece(s, i, end);
      var next := DecodeStep(s, i, end).next;
      if p.Dangling? {
        ps := [p];
        assert ps[1..] == [];
      } else {
        var more := DecodedPieces(s, next, end);
        ps := [p] + more;
        assert ps[1..] == more && s[i..end] == s[i..next] + s[next..end];
      }
    }
  }

  // ----- The literal

  // A literal of given pieces, wherever it stands, is read as their values up to the
  // first NUL.
  lemma {:induction false} LiteralRead(s: string, o: nat, ps: seq<Piece>)
    requires Taken(ps) && o < |s| && s[o] == '"'
    requires var end := o + 1 + |TextOf(ps)|; end < |s| && s[end] == '"' && s[o + 1..end] == TextOf(ps)
    ensures StringAt(s, o) == ParsedText(UpToNul(ValueOf(ps)), o + |TextOf(ps)| + 2)
  {
    hide ClosingQuote, Decoded, Inside, AllAllowed, ValueOf, UpToNul;
    var end := o + 1 + |TextOf(ps)|;
    ClosingQuoteIff(s, o + 1, end);
    PiecesDecoded(s, o + 1, end, ps);
  }

  // And nothing else is read as a literal.
  lemma {:induction false} LiteralHasPieces(s: string, o: nat) returns (ps: seq<Piece>)
    requires o < |s| && StringAt(s, o).ParsedText?
    ensures var r := StringAt(s, o);
            && Taken(ps) && s[o] == '"' && s[r.end - 1] == '"' && s[o + 1..r.end - 1] == TextOf(ps)
            && r.text == UpToNul(ValueOf(ps))
  {
    var end := ClosingQuote(s, o + 1).value;
    ClosingQuoteIff(s, o + 1, end);
    ps := DecodedPieces(s, o + 1, end);
  }

  // Up to the first NUL.
  lemma {:induction false} UpToFirstNul(t: string, rest: string)
    requires NulFree(t)
    ensures UpToNul(t) == t && UpToNul(t + [0 as char] + rest) == t
  {
    if t != "" {
      assert (t + [0 as char] + rest)[1..] == t[1..] + [0 as char] + rest;
      assert t[0] in t && NulFree(t[1..]);
      UpToFirstNul(t[1..], rest);
    }
  }

  // The hexadecimal digits of either case, and no others.
  lemma {:induction false} HexDigits(c: char)
    ensures forall n :: 0 <= n < 16 && (c == "0123456789abcdef"[n] || c == "0123456789ABCDEF"[n]) ==>
              HexValue(c) == Some(n)
    ensures HexValue(c).Some? ==> c in "0123456789abcdefABCDEF"
  {
  }
}
