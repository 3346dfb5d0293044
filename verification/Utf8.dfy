/**
  UTF-16 escapes to UTF-8: the code point of one or two \uXXXX escapes and its
  encoding by section 3 of RFC 3629, with the decoder that shows it is the only one.
 */
module Utf8 {
  import opened Json
  import opened JsonText

  // ----- Hexadecimal digits

  function HexValue(c: char): (r: Option<nat>)
    ensures r.Some? ==> r.value < 16
  {
    if '0' <= c <= '9' then Some(c as int - '0' as int)
    else if 'A' <= c <= 'F' then Some(c as int - 'A' as int + 10)
    else if 'a' <= c <= 'f' then Some(c as int - 'a' as int + 10)
    else None
  }

  // parse_hex4: zero if any of the four is not a digit.
  function Hex4Value(s: string): (r: nat)
    requires |s| == 4
    ensures r < 0x10000
  {
    match (HexValue(s[0]), HexValue(s[1]), HexValue(s[2]), HexValue(s[3]))
    case (Some(a), Some(b), Some(c), Some(d)) => ((a * 16 + b) * 16 + c) * 16 + d
    case _ => 0
  }

  method ParseHex4(s: string) returns (h: nat)
    requires |s| == 4
    ensures h == Hex4Value(s)
  {
    h := 0;
    var i := 0;
    while i < 4
      invariant 0 <= i <= 4
      invariant forall j :: 0 <= j < i ==> HexValue(s[j]).Some?
      invariant i == 1 ==> h == HexValue(s[0]).value * 16
      invariant i == 2 ==> h == (HexValue(s[0]).value * 16 + HexValue(s[1]).value) * 16
      invariant i == 3 ==> h == ((HexValue(s[0]).value * 16 + HexValue(s[1]).value) * 16 + HexValue(s[2]).value) * 16
      invariant i == 4 ==> h == Hex4Value(s)
      invariant i == 0 ==> h == 0
    {
      var digit := HexValue(s[i]);
      if digit.None? {
        return 0;
      }
      h := h + digit.value;
      if i < 3 {
        h := h * 16;
      }
      i := i + 1;
    }
  }

  lemma {:induction false} HexDigitValue(n: nat)
    requires n < 16
    ensures HexValue(HexDigit(n)) == Some(n)
  {
  }

  lemma {:induction false} Hex4RoundTrip(n: nat)
    requires n < 0x10000
    ensures Hex4Value(Hex4(n)) == n
  {
    HexDigitValue(n / 0x1000);
    HexDigitValue(n / 0x100 % 16);
    HexDigitValue(n / 16 % 16);
    HexDigitValue(n % 16);
    assert n == ((n / 0x1000 * 16 + n / 0x100 % 16) * 16 + n / 16 % 16) * 16 + n % 16 by {
      assert n / 0x100 == n / 0x1000 * 16 + n / 0x100 % 16;
      assert n / 16 == n / 0x100 * 16 + n / 16 % 16;
    }
  }

  // ----- UTF-8

  ghost predicate IsScalar(cp: nat) {
    cp <= 0x10FFFF && !(0xD800 <= cp <= 0xDFFF)
  }

  function Utf8Length(cp: nat): nat {
    if cp < 0x80 then 1 else if cp < 0x800 then 2 else if cp < 0x10000 then 3 else 4
  }

  function FirstByteMark(length: nat): nat {
    if length == 2 then 0xC0 else if length == 3 then 0xE0 else if length == 4 then 0xF0 else 0
  }

  // The low six bits, marked as a continuation: (cp | 0x80) & 0xBF.
  function Continuation(cp: nat): char {
    (0x80 + cp % 64) as char
  }

  function Encode(cp: nat): (r: string)
    requires cp <= 0x10FFFF
    ensures |r| == Utf8Length(cp)
  {
    var n := Utf8Length(cp);
    if n == 1 then [cp as char]
    else if n == 2 then [(0xC0 + cp / 64) as char, Continuation(cp)]
    else if n == 3 then [(0xE0 + cp / 4096) as char, Continuation(cp / 64), Continuation(cp)]
    else [(0xF0 + cp / 262144) as char, Continuation(cp / 4096), Continuation(cp / 64), Continuation(cp)]
  }

  // The bit operations of the encoder as arithmetic.
  lemma {:induction false} MasksAreArithmetic(cp: bv32)
    ensures ((cp | 0x80) & 0xBF) & 0xFF == 0x80 + cp % 64
    ensures cp < 32 ==> (cp | 0xC0) & 0xFF == 0xC0 + cp
    ensures cp < 16 ==> (cp | 0xE0) & 0xFF == 0xE0 + cp
    ensures cp < 8 ==> (cp | 0xF0) & 0xFF == 0xF0 + cp
    ensures cp >> 6 == cp / 64
  {
  }

  // The surrogate halves put together, with bit operations and as arithmetic.
  lemma {:induction false} PairIsArithmetic(first: bv32, second: bv32)
    ensures 0x10000 + (((first & 0x3FF) << 10) | (second & 0x3FF)) == 0x10000 + first % 0x400 * 0x400 + second % 0x400
  {
  }

  // The encoder as it runs: from the last byte to the first.
  method EncodeInto(output: array<char>, at: nat, codepoint: nat)
    requires codepoint <= 0x10FFFF && at + Utf8Length(codepoint) <= output.Length
    modifies output
    ensures output[at..at + Utf8Length(codepoint)] == Encode(codepoint)
    ensures forall i :: 0 <= i < output.Length && !(at <= i < at + Utf8Length(codepoint)) ==>
            output[i] == old(output[i])
  {
    var n := Utf8Length(codepoint);
    var cp, position := codepoint, n - 1;
    while position > 0
      invariant 0 <= position < n
      invariant cp == if position == n - 1 then codepoint else if position == n - 2 then codepoint / 64
                      else if position == n - 3 then codepoint / 4096 else codepoint / 262144
      invariant forall i :: position < i < n ==> output[at + i] == Encode(codepoint)[i]
      invariant forall i :: 0 <= i < output.Length && !(at <= i < at + n) ==> output[i] == old(output[i])
    {
      output[at + position] := Continuation(cp);
      cp := cp / 64;
      position := position - 1;
    }
    output[at] := (FirstByteMark(n) + cp) as char;
  }

  predicate IsContinuation(c: char) {
    0x80 <= c as int < 0xC0
  }

  function Low6(c: char): nat {
    c as int % 64
  }

  // The scalar value of one UTF-8 sequence, if it is well formed: shortest form,
  // no surrogates, nothing beyond U+10FFFF.
  function Utf8Value(b: string): Option<nat> {
    var v :=
      if |b| == 1 && b[0] as int < 0x80 then Some(b[0] as int)
      else if |b| == 2 && 0xC0 <= b[0] as int < 0xE0 && IsContinuation(b[1]) then
        Some((b[0] as int - 0xC0) * 64 + Low6(b[1]))
      else if |b| == 3 && 0xE0 <= b[0] as int < 0xF0 && IsContinuation(b[1]) && IsContinuation(b[2]) then
        Some((b[0] as int - 0xE0) * 4096 + Low6(b[1]) * 64 + Low6(b[2]))
      else if |b| == 4 && 0xF0 <= b[0] as int < 0xF8
              && IsContinuation(b[1]) && IsContinuation(b[2]) && IsContinuation(b[3]) then
        Some((b[0] as int - 0xF0) * 262144 + Low6(b[1]) * 4096 + Low6(b[2]) * 64 + Low6(b[3]))
      else None;
    if v.Some? && v.value <= 0x10FFFF && !(0xD800 <= v.value <= 0xDFFF) && Utf8Length(v.value) == |b| then v else None
  }

  // The encoding decodes back.
  lemma {:induction false} EncodeDecodes(cp: nat)
    requires IsScalar(cp)
    ensures Utf8Value(Encode(cp)) == Some(cp)
  {
    var n := Utf8Length(cp);
    if n == 2 {
      assert (0xC0 + cp / 64) < 0xE0;
    } else if n == 3 {
      EncodeDecodesThree(cp);
    } else if n == 4 {
      EncodeDecodesFour(cp);
    }
  }

  lemma {:induction false} EncodeDecodesThree(cp: nat)
    requires IsScalar(cp) && Utf8Length(cp) == 3
    ensures Utf8Value(Encode(cp)) == Some(cp)
  {
    assert cp / 64 == cp / 4096 * 64 + cp / 64 % 64;
    assert cp == cp / 4096 * 4096 + cp / 64 % 64 * 64 + cp % 64;
    assert cp / 4096 < 16;
    var b := Encode(cp);
    assert Low6(b[1]) == cp / 64 % 64 && Low6(b[2]) == cp % 64;
  }

  lemma {:induction false} EncodeDecodesFour(cp: nat)
    requires IsScalar(cp) && Utf8Length(cp) == 4
    ensures Utf8Value(Encode(cp)) == Some(cp)
  {
    assert cp / 64 == cp / 4096 * 64 + cp / 64 % 64;
    assert cp / 4096 == cp / 262144 * 64 + cp / 4096 % 64;
    assert cp == cp / 262144 * 262144 + cp / 4096 % 64 * 4096 + cp / 64 % 64 * 64 + cp % 64;
    assert cp / 262144 < 8;
    var b := Encode(cp);
    assert Low6(b[1]) == cp / 4096 % 64 && Low6(b[2]) == cp / 64 % 64 && Low6(b[3]) == cp % 64;
  }

  // And nothing else decodes to it.
  lemma {:induction false} EncodingIsUnique(b: string, cp: nat)
    requires Utf8Value(b) == Some(cp)
    ensures IsScalar(cp) && b == Encode(cp)
  {
    if |b| == 2 {
      assert cp / 64 == b[0] as int - 0xC0;
    } else if |b| == 3 {
      SplitThree(b[0] as int - 0xE0, Low6(b[1]), Low6(b[2]));
    } else if |b| == 4 {
      UniqueFour(b, cp);
    }
  }

  lemma {:induction false} UniqueFour(b: string, cp: nat)
    requires |b| == 4 && Utf8Value(b) == Some(cp)
    ensures b == Encode(cp)
  {
    SplitFour(b[0] as int - 0xF0, Low6(b[1]), Low6(b[2]), Low6(b[3]));
  }

  lemma {:induction false} SplitThree(a: nat, b: nat, c: nat)
    requires b < 64 && c < 64
    ensures var cp := a * 4096 + b * 64 + c;
            cp / 4096 == a && cp / 64 % 64 == b && cp % 64 == c
  {
    var cp := a * 4096 + b * 64 + c;
    assert cp / 64 == a * 64 + b;
  }

  lemma {:induction false} SplitFour(a: nat, b: nat, c: nat, d: nat)
    requires b < 64 && c < 64 && d < 64
    ensures var cp := a * 262144 + b * 4096 + c * 64 + d;
            cp / 262144 == a && cp / 4096 % 64 == b && cp / 64 % 64 == c && cp % 64 == d
  {
    var cp := a * 262144 + b * 4096 + c * 64 + d;
    assert cp / 64 == a * 4096 + b * 64 + c;
    assert cp / 4096 == a * 64 + b;
  }

  // ----- UTF-16 escapes

  // What one or two escapes stand for, and how long they are.
  datatype Literal = BadLiteral | Literal(codepoint: nat, length: nat)

  // utf16_literal_to_utf8 up to the code point; s is the text from the escape to
  // the closing quote.
  function ReadLiteral(s: string): (r: Literal)
    ensures r.Literal? ==> r.codepoint <= 0x10FFFF && 6 <= r.length <= |s|
    ensures r.Literal? ==> r.length == if r.codepoint < 0x10000 then 6 else 12
  {
    if |s| < 6 then BadLiteral
    else
      var first := Hex4Value(s[2..6]);
      if 0xDC00 <= first <= 0xDFFF then BadLiteral
      else if 0xD800 <= first <= 0xDBFF then
        if |s| < 12 || s[6] != '\\' || s[7] != 'u' then BadLiteral
        else
          var second := Hex4Value(s[8..12]);
          if second < 0xDC00 || second > 0xDFFF then BadLiteral
          else Literal(0x10000 + first % 0x400 * 0x400 + second % 0x400, 12)
      else Literal(first, 6)
  }

  // Four hexadecimal digits in either case that make up a code unit.
  ghost predicate DigitsOf(d: string, unit: nat) {
    |d| == 4 && (forall i :: 0 <= i < 4 ==> HexValue(d[i]).Some?) && Hex4Value(d) == unit
  }

  // The escapes that section 7 of RFC 8259 allows for a scalar value.
  ghost predicate Escapes(e: string, cp: nat) {
    if cp < 0x10000 then |e| == 6 && e[..2] == "\\u" && DigitsOf(e[2..], cp)
    else
      && |e| == 12 && e[..2] == "\\u" && e[6..8] == "\\u"
      && DigitsOf(e[2..6], 0xD800 + (cp - 0x10000) / 0x400)
      && DigitsOf(e[8..], 0xDC00 + (cp - 0x10000) % 0x400)
  }

  // Every scalar value is recovered from its escapes, whatever follows.
  lemma {:induction false} LiteralRoundTrip(e: string, cp: nat, rest: string)
    requires IsScalar(cp) && Escapes(e, cp)
    ensures ReadLiteral(e + rest) == Literal(cp, |e|)
  {
    hide Hex4Value, HexValue;
    var s := e + rest;
    if cp < 0x10000 {
      assert s[2..6] == e[2..];
    } else {
      assert s[2..6] == e[2..6] && s[8..12] == e[8..];
      assert s[6] == e[6..8][0] && s[7] == e[6..8][1];
    }
  }

  // A numeric escape as the printer writes it.
  lemma {:induction false} PrintedEscapes(cp: nat)
    requires cp < 0x10000
    ensures Escapes("\\u" + Hex4(cp), cp)
  {
    var e := "\\u" + Hex4(cp);
    Hex4RoundTrip(cp);
    assert e[..2] == "\\u" && e[2..] == Hex4(cp);
    HexDigitValue(cp / 0x1000);
    HexDigitValue(cp / 0x100 % 16);
    HexDigitValue(cp / 16 % 16);
    HexDigitValue(cp % 16);
  }

  // Only scalar values come out: the last branch of the encoder cannot be reached.
  lemma {:induction false} LiteralIsScalar(s: string)
    ensures ReadLiteral(s).Literal? ==> IsScalar(ReadLiteral(s).codepoint)
  {
  }
}
