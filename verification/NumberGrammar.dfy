/**
  Numbers part by part, as section 6 of RFC 8259 has them, and the few more forms that
  strtod takes; and that the longest of them is read.
 */
module NumberGrammar {
  import opened Json
  import opened JsonText

  datatype Exponent = NoExponent | Exponent(letter: char, sign: string, digits: string)

  datatype Numeral = Numeral(minus: bool, whole: string, fraction: Option<string>, exponent: Exponent)

  predicate AllDigits(s: string) {
    forall i :: 0 <= i < |s| ==> s[i] in "0123456789"
  }

  // What is taken: at least one digit, in front of the point if there is no minus.
  predicate Taken(n: Numeral) {
    && AllDigits(n.whole) && (n.fraction.Some? ==> AllDigits(n.fraction.value))
    && (n.whole == "" ==> n.minus && n.fraction.Some? && n.fraction.value != "")
    && match n.exponent
       case NoExponent => true
       case Exponent(letter, sign, digits) =>
         && (letter == 'e' || letter == 'E') && (sign == "" || sign == "+" || sign == "-")
         && digits != "" && AllDigits(digits)
  }

  // What section 6 allows: no leading zeros, and digits on both sides of the point.
  predicate Legal(n: Numeral) {
    && Taken(n) && n.whole != "" && (n.whole[0] == '0' ==> n.whole == "0")
    && (n.fraction.Some? ==> n.fraction.value != "")
  }

  function Sign(n: Numeral): string {
    if n.minus then "-" else ""
  }

  function FractionText(n: Numeral): string {
    match n.fraction
    case None => ""
    case Some(digits) => "." + digits
  }

  function ExponentText(n: Numeral): string {
    match n.exponent
    case NoExponent => ""
    case Exponent(letter, sign, digits) => [letter] + (sign + digits)
  }

  function NumeralText(n: Numeral): string {
    Sign(n) + n.whole + FractionText(n) + ExponentText(n)
  }

  // ----- Numerals are read

  lemma {:induction false} DigitsThen(d: string, rest: string)
    requires AllDigits(d)
    ensures DigitsLength(d + rest) == |d| + DigitsLength(rest)
  {
    if d == "" {
      assert d + rest == rest;
    } else {
      assert (d + rest)[1..] == d[1..] + rest;
      DigitsThen(d[1..], rest);
    }
  }

  lemma {:induction false} Cut(a: string, b: string)
    ensures (a + b)[|a|..] == b && (b != "" ==> (a + b)[|a|] == b[0])
  {
  }

  // A sign and the digits in front of the point.
  predicate Start(sign: string, whole: string) {
    AllDigits(whole) && (sign == "" || sign == "-") && (whole == "" ==> sign == "-")
  }

  lemma {:induction false} StartThen(sign: string, whole: string, tail: string)
    requires Start(sign, whole)
    ensures var s := sign + whole + tail;
            && SignLength(s) == |sign| && DigitsLength(s[|sign|..]) == |whole| + DigitsLength(tail)
            && s[|sign| + |whole|..] == tail
  {
    var s := sign + whole + tail;
    assert whole != "" ==> whole[0] in "0123456789";
    assert sign == "" ==> s[0] == whole[0];
    assert s[|sign|..] == whole + tail;
    DigitsThen(whole, tail);
  }

  // Without a point: the mantissa goes on as long as digits or a point do.
  lemma {:induction false} WholeThen(sign: string, whole: string, tail: string)
    requires Start(sign, whole) && whole != ""
    ensures MantissaLength(sign + whole + tail) >= |sign| + |whole|
    ensures tail != "" && (tail[0] == 'e' || tail[0] == 'E') ==>
              MantissaLength(sign + whole + tail) == |sign| + |whole|
  {
    StartThen(sign, whole, tail);
    hide DigitsLength;
    var s := sign + whole + tail;
    var d := DigitsLength(tail);
    assert tail != "" ==> s[|sign| + |whole|] == tail[0];
    assert tail != "" && (tail[0] == 'e' || tail[0] == 'E') ==> d == 0;
  }

  lemma {:induction false} MantissaAt(s: string, sign: nat, whole: nat)
    requires SignLength(s) == sign && sign <= |s| && DigitsLength(s[sign..]) == whole
    ensures var a := sign + whole;
            && a <= |s|
            && (a < |s| && s[a] == '.' && whole + DigitsLength(s[a + 1..]) > 0 ==>
                  MantissaLength(s) == a + 1 + DigitsLength(s[a + 1..]))
            && ((a == |s| || s[a] != '.') && whole > 0 ==> MantissaLength(s) == a)
  {
  }

  lemma {:induction false} FractionThen(sign: string, whole: string, digits: string, tail: string)
    requires Start(sign, whole) && AllDigits(digits) && whole + digits != ""
    ensures MantissaLength(sign + whole + ("." + digits + tail)) == |sign| + |whole| + 1 + |digits| + DigitsLength(tail)
  {
    hide MantissaLength, DigitsLength, AllDigits, SignLength, Start;
    var rest := "." + digits + tail;
    NoDigits(rest);
    StartThen(sign, whole, rest);
    DigitsThen(digits, tail);
    PointAt(sign + whole, digits + tail, rest);
    MantissaAt(sign + whole + rest, |sign|, |whole|);
  }

  lemma {:induction false} PointAt(head: string, tail: string, rest: string)
    requires rest == "." + tail
    ensures (head + rest)[|head|] == '.' && (head + rest)[|head| + 1..] == tail
  {
  }

  lemma {:induction false} NoDigits(s: string)
    requires s != "" && !IsDigit(s[0])
    ensures DigitsLength(s) == 0
  {
  }

  lemma {:induction false} ExponentThen(s: string, b: nat, letter: char, sign: string, digits: string, rest: string)
    requires b <= |s| && MantissaLength(s) == b > 0 && s[b..] == [letter] + (sign + digits) + rest
    requires (letter == 'e' || letter == 'E') && (sign == "" || sign == "+" || sign == "-")
    requires digits != "" && AllDigits(digits)
    ensures NumberLength(s) >= b + 1 + |sign| + |digits|
  {
    hide Taken, MantissaLength;
    var t := s[b + 1..];
    assert t == s[b..][1..] == sign + (digits + rest);
    assert s[b] == s[b..][0];
    assert digits[0] in "0123456789";
    assert SignLength(t) == |sign|;
    assert s[b + 1 + |sign|..] == t[|sign|..] == digits + rest;
    DigitsThen(digits, rest);
  }

  lemma {:induction false} MantissaFirst(s: string)
    ensures NumberLength(s) >= MantissaLength(s)
  {
  }

  // With anything behind it, the mantissa of a numeral is read at least as far as it
  // goes, and no further if an exponent follows.
  lemma {:induction false} MantissaThen(n: Numeral, tail: string)
    requires Taken(n)
    ensures var head := Sign(n) + n.whole + FractionText(n);
            && MantissaLength(head + tail) >= |head|
            && (tail != "" && (tail[0] == 'e' || tail[0] == 'E') ==> MantissaLength(head + tail) == |head|)
  {
    hide MantissaLength;
    match n.fraction
    case None =>
      WholeThen(Sign(n), n.whole, tail);
      assert Sign(n) + n.whole + "" + tail == Sign(n) + n.whole + tail;
    case Some(digits) =>
      FractionThen(Sign(n), n.whole, digits, tail);
      assert Sign(n) + n.whole + ("." + digits) + tail == Sign(n) + n.whole + ("." + digits + tail);
      assert tail != "" && (tail[0] == 'e' || tail[0] == 'E') ==> DigitsLength(tail) == 0;
  }

  // With anything behind it, a numeral is read at least as far as it goes.
  lemma {:induction false} NumeralThen(n: Numeral, rest: string)
    requires Taken(n)
    ensures NumberLength(NumeralText(n) + rest) >= |NumeralText(n)|
  {
    hide NumberLength, MantissaLength, Taken, FractionText;
    var head, tail := Sign(n) + n.whole + FractionText(n), ExponentText(n) + rest;
    MantissaThen(n, tail);
    HeadAndTail(n, rest);
    match n.exponent
    case NoExponent =>
      MantissaFirst(head + tail);
    case Exponent(letter, sign, digits) =>
      Cut(head, tail);
      ExponentParts(n);
      MantissaNonempty(n);
      ExponentThen(head + tail, |head|, letter, sign, digits, rest);
  }

  lemma {:induction false} HeadAndTail(n: Numeral, rest: string)
    ensures NumeralText(n) + rest == Sign(n) + n.whole + FractionText(n) + (ExponentText(n) + rest)
    ensures |NumeralText(n)| == |Sign(n) + n.whole + FractionText(n)| + |ExponentText(n)|
  {
  }

  lemma {:induction false} ExponentParts(n: Numeral)
    requires Taken(n) && n.exponent.Exponent?
    ensures var e := n.exponent;
            && (e.letter == 'e' || e.letter == 'E') && (e.sign == "" || e.sign == "+" || e.sign == "-")
            && e.digits != "" && AllDigits(e.digits)
  {
  }

  lemma {:induction false} MantissaNonempty(n: Numeral)
    requires Taken(n)
    ensures Sign(n) + n.whole + FractionText(n) != ""
  {
  }

  // As a text of its own, a numeral is read whole.
  lemma {:induction false} NumeralRead(n: Numeral)
    requires Taken(n)
    ensures var u := NumeralText(n);
            && u != "" && (u[0] == '-' || IsDigit(u[0])) && NumberLength(u) == |u|
            && forall i :: 0 <= i < |u| ==> IsNumberChar(u[i])
  {
    var u := NumeralText(n);
    NumeralThen(n, "");
    assert u + "" == u;
    assert n.whole != "" ==> n.whole[0] in "0123456789";
    forall i | 0 <= i < |u|
      ensures IsNumberChar(u[i])
    {
      NumeralChar(n, u[i]);
    }
  }

  lemma {:induction false} NumeralChar(n: Numeral, c: char)
    requires Taken(n) && c in NumeralText(n)
    ensures IsNumberChar(c)
  {
    assert c in Sign(n) || c in n.whole || c in FractionText(n) || c in ExponentText(n);
    if c in FractionText(n) {
      assert c == '.' || c in n.fraction.value;
    } else if c in ExponentText(n) {
      var e := n.exponent;
      assert c == e.letter || c in e.sign || c in e.digits;
    }
  }

  // ----- What is read is a numeral

  lemma {:induction false} DigitsTaken(s: string, a: nat)
    requires a <= |s|
    ensures a + DigitsLength(s[a..]) <= |s| && AllDigits(s[a..a + DigitsLength(s[a..])])
  {
    var d := s[a..a + DigitsLength(s[a..])];
    forall i | 0 <= i < |d|
      ensures d[i] in "0123456789"
    {
      assert d[i] == s[a..][i];
    }
  }

  lemma {:induction false} MantissaIsNumeral(s: string) returns (n: Numeral)
    requires s != "" && (s[0] == '-' || IsDigit(s[0])) && MantissaLength(s) > 0
    ensures Taken(n) && n.exponent.NoExponent? && NumeralText(n) == s[..MantissaLength(s)]
  {
    hide MantissaLength, DigitsLength, AllDigits, NumeralText;
    var sign := SignLength(s);
    var whole := DigitsLength(s[sign..]);
    var a := sign + whole;
    DigitsTaken(s, sign);
    StartOf(s, sign, whole);
    var b := MantissaLength(s);
    if a < |s| && s[a] == '.' {
      DigitsTaken(s, a + 1);
      n := Numeral(s[0] == '-', s[sign..a], Some(s[a + 1..b]), NoExponent);
      WithFraction(s, sign, a, b);
    } else {
      n := Numeral(s[0] == '-', s[sign..a], None, NoExponent);
      WithoutFraction(s, sign, a);
    }
  }

  lemma {:induction false} WithFraction(s: string, sign: nat, a: nat, b: nat)
    requires s != "" && sign == (if s[0] == '-' then 1 else 0) && sign <= a < b <= |s| && s[a] == '.'
    ensures NumeralText(Numeral(s[0] == '-', s[sign..a], Some(s[a + 1..b]), NoExponent)) == s[..b]
  {
    assert s[..b] == s[..sign] + s[sign..a] + ("." + s[a + 1..b]) + "";
  }

  lemma {:induction false} WithoutFraction(s: string, sign: nat, a: nat)
    requires s != "" && sign == (if s[0] == '-' then 1 else 0) && sign <= a <= |s|
    ensures NumeralText(Numeral(s[0] == '-', s[sign..a], None, NoExponent)) == s[..a]
  {
    assert s[..a] == s[..sign] + s[sign..a] + "" + "";
  }

  lemma {:induction false} StartOf(s: string, sign: nat, whole: nat)
    requires s != "" && (s[0] == '-' || IsDigit(s[0])) && MantissaLength(s) > 0
    requires SignLength(s) == sign && DigitsLength(s[sign..]) == whole
    ensures sign == (if s[0] == '-' then 1 else 0)
    ensures var a := sign + whole;
            if a < |s| && s[a] == '.' then MantissaLength(s) == a + 1 + DigitsLength(s[a + 1..])
            else MantissaLength(s) == a
    ensures whole == 0 ==> s[0] == '-' && 1 < |s| && s[1] == '.' && DigitsLength(s[2..]) > 0
  {
  }

  // The part of a text that is read, if it starts as parse_value demands.
  lemma {:induction false} ReadIsNumeral(s: string) returns (n: Numeral)
    requires s != "" && (s[0] == '-' || IsDigit(s[0])) && NumberLength(s) > 0
    ensures Taken(n) && NumeralText(n) == s[..NumberLength(s)]
  {
    hide MantissaLength, DigitsLength, AllDigits;
    var m := MantissaIsNumeral(s);
    var b, end := MantissaLength(s), NumberLength(s);
    n := m;
    if end > b {
      var c := b + 1 + SignLength(s[b + 1..]);
      DigitsTaken(s, c);
      SignTaken(s[b + 1..]);
      n := m.(exponent := Exponent(s[b], s[b + 1..c], s[c..end]));
      assert s[b + 1..c] == s[b + 1..][..SignLength(s[b + 1..])];
      Joined(s, b, c, end);
      assert NumeralText(m) == Sign(m) + m.whole + FractionText(m);
    }
  }

  lemma {:induction false} Joined(s: string, b: nat, c: nat, end: nat)
    requires b < c <= end <= |s|
    ensures s[..b] + ([s[b]] + (s[b + 1..c] + s[c..end])) == s[..end]
  {
  }

  lemma {:induction false} SignTaken(t: string)
    ensures SignLength(t) <= |t|
    ensures var sign := t[..SignLength(t)]; sign == "" || sign == "+" || sign == "-"
  {
  }

  // No longer part of the text is a numeral.
  lemma {:induction false} ReadIsLongest(s: string, n: Numeral, rest: string)
    requires Taken(n) && s == NumeralText(n) + rest
    ensures |NumeralText(n)| <= NumberLength(s)
  {
    NumeralThen(n, rest);
  }
}
