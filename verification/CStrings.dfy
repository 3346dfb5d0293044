/**
  C strings without their terminating NUL, and the comparisons of the library.
 */
module CStrings {

  // The terminator of a C string.
  const NUL: char := '\0'

  ghost predicate NulFree(s: string) {
    NUL !in s
  }

  // `tolower` in the C locale.
  function ToLower(c: char): (r: char)
    ensures 'A' <= c <= 'Z' <==> r != c
    ensures !('A' <= r <= 'Z')
  {
    if 'A' <= c <= 'Z' then (c as int + 32) as char else c
  }

  // The letters, spelled out.
  lemma {:induction false} LowerLetters(i: nat)
    requires i < 26
    ensures ToLower("ABCDEFGHIJKLMNOPQRSTUVWXYZ"[i]) == "abcdefghijklmnopqrstuvwxyz"[i]
  {
  }

  function Fold(s: string): (r: string)
    ensures |r| == |s|
    ensures forall i :: 0 <= i < |s| ==> r[i] == ToLower(s[i])
  {
    seq(|s|, i requires 0 <= i < |s| => ToLower(s[i]))
  }

  function KeyChar(c: char, caseSensitive: bool): char {
    if caseSensitive then c else ToLower(c)
  }

  // What a key is compared as: itself, or its case-folded form.
  function Key(s: string, caseSensitive: bool): (r: string)
    ensures |r| == |s|
    ensures forall i :: 0 <= i < |s| ==> r[i] == KeyChar(s[i], caseSensitive)
  {
    if caseSensitive then s else Fold(s)
  }

  ghost predicate Lowercase(s: string) {
    forall i :: 0 <= i < |s| ==> !('A' <= s[i] <= 'Z')
  }

  // The sign of a lexicographic comparison.
  function Order(a: string, b: string): (r: int)
    ensures -1 <= r <= 1
  {
    if a == [] then if b == [] then 0 else -1
    else if b == [] then 1
    else if a[0] == b[0] then Order(a[1..], b[1..])
    else if a[0] < b[0] then -1
    else 1
  }

  // The first difference decides; a string comes before those that it starts.
  lemma {:induction false} FirstDifference(p: string, x: char, y: char, a: string, b: string)
    requires x < y
    ensures Order(p + [x] + a, p + [y] + b) == -1 && Order(p + [y] + b, p + [x] + a) == 1
    ensures Order(p, p + [x] + a) == -1 && Order(p + [x] + a, p) == 1
  {
    if p != "" {
      FirstDifference(p[1..], x, y, a, b);
      assert (p + [x] + a)[1..] == p[1..] + [x] + a && (p + [y] + b)[1..] == p[1..] + [y] + b;
    }
  }

  lemma {:induction false} OrderZero(a: string, b: string)
    ensures Order(a, b) == 0 <==> a == b
  {
    if a != [] && b != [] && a[0] == b[0] {
      OrderZero(a[1..], b[1..]);
      assert a == [a[0]] + a[1..] && b == [b[0]] + b[1..];
    }
  }

  lemma {:induction false} OrderFlip(a: string, b: string)
    ensures Order(a, b) == -Order(b, a)
  {
    if a != [] && b != [] && a[0] == b[0] {
      OrderFlip(a[1..], b[1..]);
    }
  }

  lemma {:induction false} OrderTrans(a: string, b: string, c: string)
    requires Order(a, b) <= 0 && Order(b, c) <= 0
    ensures Order(a, c) <= 0
    ensures Order(a, b) < 0 || Order(b, c) < 0 ==> Order(a, c) < 0
  {
    if a != [] && b != [] && c != [] && a[0] == b[0] == c[0] {
      OrderTrans(a[1..], b[1..], c[1..]);
    }
  }

  lemma {:induction false} FoldIdempotent(s: string)
    ensures Fold(Fold(s)) == Fold(s)
    ensures Lowercase(Fold(s))
    ensures Lowercase(s) ==> Fold(s) == s
  {
  }

  // compare_strings: walks both strings until they differ or end.
  method CompareStrings(string1: string, string2: string, caseSensitive: bool) returns (diff: int)
    ensures diff == Order(Key(string1, caseSensitive), Key(string2, caseSensitive))
  {
    var i := 0;
    ghost var a, b := Key(string1, caseSensitive), Key(string2, caseSensitive);
    while i < |string1| && i < |string2| && KeyChar(string1[i], caseSensitive) == KeyChar(string2[i], caseSensitive)
      invariant 0 <= i <= |string1| && i <= |string2|
      invariant Order(a, b) == Order(a[i..], b[i..])
    {
      i := i + 1;
    }
    if i == |string1| {
      diff := if i == |string2| then 0 else -1;
    } else if i == |string2| {
      diff := 1;
    } else {
      diff := if KeyChar(string1[i], caseSensitive) < KeyChar(string2[i], caseSensitive) then -1 else 1;
    }
  }
}
