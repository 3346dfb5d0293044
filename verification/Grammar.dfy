/**
  JSON texts as trees with all their blanks, and that the parser reads exactly their texts.
 */
module Grammar {
  import opened CStrings
  import opened Json
  import opened JsonText
  import opened ParseString
  import opened Parser
  import opened MinifyParse
  import Numbers = NumberGrammar
  import Strings = StringGrammar

  // ----- Texts as trees

  datatype Syntax =
    | NullWord
    | FalseWord
    | TrueWord
    | Numeral(n: Numbers.Numeral)
    | Literal(ps: seq<Strings.Piece>)
    | List(blank: string, parts: seq<Part>)
    | Record(blank: string, entries: seq<Entry>)

  // An element, or the value of a member, with the blanks around it.
  datatype Part = Part(before: string, value: Syntax, after: string)

  // A member: its key, with the blanks around that, and its value.
  datatype Entry = Entry(before: string, key: seq<Strings.Piece>, behind: string, part: Part)

  function Written(x: Syntax): string {
    match x
    case NullWord => "null"
    case FalseWord => "false"
    case TrueWord => "true"
    case Numeral(n) => Numbers.NumeralText(n)
    case Literal(ps) => "\"" + Strings.TextOf(ps) + "\""
    case List(blank, parts) => "[" + blank + PartsWritten(parts) + "]"
    case Record(blank, entries) => "{" + blank + EntriesWritten(entries) + "}"
  }

  function PartWritten(p: Part): string {
    p.before + Written(p.value) + p.after
  }

  function EntryWritten(e: Entry): string {
    e.before + ("\"" + Strings.TextOf(e.key) + "\"" + e.behind + ":" + PartWritten(e.part))
  }

  function PartsWritten(parts: seq<Part>): string {
    if parts == [] then ""
    else if |parts| == 1 then PartWritten(parts[0])
    else PartWritten(parts[0]) + "," + PartsWritten(parts[1..])
  }

  function EntriesWritten(entries: seq<Entry>): string {
    if entries == [] then ""
    else if |entries| == 1 then EntryWritten(entries[0])
    else EntryWritten(entries[0]) + "," + EntriesWritten(entries[1..])
  }

  function Levels(x: Syntax): nat {
    match x
    case List(_, parts) => 1 + PartsLevels(parts)
    case Record(_, entries) => 1 + EntriesLevels(entries)
    case _ => 0
  }

  function PartsLevels(parts: seq<Part>): nat {
    if parts == [] then 0 else Max(Levels(parts[0].value), PartsLevels(parts[1..]))
  }

  function EntriesLevels(entries: seq<Entry>): nat {
    if entries == [] then 0 else Max(Levels(entries[0].part.value), EntriesLevels(entries[1..]))
  }

  // ----- Which trees are taken


  // Numbers are read from a copy of at most 63 characters.
  ghost predicate Taken(x: Syntax) {
    match x
    case Numeral(n) => Numbers.Taken(n) && |Numbers.NumeralText(n)| <= 63
    case Literal(ps) => Strings.Taken(ps)
    case List(blank, parts) =>
      Spaces(blank) && (forall i :: 0 <= i < |parts| ==> PartTaken(parts[i])) && (parts != [] ==> blank == "")
    case Record(blank, entries) =>
      Spaces(blank) && (forall i :: 0 <= i < |entries| ==> EntryTaken(entries[i])) && (entries != [] ==> blank == "")
    case _ => true
  }

  ghost predicate PartTaken(p: Part) {
    Spaces(p.before) && Taken(p.value) && Spaces(p.after)
  }

  ghost predicate EntryTaken(e: Entry) {
    Spaces(e.before) && Strings.Taken(e.key) && Spaces(e.behind) && PartTaken(e.part)
  }

  // What a tree stands for. A string ends at its first NUL.
  ghost function Denoted(x: Syntax): Json
    requires Taken(x)
  {
    match x
    case NullWord => Null
    case FalseWord => False
    case TrueWord => True
    case Numeral(n) => Number(Numbers.NumeralText(n))
    case Literal(ps) => String(UpToNul(Strings.ValueOf(ps)))
    case List(_, parts) => Array(PartsDenoted(parts))
    case Record(_, entries) => Object(EntriesDenoted(entries))
  }

  ghost function EntryDenoted(e: Entry): Member
    requires EntryTaken(e)
  {
    assert PartTaken(e.part);
    Member(UpToNul(Strings.ValueOf(e.key)), Denoted(e.part.value))
  }

  ghost function PartsDenoted(parts: seq<Part>): seq<Json>
    requires forall i :: 0 <= i < |parts| ==> PartTaken(parts[i])
  {
    if parts == [] then []
    else
      assert PartTaken(parts[0]);
      [Denoted(parts[0].value)] + PartsDenoted(parts[1..])
  }

  ghost function EntriesDenoted(entries: seq<Entry>): seq<Member>
    requires forall i :: 0 <= i < |entries| ==> EntryTaken(entries[i])
  {
    if entries == [] then []
    else
      assert EntryTaken(entries[0]);
      [EntryDenoted(entries[0])] + EntriesDenoted(entries[1..])
  }

  // Lists and records, taken apart.
  lemma {:induction false} ListOf(blank: string, parts: seq<Part>)
    requires Spaces(blank) && (parts != [] ==> blank == "") && forall i :: 0 <= i < |parts| ==> PartTaken(parts[i])
    ensures var x := List(blank, parts);
            && Taken(x) && Written(x) == "[" + blank + PartsWritten(parts) + "]"
            && Denoted(x) == Array(PartsDenoted(parts)) && Levels(x) == 1 + PartsLevels(parts)
            && (parts != [] ==> PartsDenoted(parts) != [])
  {
    hide PartTaken, PartsWritten, PartsLevels;
  }

  lemma {:induction false} RecordOf(blank: string, entries: seq<Entry>)
    requires Spaces(blank) && (entries != [] ==> blank == "")
    requires forall i :: 0 <= i < |entries| ==> EntryTaken(entries[i])
    ensures var x := Record(blank, entries);
            && Taken(x) && Written(x) == "{" + blank + EntriesWritten(entries) + "}"
            && Denoted(x) == Object(EntriesDenoted(entries)) && Levels(x) == 1 + EntriesLevels(entries)
            && (entries != [] ==> EntriesDenoted(entries) != [])
  {
    hide EntryTaken, EntriesWritten, EntriesLevels;
  }

  lemma {:induction false} NumeralOf(n: Numbers.Numeral)
    requires Numbers.Taken(n) && |Numbers.NumeralText(n)| <= 63
    ensures var x := Numeral(n);
            && Taken(x) && Written(x) == Numbers.NumeralText(n)
            && Denoted(x) == Number(Numbers.NumeralText(n)) && Levels(x) == 0
  {
  }

  lemma {:induction false} PartOf(before: string, x: Syntax, after: string)
    requires Spaces(before) && Taken(x) && Spaces(after)
    ensures PartTaken(Part(before, x, after)) && PartWritten(Part(before, x, after)) == before + Written(x) + after
  {
    hide Spaces, Taken, Written;
  }

  lemma {:induction false} EntryOf(ps: seq<Strings.Piece>, behind: string, before: string, x: Syntax)
    requires Strings.Taken(ps) && Spaces(behind) && Spaces(before) && Taken(x)
    ensures var e := Entry("", ps, behind, Part(before, x, ""));
            EntryTaken(e) && EntryDenoted(e) == Member(UpToNul(Strings.ValueOf(ps)), Denoted(x))
  {
    hide Taken, Denoted, Strings.Taken, Strings.ValueOf, UpToNul;
    assert Spaces("");
  }

  lemma {:induction false} LiteralOf(ps: seq<Strings.Piece>)
    requires Taken(Literal(ps))
    ensures Strings.Taken(ps) && Written(Literal(ps)) == "\"" + Strings.TextOf(ps) + "\""
    ensures Denoted(Literal(ps)) == String(UpToNul(Strings.ValueOf(ps)))
  {
  }

  lemma {:induction false} Nothing()
    ensures Spaces("") && PartsWritten([]) == "" && EntriesWritten([]) == ""
    ensures EntriesDenoted([]) == [] && EntriesLevels([]) == 0 && PartsDenoted([]) == [] && PartsLevels([]) == 0
  {
  }

  // ----- What RFC 8259 allows

  ghost predicate LegalBlanks(w: string) {
    forall i :: 0 <= i < |w| ==> w[i] in " \t\n\r"
  }

  ghost predicate Legal(x: Syntax) {
    match x
    case Numeral(n) => Numbers.Legal(n)
    case Literal(ps) => Strings.Legal(ps)
    case List(blank, parts) =>
      && LegalBlanks(blank) && (parts != [] ==> blank == "")
      && forall i :: 0 <= i < |parts| ==>
           LegalBlanks(parts[i].before) && Legal(parts[i].value) && LegalBlanks(parts[i].after)
    case Record(blank, entries) =>
      && LegalBlanks(blank) && (entries != [] ==> blank == "")
      && forall i :: 0 <= i < |entries| ==>
           && LegalBlanks(entries[i].before) && Strings.Legal(entries[i].key) && LegalBlanks(entries[i].behind)
           && LegalBlanks(entries[i].part.before) && Legal(entries[i].part.value) && LegalBlanks(entries[i].part.after)
    case _ => true
  }

  ghost predicate ShortNumbers(x: Syntax) {
    match x
    case Numeral(n) => |Numbers.NumeralText(n)| <= 63
    case List(_, parts) => forall i :: 0 <= i < |parts| ==> ShortNumbers(parts[i].value)
    case Record(_, entries) => forall i :: 0 <= i < |entries| ==> ShortNumbers(entries[i].part.value)
    case _ => true
  }

  lemma {:induction false} LegalIsTaken(x: Syntax)
    requires Legal(x) && ShortNumbers(x)
    ensures Taken(x)
    decreases x, 1
  {
    match x
    case Literal(ps) => Strings.LegalIsTaken(ps);
    case List(blank, parts) =>
      forall i | 0 <= i < |parts|
        ensures PartTaken(parts[i])
      {
        LegalIsTaken(parts[i].value);
      }
    case Record(blank, entries) => LegalRecordIsTaken(blank, entries);
    case _ =>
  }

  lemma {:induction false} LegalRecordIsTaken(blank: string, entries: seq<Entry>)
    requires Legal(Record(blank, entries)) && ShortNumbers(Record(blank, entries))
    ensures Taken(Record(blank, entries))
    decreases Record(blank, entries), 0
  {
    hide Strings.Taken, Strings.Legal, Numbers.Legal, Numbers.Taken;
    forall i | 0 <= i < |entries|
      ensures EntryTaken(entries[i])
    {
      Strings.LegalIsTaken(entries[i].key);
      LegalIsTaken(entries[i].part.value);
    }
  }

  // ----- Trees are read

  lemma {:induction false} TreeReads(x: Syntax, depth: nat)
    requires Taken(x) && depth + Levels(x) <= 1000
    ensures ReadsValue(Written(x), Denoted(x), depth)
    decreases x, 2
  {
    hide ReadsValue;
    match x
    case NullWord => WordReads(Null, depth);
    case FalseWord => WordReads(False, depth);
    case TrueWord => WordReads(True, depth);
    case Numeral(n) =>
      Numbers.NumeralRead(n);
      NumberReads(Numbers.NumeralText(n), depth);
    case Literal(ps) => LiteralReads(ps, depth);
    case List(blank, parts) => ListReads(blank, parts, depth);
    case Record(blank, entries) => RecordReads(blank, entries, depth);
  }

  lemma {:induction false} LiteralStands(ps: seq<Strings.Piece>)
    requires Strings.Taken(ps)
    ensures var u := "\"" + Strings.TextOf(ps) + "\"";
            StringAt(u, 0) == ParsedText(UpToNul(Strings.ValueOf(ps)), |u|)
  {
    hide Strings.Taken;
    var u := "\"" + Strings.TextOf(ps) + "\"";
    assert u[1..|u| - 1] == Strings.TextOf(ps);
    Strings.LiteralRead(u, 0, ps);
  }

  lemma {:induction false} LiteralReads(ps: seq<Strings.Piece>, depth: nat)
    requires Strings.Taken(ps)
    ensures ReadsValue("\"" + Strings.TextOf(ps) + "\"", String(UpToNul(Strings.ValueOf(ps))), depth)
  {
    hide ReadsValue, StringAt;
    var u := "\"" + Strings.TextOf(ps) + "\"";
    LiteralStands(ps);
    StringReads(u, 0, depth);
    assert u[0..|u|] == u;
  }

  lemma {:induction false} LastPart(before: string, u: string, after: string, close: string)
    ensures before + (u + after + "") + close == before + u + after + close
  {
  }

  lemma {:induction false} MorePart(before: string, u: string, after: string, more: string, close: string)
    ensures before + (u + after + ("," + more)) + close == before + u + after + "," + (more + close)
  {
  }

  // Behind the blanks in front of the first.
  function BareParts(parts: seq<Part>): string
    requires parts != []
  {
    Written(parts[0].value) + parts[0].after + (if |parts| == 1 then "" else "," + PartsWritten(parts[1..]))
  }

  lemma {:induction false} PartsBare(parts: seq<Part>)
    requires parts != []
    ensures PartsWritten(parts) == parts[0].before + BareParts(parts)
  {
    hide Written;
  }

  lemma {:induction false} PartsRead(parts: seq<Part>, before: string, depth: nat)
    requires parts != [] && (forall i :: 0 <= i < |parts| ==> PartTaken(parts[i])) && Spaces(before)
    requires depth + PartsLevels(parts) <= 1000
    ensures ReadsItems(before + BareParts(parts) + "]", PartsDenoted(parts), depth)
    decreases parts, 0
  {
    hide ReadsValue, ReadsItems, Taken, Levels, Written, Spaces;
    var p, rest := parts[0], parts[1..];
    var u, v := Written(p.value), Denoted(p.value);
    assert PartTaken(p);
    TreeReads(p.value, depth);
    if |parts| == 1 {
      LastItemReads(before, u, p.after, v, depth);
      assert PartsDenoted(rest) == [] && [v] + [] == [v];
      LastPart(before, u, p.after, "]");
    } else {
      assert PartTaken(rest[0]);
      PartsRead(rest, rest[0].before, depth);
      PartsBare(rest);
      var more := rest[0].before + BareParts(rest) + "]";
      NextItemReads(before, u, p.after, more, v, PartsDenoted(rest), depth);
      MorePart(before, u, p.after, PartsWritten(rest), "]");
    }
  }

  lemma {:induction false} ListReads(blank: string, parts: seq<Part>, depth: nat)
    requires Taken(List(blank, parts)) && depth + Levels(List(blank, parts)) <= 1000
    ensures ReadsValue(Written(List(blank, parts)), Denoted(List(blank, parts)), depth)
    decreases List(blank, parts), 1
  {
    hide ReadsValue, ReadsItems, Written, Denoted, Levels, PartsWritten, PartsDenoted, PartsLevels;
    ListOf(blank, parts);
    Nothing();
    if parts == [] {
      ArrayReads(blank, "]", [], depth);
      assert "[" + blank + "" + "]" == "[" + blank + "]";
    } else {
      var p := parts[0];
      assert PartTaken(p);
      PartsRead(parts, "", depth + 1);
      PartsBare(parts);
      TreeStart(p.value);
      var bare := BareParts(parts) + "]";
      assert "" + BareParts(parts) + "]" == bare;
      ArrayReads(p.before, bare, PartsDenoted(parts), depth);
      assert Written(List(blank, parts)) == "[" + p.before + bare;
    }
  }

  // The text of a tree starts with a sign that is neither blank nor a bracket that closes.
  lemma {:induction false} TreeStart(x: Syntax)
    requires Taken(x)
    ensures Written(x) != "" && Written(x)[0] > ' ' && Written(x)[0] != ']' && Written(x)[0] != '}'
  {
    match x
    case Numeral(n) => Numbers.NumeralRead(n);
    case _ =>
  }

  function KeyAndValue(e: Entry): string {
    "\"" + Strings.TextOf(e.key) + "\"" + e.behind + ":" + e.part.before + Written(e.part.value)
  }

  lemma {:induction false} EntryReads(e: Entry, depth: nat)
    requires EntryTaken(e) && depth + Levels(e.part.value) <= 1000
    ensures ReadsMember(KeyAndValue(e), EntryDenoted(e), depth)
    decreases e, 0
  {
    hide ReadsValue, ReadsMember, StringAt, Taken, Levels, Written;
    var key := "\"" + Strings.TextOf(e.key) + "\"";
    LiteralStands(e.key);
    TreeReads(e.part.value, depth);
    MemberReads(key, 0, e.behind, e.part.before, Written(e.part.value), Denoted(e.part.value), depth);
    assert key[0..|key|] == key;
  }

  function BareEntries(entries: seq<Entry>): string
    requires entries != []
  {
    KeyAndValue(entries[0]) + entries[0].part.after
    + (if |entries| == 1 then "" else "," + EntriesWritten(entries[1..]))
  }

  lemma {:induction false} EntriesBare(entries: seq<Entry>)
    requires entries != []
    ensures EntriesWritten(entries) == entries[0].before + BareEntries(entries)
    ensures BareEntries(entries) != "" && BareEntries(entries)[0] == '"'
  {
    hide Written, Strings.TextOf;
    var e := entries[0];
    assert EntryWritten(e) == e.before + (KeyAndValue(e) + e.part.after);
  }

  lemma {:induction false} EntriesRead(entries: seq<Entry>, before: string, depth: nat)
    requires entries != [] && (forall i :: 0 <= i < |entries| ==> EntryTaken(entries[i])) && Spaces(before)
    requires depth + EntriesLevels(entries) <= 1000
    ensures ReadsMembers(before + BareEntries(entries) + "}", EntriesDenoted(entries), depth)
    decreases entries, 0
  {
    hide ReadsMember, ReadsMembers, Taken, Levels, EntryDenoted, KeyAndValue, Spaces, EntriesWritten, Strings.Taken;
    var e, rest := entries[0], entries[1..];
    assert EntryTaken(e);
    EntryReads(e, depth);
    var u, v := KeyAndValue(e), EntryDenoted(e);
    if |entries| == 1 {
      LastMemberReads(before, u, e.part.after, v, depth);
      assert EntriesDenoted(rest) == [] && [v] + [] == [v];
      LastPart(before, u, e.part.after, "}");
    } else {
      assert EntryTaken(rest[0]);
      EntriesRead(rest, rest[0].before, depth);
      EntriesBare(rest);
      var more := rest[0].before + BareEntries(rest) + "}";
      NextMemberReads(before, u, e.part.after, more, v, EntriesDenoted(rest), depth);
      MorePart(before, u, e.part.after, EntriesWritten(rest), "}");
    }
  }

  lemma {:induction false} RecordReads(blank: string, entries: seq<Entry>, depth: nat)
    requires Taken(Record(blank, entries)) && depth + Levels(Record(blank, entries)) <= 1000
    ensures ReadsValue(Written(Record(blank, entries)), Denoted(Record(blank, entries)), depth)
    decreases Record(blank, entries), 1
  {
    hide ReadsValue, ReadsMembers, BareEntries, EntryDenoted, Written, Denoted, Levels, EntriesWritten, EntriesDenoted,
         EntriesLevels;
    RecordOf(blank, entries);
    Nothing();
    if entries == [] {
      ObjectReads(blank, "}", [], depth);
      assert "{" + blank + "" + "}" == "{" + blank + "}";
    } else {
      var e := entries[0];
      assert EntryTaken(e);
      EntriesRead(entries, "", depth + 1);
      EntriesBare(entries);
      var bare := BareEntries(entries) + "}";
      assert "" + BareEntries(entries) + "}" == bare && bare[0] == '"';
      ObjectReads(e.before, bare, EntriesDenoted(entries), depth);
      assert Written(Record(blank, entries)) == "{" + e.before + bare;
    }
  }

  // The text of a tree, between blanks, is parsed to what the tree stands for.
  lemma {:induction false} TextIsParsed(before: string, x: Syntax, after: string)
    requires Spaces(before) && Taken(x) && Spaces(after) && Levels(x) <= 1000
    ensures ParsedDocument(before + Written(x) + after, true) == Some(Denoted(x))
  {
    hide ReadsValue;
    TreeReads(x, 0);
    MinifiedDocument(before, Written(x), after, Denoted(x));
  }

  // In particular every text of RFC 8259 is.
  lemma {:induction false} LegalTextIsParsed(before: string, x: Syntax, after: string)
    requires LegalBlanks(before) && Legal(x) && LegalBlanks(after) && ShortNumbers(x) && Levels(x) <= 1000
    ensures Taken(x) && ParsedDocument(before + Written(x) + after, true) == Some(Denoted(x))
  {
    LegalIsTaken(x);
    TextIsParsed(before, x, after);
  }

  // ----- What is read is the text of a tree

  lemma {:induction false} ValueHasTree(s: string, o: nat, depth: nat) returns (x: Syntax)
    requires EndsInNul(s) && o < |s| && ParsedValue(s, o, depth).Parsed? && depth <= 1000
    ensures var r := ParsedValue(s, o, depth);
            Taken(x) && Written(x) == s[o..r.end] && Denoted(x) == r.value && depth + Levels(x) <= 1000
    decreases |s| - o, 2
  {
    hide StringAt, ParsedNumber, ParsedArray, ParsedObject, NumberLength;
    if Matches(s, o, "null") {
      x := NullWord;
      MatchesSlice(s, o, "null");
    } else if Matches(s, o, "false") {
      x := FalseWord;
      MatchesSlice(s, o, "false");
    } else if Matches(s, o, "true") {
      x := TrueWord;
      MatchesSlice(s, o, "true");
    } else if s[o] == '"' {
      x := LiteralHasTree(s, o);
    } else if s[o] == '-' || IsDigit(s[o]) {
      x := NumberHasTree(s, o);
    } else if s[o] == '[' {
      x := ArrayHasTree(s, o, depth);
    } else {
      x := ObjectHasTree(s, o, depth);
    }
  }

  lemma {:induction false} LiteralHasTree(s: string, o: nat) returns (x: Syntax)
    requires o < |s| && StringAt(s, o).ParsedText?
    ensures x.Literal? && Taken(x) && Written(x) == s[o..StringAt(s, o).end]
    ensures Denoted(x) == String(StringAt(s, o).text)
  {
    hide StringAt, Strings.Taken, Strings.TextOf, Strings.ValueOf;
    var ps := Strings.LiteralHasPieces(s, o);
    x := Literal(ps);
    var end := StringAt(s, o).end;
    assert s[o..end] == [s[o]] + s[o + 1..end - 1] + [s[end - 1]];
  }

  lemma {:induction false} NumberHasTree(s: string, o: nat) returns (x: Syntax)
    requires EndsInNul(s) && o < |s| && ParsedNumber(s, o).Parsed? && (s[o] == '-' || IsDigit(s[o]))
    ensures Taken(x) && Written(x) == s[o..ParsedNumber(s, o).end] && Denoted(x) == ParsedNumber(s, o).value
    ensures Levels(x) == 0
  {
    hide NumberLength, ParsedNumber, Taken, Written, Denoted, Levels, Numbers.Taken, Numbers.NumeralText, Settles;
    NumberSegment(s, o);
    var u := s[o..ParsedNumber(s, o).end];
    var n := Numbers.ReadIsNumeral(u);
    assert u[..|u|] == u;
    NumeralOf(n);
    x := Numeral(n);
  }

  lemma {:induction false} ArrayHasTree(s: string, o: nat, depth: nat) returns (x: Syntax)
    requires EndsInNul(s) && o < |s| && s[o] == '[' && ParsedArray(s, o, depth).Parsed? && depth <= 1000
    ensures var r := ParsedArray(s, o, depth);
            Taken(x) && Written(x) == s[o..r.end] && Denoted(x) == r.value && depth + Levels(x) <= 1000
    decreases |s| - o, 1
  {
    hide ParsedElements, SkipWhitespace, Taken, Written, Denoted, Levels, PartTaken, Spaces, PartsWritten, PartsDenoted,
         PartsLevels;
    var a, end := SkipWhitespace(s, o + 1), ParsedArray(s, o, depth).end;
    var w := s[o + 1..a];
    SkippedAreSpaces(s, o + 1);
    Nothing();
    if s[a] == ']' {
      x := List(w, []);
      ListOf(w, []);
      assert s[o..end] == [s[o]] + w + "" + [s[a]];
    } else {
      var parts := ElementsHaveTrees(s, a - 1, depth + 1);
      var moved := [parts[0].(before := w + parts[0].before)] + parts[1..];
      MovedParts(parts, w, moved);
      ListOf("", moved);
      x := List("", moved);
      Enclosed(s, o, a, end, PartsWritten(parts), ']');
    }
  }

  // An opening bracket, blanks, a text, and a closing bracket.
  lemma {:induction false} Enclosed(s: string, o: nat, a: nat, end: nat, inner: string, close: char)
    requires o < a <= end <= |s| && inner + [close] == s[a..end]
    ensures [s[o]] + "" + (s[o + 1..a] + inner) + [close] == s[o..end]
  {
    assert [s[o]] + "" + (s[o + 1..a] + inner) + [close] == [s[o]] + s[o + 1..a] + (inner + [close]);
  }

  // More blanks in front of the first element.
  lemma {:induction false} MovedParts(parts: seq<Part>, w: string, moved: seq<Part>)
    requires parts != [] && (forall i :: 0 <= i < |parts| ==> PartTaken(parts[i])) && Spaces(w)
    requires moved == [parts[0].(before := w + parts[0].before)] + parts[1..]
    ensures forall i :: 0 <= i < |moved| ==> PartTaken(moved[i])
    ensures PartsWritten(moved) == w + PartsWritten(parts)
    ensures PartsDenoted(moved) == PartsDenoted(parts) && PartsLevels(moved) == PartsLevels(parts)
  {
    hide Written, Denoted, Levels, Taken;
    assert PartTaken(parts[0]) && moved[1..] == parts[1..];
    PartsBare(parts);
    PartsBare(moved);
  }

  // One element in front of others, or alone.
  lemma {:induction false} PartsFrom(p: Part, rest: seq<Part>)
    requires PartTaken(p) && forall i :: 0 <= i < |rest| ==> PartTaken(rest[i])
    ensures var all := [p] + rest;
            && (forall i :: 0 <= i < |all| ==> PartTaken(all[i]))
            && PartsWritten(all) == PartWritten(p) + (if rest == [] then "" else "," + PartsWritten(rest))
            && PartsDenoted(all) == [Denoted(p.value)] + PartsDenoted(rest)
            && PartsLevels(all) == Max(Levels(p.value), PartsLevels(rest))
  {
    hide PartWritten, Denoted, Levels, Taken;
    assert ([p] + rest)[1..] == rest;
  }

  // The elements behind the bracket or comma at o, up to the bracket that closes.
  lemma {:induction false} ElementsHaveTrees(s: string, o: nat, depth: nat) returns (parts: seq<Part>)
    requires EndsInNul(s) && o + 1 < |s| && ParsedElements(s, o, depth).ParsedItems? && depth <= 1000
    ensures var r := ParsedElements(s, o, depth);
            && parts != [] && (forall i :: 0 <= i < |parts| ==> PartTaken(parts[i]))
            && PartsWritten(parts) + "]" == s[o + 1..r.end]
            && PartsDenoted(parts) == r.items && depth + PartsLevels(parts) <= 1000
    decreases |s| - o, 0
  {
    hide SkipWhitespace, ParsedValue, Written, Denoted, Levels, Taken, Spaces, PartTaken, PartWritten, PartsWritten,
         PartsDenoted, PartsLevels;
    var a := SkipWhitespace(s, o + 1);
    var b := ParsedValue(s, a, depth).end;
    var y := SkipWhitespace(s, b);
    SkippedAreSpaces(s, o + 1);
    SkippedAreSpaces(s, b);
    var x := ValueHasTree(s, a, depth);
    var p := Part(s[o + 1..a], x, s[b..y]);
    PartOf(p.before, x, p.after);
    ThreeSlices(s, o + 1, a, b, y);
    if s[y] == ',' {
      var rest := ElementsHaveTrees(s, y, depth);
      parts := [p] + rest;
      PartsFrom(p, rest);
      Listed(s, o + 1, y, ParsedElements(s, o, depth).end, PartWritten(p), PartsWritten(rest), ']');
    } else {
      Nothing();
      parts := [p] + [];
      PartsFrom(p, []);
      assert s[o + 1..y + 1] == s[o + 1..y] + [s[y]];
    }
  }

  lemma {:induction false} ObjectHasTree(s: string, o: nat, depth: nat) returns (x: Syntax)
    requires EndsInNul(s) && o < |s| && s[o] == '{' && ParsedObject(s, o, depth).Parsed? && depth <= 1000
    ensures var r := ParsedObject(s, o, depth);
            Taken(x) && Written(x) == s[o..r.end] && Denoted(x) == r.value && depth + Levels(x) <= 1000
    decreases |s| - o, 1
  {
    hide ParsedMembersFrom, SkipWhitespace, Taken, Written, Denoted, Levels, EntryTaken, Spaces, EntriesWritten,
         EntriesDenoted, EntriesLevels;
    var a, end := SkipWhitespace(s, o + 1), ParsedObject(s, o, depth).end;
    var w := s[o + 1..a];
    SkippedAreSpaces(s, o + 1);
    Nothing();
    if s[a] == '}' {
      x := Record(w, []);
      RecordOf(w, []);
      assert s[o..end] == [s[o]] + w + "" + [s[a]];
    } else {
      var entries := MembersHaveTrees(s, a - 1, depth + 1);
      var moved := [entries[0].(before := w + entries[0].before)] + entries[1..];
      MovedEntries(entries, w, moved);
      RecordOf("", moved);
      x := Record("", moved);
      Enclosed(s, o, a, end, EntriesWritten(entries), '}');
    }
  }

  lemma {:induction false} MovedEntries(entries: seq<Entry>, w: string, moved: seq<Entry>)
    requires entries != [] && (forall i :: 0 <= i < |entries| ==> EntryTaken(entries[i])) && Spaces(w)
    requires moved == [entries[0].(before := w + entries[0].before)] + entries[1..]
    ensures forall i :: 0 <= i < |moved| ==> EntryTaken(moved[i])
    ensures EntriesWritten(moved) == w + EntriesWritten(entries)
    ensures EntriesDenoted(moved) == EntriesDenoted(entries) && EntriesLevels(moved) == EntriesLevels(entries)
  {
    hide KeyAndValue, Denoted, Levels, Taken, PartTaken, EntriesWritten, BareEntries, Strings.Taken, Spaces;
    var e, d := entries[0], moved[0];
    assert EntryTaken(e) && moved[1..] == entries[1..];
    MoreBlanks(w, e.before);
    EntriesBare(entries);
    EntriesBare(moved);
    SameBare(entries, moved);
    assert EntryDenoted(d) == EntryDenoted(e);
  }

  lemma {:induction false} MoreBlanks(w: string, x: string)
    requires Spaces(w) && Spaces(x)
    ensures Spaces(w + x)
  {
  }

  lemma {:induction false} SameBare(entries: seq<Entry>, moved: seq<Entry>)
    requires entries != [] && moved != [] && moved[1..] == entries[1..]
    requires moved[0] == entries[0].(before := moved[0].before)
    ensures BareEntries(moved) == BareEntries(entries)
  {
    hide KeyAndValue, EntriesWritten;
    SameKeyAndValue(entries[0], moved[0]);
  }

  lemma {:induction false} SameKeyAndValue(d: Entry, e: Entry)
    requires e == d.(before := e.before)
    ensures KeyAndValue(d) == KeyAndValue(e)
  {
  }

  lemma {:induction false} MembersHaveTrees(s: string, o: nat, depth: nat) returns (entries: seq<Entry>)
    requires EndsInNul(s) && o + 1 < |s| && ParsedMembersFrom(s, o, depth).ParsedMembers? && depth <= 1000
    ensures var r := ParsedMembersFrom(s, o, depth);
            && entries != [] && (forall i :: 0 <= i < |entries| ==> EntryTaken(entries[i]))
            && EntriesWritten(entries) + "}" == s[o + 1..r.end]
            && EntriesDenoted(entries) == r.members && depth + EntriesLevels(entries) <= 1000
    decreases |s| - o, 0
  {
    hide SkipWhitespace, ParsedMemberFrom, KeyAndValue, Spaces, EntryTaken, EntryWritten, EntriesWritten, EntryDenoted,
         EntriesDenoted, EntriesLevels, Levels, Taken, PartTaken, Denoted, Written, UpToNul, ParsedValue;
    var a := SkipWhitespace(s, o + 1);
    var b := ParsedMemberFrom(s, a, depth).end;
    var y := SkipWhitespace(s, b);
    SkippedAreSpaces(s, o + 1);
    SkippedAreSpaces(s, b);
    var d := MemberHasTree(s, a, depth);
    var e := d.(before := s[o + 1..a], part := d.part.(after := s[b..y]));
    EntryAround(d, e);
    ThreeSlices(s, o + 1, a, b, y);
    if s[y] == ',' {
      var rest := MembersHaveTrees(s, y, depth);
      entries := [e] + rest;
      EntriesFrom(e, rest);
      Listed(s, o + 1, y, ParsedMembersFrom(s, o, depth).end, EntryWritten(e), EntriesWritten(rest), '}');
    } else {
      Nothing();
      entries := [e] + [];
      EntriesFrom(e, []);
      assert s[o + 1..y + 1] == s[o + 1..y] + [s[y]];
    }
  }

  lemma {:induction false} ThreeSlices(s: string, o: nat, a: nat, b: nat, y: nat)
    requires o <= a <= b <= y <= |s|
    ensures s[o..a] + s[a..b] + s[b..y] == s[o..y]
  {
  }

  // Something, a comma, and more.
  lemma {:induction false} Listed(s: string, o: nat, y: nat, end: nat, first: string, more: string, close: char)
    requires o <= y < end <= |s| && s[y] == ',' && first == s[o..y] && more + [close] == s[y + 1..end]
    ensures first + ("," + more) + [close] == s[o..end]
  {
    assert first + ("," + more) + [close] == first + "," + (more + [close]);
  }

  // One entry in front of others, or alone.
  lemma {:induction false} EntriesFrom(e: Entry, rest: seq<Entry>)
    requires EntryTaken(e) && forall i :: 0 <= i < |rest| ==> EntryTaken(rest[i])
    ensures var all := [e] + rest;
            && (forall i :: 0 <= i < |all| ==> EntryTaken(all[i]))
            && EntriesWritten(all) == EntryWritten(e) + (if rest == [] then "" else "," + EntriesWritten(rest))
            && EntriesDenoted(all) == [EntryDenoted(e)] + EntriesDenoted(rest)
            && EntriesLevels(all) == Max(Levels(e.part.value), EntriesLevels(rest))
  {
    hide EntryTaken, EntryWritten, EntryDenoted, Levels;
    assert ([e] + rest)[1..] == rest;
  }

  lemma {:induction false} EntryAround(d: Entry, e: Entry)
    requires EntryTaken(d) && Spaces(e.before) && Spaces(e.part.after)
    requires e == d.(before := e.before, part := d.part.(after := e.part.after))
    ensures EntryTaken(e) && EntryDenoted(e) == EntryDenoted(d)
    ensures EntryWritten(e) == e.before + KeyAndValue(d) + e.part.after
  {
    EntryTakenAround(d, e);
    EntryWrittenAround(d, e);
  }

  lemma {:induction false} EntryTakenAround(d: Entry, e: Entry)
    requires EntryTaken(d) && Spaces(e.before) && Spaces(e.part.after)
    requires e == d.(before := e.before, part := d.part.(after := e.part.after))
    ensures EntryTaken(e) && EntryDenoted(e) == EntryDenoted(d)
  {
    hide Taken, Denoted, Spaces, Strings.Taken, UpToNul, Strings.ValueOf;
    assert PartTaken(d.part) && PartTaken(e.part);
  }

  lemma {:induction false} EntryWrittenAround(d: Entry, e: Entry)
    requires e == d.(before := e.before, part := d.part.(after := e.part.after))
    ensures EntryWritten(e) == e.before + KeyAndValue(d) + e.part.after
  {
    hide Written, Strings.TextOf;
    var k, w := "\"" + Strings.TextOf(d.key) + "\"" + d.behind + ":", Written(d.part.value);
    FourPieces(e.before, k, d.part.before, w, e.part.after);
  }

  lemma {:induction false} FourPieces(a: string, k: string, b: string, w: string, c: string)
    ensures a + (k + (b + w + c)) == a + (k + b + w) + c
  {
  }

  // A member, without the blanks around it.
  lemma {:induction false} MemberHasTree(s: string, o: nat, depth: nat) returns (e: Entry)
    requires EndsInNul(s) && o < |s| && ParsedMemberFrom(s, o, depth).ParsedMember? && depth <= 1000
    ensures var r := ParsedMemberFrom(s, o, depth);
            && EntryTaken(e) && e.before == "" && e.part.after == ""
            && KeyAndValue(e) == s[o..r.end] && EntryDenoted(e) == r.member
            && depth + Levels(e.part.value) <= 1000
    decreases |s| - o, 2
  {
    hide SkipWhitespace, ParsedValue, StringAt, Taken, Denoted, Written, KeyAndValue, EntryTaken, EntryDenoted, Levels,
         Spaces, UpToNul, Strings.Taken, Strings.TextOf, Strings.ValueOf;
    var end := StringAt(s, o).end;
    var colon := SkipWhitespace(s, end);
    var a := SkipWhitespace(s, colon + 1);
    SkippedAreSpaces(s, end);
    SkippedAreSpaces(s, colon + 1);
    var key := LiteralHasTree(s, o);
    var x := ValueHasTree(s, a, depth);
    e := Entry("", key.ps, s[end..colon], Part(s[colon + 1..a], x, ""));
    var b := ParsedMemberFrom(s, o, depth).end;
    LiteralOf(key.ps);
    EntryOf(key.ps, s[end..colon], s[colon + 1..a], x);
    KeyAndValueAt(s, o, end, colon, a, b, key.ps, x);
  }

  lemma {:induction false} KeyAndValueAt(s: string, o: nat, end: nat, colon: nat, a: nat, b: nat,
                                         ps: seq<Strings.Piece>, x: Syntax)
    requires o <= end <= colon < a <= b <= |s| && s[colon] == ':'
    requires s[o..end] == "\"" + Strings.TextOf(ps) + "\"" && s[a..b] == Written(x)
    ensures KeyAndValue(Entry("", ps, s[end..colon], Part(s[colon + 1..a], x, ""))) == s[o..b]
  {
    hide Written, Strings.TextOf;
    FiveSlices(s, o, end, colon, a, b);
  }

  lemma {:induction false} FiveSlices(s: string, o: nat, end: nat, colon: nat, a: nat, b: nat)
    requires o <= end <= colon < a <= b <= |s|
    ensures s[o..b] == s[o..end] + s[end..colon] + [s[colon]] + s[colon + 1..a] + s[a..b]
  {
    assert s[o..end] + s[end..colon] == s[o..colon];
    assert s[o..colon] + [s[colon]] == s[o..colon + 1];
    assert s[o..colon + 1] + s[colon + 1..a] == s[o..a];
    assert s[o..a] + s[a..b] == s[o..b];
  }

  // A text that is accepted as a whole is the text of a tree between blanks, nested at
  // most 1000 deep, and the result is what the tree stands for.
  lemma {:induction false} AcceptedHasTree(text: string) returns (before: string, x: Syntax, after: string)
    requires ParsedDocument(text, true).Some?
    ensures Spaces(before) && Taken(x) && Spaces(after) && Levels(x) <= 1000
    ensures text == before + Written(x) + after && ParsedDocument(text, true) == Some(Denoted(x))
  {
    hide SkipWhitespace, ParsedValue, Written, Denoted, Levels, Taken, Spaces;
    var s := text + [NUL];
    var a := SkipWhitespace(s, 0);
    x := ValueHasTree(s, a, 0);
    var b := ParsedValue(s, a, 0).end;
    SkippedAreSpaces(s, 0);
    SkippedAreSpaces(s, b);
    AtTerminator(text, SkipWhitespace(s, b));
    before, after := s[0..a], s[b..|text|];
    ThreeSlices(s, 0, a, b, |text|);
    assert text == s[0..|text|];
  }

  // If anything may follow, the first value of a text is read: all of a tree's text where
  // no more of a number could follow,
  lemma {:induction false} StartIsParsed(before: string, x: Syntax, rest: string)
    requires Spaces(before) && Taken(x) && Levels(x) <= 1000
    requires rest != "" ==> !IsNumberChar(rest[0])
    ensures ParsedDocument(before + Written(x) + rest, false) == Some(Denoted(x))
    ensures var s := before + Written(x) + rest + [NUL];
            && SkipWhitespace(s, 0) == |before|
            && ParsedValue(s, |before|, 0) == Parsed(Denoted(x), |before + Written(x)|)
  {
    hide ReadsValue, ParsedValue, SkipWhitespace, Written, Denoted, Levels, Taken, Spaces;
    TreeReads(x, 0);
    StartRead(before, Written(x), rest, Denoted(x));
  }

  lemma {:induction false} StartRead(w: string, u: string, rest: string, v: Json)
    requires Spaces(w) && ReadsValue(u, v, 0) && (rest != "" ==> !IsNumberChar(rest[0]))
    ensures ParsedDocument(w + u + rest, false) == Some(v)
    ensures var s := w + u + rest + [NUL];
            SkipWhitespace(s, 0) == |w| && |w| < |s| && ParsedValue(s, |w|, 0) == Parsed(v, |w + u|)
  {
    hide ParsedValue, SkipWhitespace;
    var m := w + u + rest + [NUL];
    assert Matches(m, 0, w) && Matches(m, |w|, u);
    assert m[|w|] == u[0] && m[|w| + |u|] == (rest + [NUL])[0];
    MinifyParse.Skips(m, 0, w);
    ReadsValueAt(u, v, 0, m, |w|);
  }

  // and always the text of some tree.
  lemma {:induction false} StartHasTree(text: string) returns (before: string, x: Syntax, rest: string)
    requires ParsedDocument(text, false).Some?
    ensures Spaces(before) && Taken(x) && Levels(x) <= 1000
    ensures text == before + Written(x) + rest && ParsedDocument(text, false) == Some(Denoted(x))
  {
    hide SkipWhitespace, ParsedValue, Written, Denoted, Levels, Taken, Spaces;
    var s := text + [NUL];
    var a := SkipWhitespace(s, 0);
    x := ValueHasTree(s, a, 0);
    var b := ParsedValue(s, a, 0).end;
    SkippedAreSpaces(s, 0);
    before, rest := s[0..a], s[b..|text|];
    ThreeSlices(s, 0, a, b, |text|);
    assert text == s[0..|text|];
  }

  // The first sign that is not blank can only be a NUL where the input ends.
  lemma {:induction false} AtTerminator(text: string, y: nat)
    requires y <= |text| && (y < |text| ==> (text + [NUL])[y] > ' ') && (text + [NUL])[y] == NUL
    ensures y == |text|
  {
  }
}
