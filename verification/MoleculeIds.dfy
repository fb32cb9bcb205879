/** Molecule ids: SARA-Name, or Aging-SARA-Name-Code.  The digit class of the pattern also admits non-ASCII decimal
    digits, so the test for a digit is a parameter. */
module MoleculeIds {
  import opened Common
  import opened Strings

  datatype MoleculeId = MoleculeId(aging: Option<char>, sara: string, name: string, code: Option<string>)
  {
    function BaseId(): string {
      sara + "-" + name
    }

    function FullId(): string {
      if aging.Some? && code.Some? && code.value != "" then [aging.value] + "-" + sara + "-" + name + "-" + code.value
      else BaseId()
    }

    // Ids of the two-form grammar.
    predicate WellFormed(digit: char -> bool) {
      && IsSara(sara) && IsName(name)
      && ((aging.None? && code.None?)
          || (aging.Some? && code.Some? && IsAging(aging.value) && IsCode(digit, code.value)))
    }
  }

  datatype IdError = BadFormat | BadSara(sara: string)

  predicate IsAging(c: char) {
    c == 'U' || c == 'S' || c == 'L'
  }

  predicate IsSara(s: string) {
    s == "SA" || s == "AR" || s == "RE" || s == "AS"
  }

  predicate IsUpperPair(s: string) {
    |s| == 2 && 'A' <= s[0] <= 'Z' && 'A' <= s[1] <= 'Z'
  }

  predicate IsNameChar(c: char) {
    ('A' <= c <= 'Z') || ('a' <= c <= 'z') || IsDigit(c)
  }

  predicate IsName(s: string) {
    s != "" && forall k :: 0 <= k < |s| ==> IsNameChar(s[k])
  }

  predicate IsCode(digit: char -> bool, s: string) {
    |s| == 4 && forall k :: 0 <= k < |s| ==> digit(s[k])
  }

  // What a digit test has to satisfy.
  ghost predicate IsDigitTest(digit: char -> bool) {
    (forall c :: IsDigit(c) ==> digit(c)) && !digit('-') && !digit('\n')
  }

  // The dollar sign of the pattern also matches before one final line break.
  function Body(s: string): string {
    if s != "" && s[|s| - 1] == '\n' then s[..|s| - 1] else s
  }

  function ParseMoleculeId(digit: char -> bool, s: string): Result<MoleculeId, IdError> {
    var parts := Split(Body(s), '-');
    if |parts| == 4 && |parts[0]| == 1 && IsAging(parts[0][0]) && IsUpperPair(parts[1]) && IsName(parts[2])
       && IsCode(digit, parts[3]) then
      if IsSara(parts[1]) then Success(MoleculeId(Some(parts[0][0]), parts[1], parts[2], Some(parts[3])))
      else Failure(BadSara(parts[1]))
    else if |parts| == 2 && IsUpperPair(parts[0]) && IsName(parts[1]) then
      if IsSara(parts[0]) then Success(MoleculeId(None, parts[0], parts[1], None))
      else Failure(BadSara(parts[0]))
    else Failure(BadFormat)
  }

  lemma JoinTwo(a: string, b: string)
    ensures Join([a, b], '-') == a + "-" + b
  {
    assert [a, b][1..] == [b];
  }

  lemma JoinFour(a: string, b: string, c: string, d: string)
    ensures Join([a, b, c, d], '-') == a + "-" + b + "-" + c + "-" + d
  {
    assert [a, b, c, d][1..] == [b, c, d] && [b, c, d][1..] == [c, d];
    JoinTwo(c, d);
  }

  lemma NoDash(digit: char -> bool, m: MoleculeId)
    requires IsDigitTest(digit) && m.WellFormed(digit)
    ensures '-' !in m.sara && '-' !in m.name && '\n' !in m.name
    ensures m.code.Some? ==> '-' !in m.code.value && '\n' !in m.code.value
    ensures m.aging.Some? ==> m.aging.value != '-'
  {
    assert !IsNameChar('-') && !IsNameChar('\n');
    if m.code.Some? {
      forall k | 0 <= k < |m.code.value| ensures m.code.value[k] != '-' && m.code.value[k] != '\n' {
        assert digit(m.code.value[k]);
      }
    }
  }

  lemma NoFinalBreak(digit: char -> bool, m: MoleculeId)
    requires IsDigitTest(digit) && m.WellFormed(digit)
    ensures Body(m.FullId()) == m.FullId()
  {
    NoDash(digit, m);
    var s := m.FullId();
    if m.aging.Some? {
      assert s[|s| - 1] == m.code.value[|m.code.value| - 1];
    } else {
      assert s[|s| - 1] == m.name[|m.name| - 1];
    }
  }

  // The parts of a printed id.
  lemma PartsOfPrinted(digit: char -> bool, m: MoleculeId)
    requires IsDigitTest(digit) && m.WellFormed(digit)
    ensures Split(m.FullId(), '-')
      == if m.aging.Some? then [[m.aging.value], m.sara, m.name, m.code.value] else [m.sara, m.name]
  {
    hide Split, Join, IsName, IsCode;
    NoDash(digit, m);
    if m.aging.Some? {
      assert m.code.value != "" by { CodeNotEmpty(digit, m.code.value); }
      var parts := [[m.aging.value], m.sara, m.name, m.code.value];
      JoinFour(parts[0], parts[1], parts[2], parts[3]);
      SplitJoin(parts, '-');
    } else {
      JoinTwo(m.sara, m.name);
      SplitJoin([m.sara, m.name], '-');
    }
  }

  lemma CodeNotEmpty(digit: char -> bool, code: string)
    requires IsCode(digit, code)
    ensures code != ""
  {
  }

  /** Printing an id of the grammar and parsing it gives it back; nothing else survives the round trip. */
  lemma PrintThenParseIff(digit: char -> bool, m: MoleculeId)
    requires IsDigitTest(digit)
    ensures ParseMoleculeId(digit, m.FullId()) == Success(m) <==> m.WellFormed(digit)
  {
    hide Split, IsName, IsCode, Body, MoleculeId.FullId;
    if m.WellFormed(digit) {
      NoFinalBreak(digit, m);
      PartsOfPrinted(digit, m);
    }
  }

  lemma FourParts(parts: seq<string>)
    requires |parts| == 4
    ensures Join(parts, '-') == parts[0] + "-" + parts[1] + "-" + parts[2] + "-" + parts[3]
  {
    JoinFour(parts[0], parts[1], parts[2], parts[3]);
    assert parts == [parts[0], parts[1], parts[2], parts[3]];
  }

  lemma TwoParts(parts: seq<string>)
    requires |parts| == 2
    ensures Join(parts, '-') == parts[0] + "-" + parts[1]
  {
    JoinTwo(parts[0], parts[1]);
    assert parts == [parts[0], parts[1]];
  }

  /** Whatever parses is in the grammar, and prints back as the text without a final line break. */
  lemma ParseThenPrint(digit: char -> bool, s: string)
    requires ParseMoleculeId(digit, s).Success?
    ensures ParseMoleculeId(digit, s).value.WellFormed(digit)
    ensures ParseMoleculeId(digit, s).value.FullId() == Body(s)
    ensures ParseMoleculeId(digit, s).value.FullId() == s <==> s[|s| - 1] != '\n'
  {
    hide Split, Join;
    var parts := Split(Body(s), '-');
    JoinSplit(Body(s), '-');
    if |parts| == 4 {
      FourParts(parts);
      assert parts[0] == [parts[0][0]];
    } else {
      TwoParts(parts);
    }
  }

  function AgingPrefix(aging: string): Option<char> {
    if aging == "non_aging" then Some('U')
    else if aging == "short_aging" then Some('S')
    else if aging == "long_aging" then Some('L')
    else None
  }

  datatype BuildError = InvalidBase(e: IdError) | AlreadyAged | UnknownAging

  function BuildAgingId(digit: char -> bool, baseId: string, aging: string, code: string): Result<string, BuildError> {
    var parsed := ParseMoleculeId(digit, baseId);
    if parsed.Failure? then Failure(InvalidBase(parsed.error))
    else if parsed.value.aging.Some? then Failure(AlreadyAged)
    else if AgingPrefix(aging).None? then Failure(UnknownAging)
    else Success([AgingPrefix(aging).value] + "-" + parsed.value.sara + "-" + parsed.value.name + "-" + code)
  }

  /** The prefixes of the three agings; no other aging is known. */
  lemma AgingPrefixes(aging: string)
    ensures AgingPrefix("non_aging") == Some('U')
    ensures AgingPrefix("short_aging") == Some('S')
    ensures AgingPrefix("long_aging") == Some('L')
    ensures AgingPrefix(aging).None? <==> aging !in {"non_aging", "short_aging", "long_aging"}
  {
    assert "non_aging"[0] == 'n' && "short_aging"[0] == 's' && "long_aging"[0] == 'l';
  }

  /** A built id parses back to its components exactly when the code has four digits; no code is checked on building. */
  lemma BuiltIdParsesIff(digit: char -> bool, baseId: string, aging: string, code: string)
    requires IsDigitTest(digit) && BuildAgingId(digit, baseId, aging, code).Success?
    ensures var base := ParseMoleculeId(digit, baseId).value;
      var components := MoleculeId(AgingPrefix(aging), base.sara, base.name, Some(code));
      ParseMoleculeId(digit, BuildAgingId(digit, baseId, aging, code).value) == Success(components) <==>
        IsCode(digit, code)
  {
    hide Split, IsName;
    var base := ParseMoleculeId(digit, baseId).value;
    ParseThenPrint(digit, baseId);
    var m := MoleculeId(AgingPrefix(aging), base.sara, base.name, Some(code));
    var built := BuildAgingId(digit, baseId, aging, code).value;
    if code != "" {
      assert m.FullId() == built;
      PrintThenParseIff(digit, m);
    } else if ParseMoleculeId(digit, built) == Success(m) {
      ParseThenPrint(digit, built);
    }
  }

  /** The documented ids parse to their parts. */
  lemma DocumentedIds(digit: char -> bool)
    requires IsDigitTest(digit)
    ensures ParseMoleculeId(digit, "U" + "-" + "AS" + "-" + "Thio" + "-" + "0293")
      == Success(MoleculeId(Some('U'), "AS", "Thio", Some("0293")))
    ensures ParseMoleculeId(digit, "SA" + "-" + "Squalane") == Success(MoleculeId(None, "SA", "Squalane", None))
  {
    var aged, base := MoleculeId(Some('U'), "AS", "Thio", Some("0293")), MoleculeId(None, "SA", "Squalane", None);
    assert ['U'] == "U";
    assert aged.WellFormed(digit) && base.WellFormed(digit);
    assert aged.FullId() == "U" + "-" + "AS" + "-" + "Thio" + "-" + "0293" && base.FullId() == "SA" + "-" + "Squalane";
    hide ParseMoleculeId, MoleculeId.WellFormed, MoleculeId.FullId;
    PrintThenParseIff(digit, aged);
    PrintThenParseIff(digit, base);
  }

  /** An id of a category and a name parses to them exactly when the category is one of the four and the name is not
      empty and has letters and digits only. */
  lemma BaseIdParsesIff(digit: char -> bool, sara: string, name: string)
    requires IsDigitTest(digit)
    ensures ParseMoleculeId(digit, sara + "-" + name) == Success(MoleculeId(None, sara, name, None)) <==>
      && sara in {"SA", "AR", "RE", "AS"} && name != ""
      && forall c :: c in name ==> 'A' <= c <= 'Z' || 'a' <= c <= 'z' || '0' <= c <= '9'
  {
    var m := MoleculeId(None, sara, name, None);
    PrintThenParseIff(digit, m);
    hide ParseMoleculeId;
    assert (forall c :: c in name ==> IsNameChar(c)) <==> (forall k :: 0 <= k < |name| ==> IsNameChar(name[k]));
  }

  /** A pair of capitals that is no category is named in the error. */
  lemma UnknownCategory(digit: char -> bool, sara: string, name: string)
    requires |sara| == 2 && 'A' <= sara[0] <= 'Z' && 'A' <= sara[1] <= 'Z' && sara !in {"SA", "AR", "RE", "AS"}
    requires IsName(name)
    ensures ParseMoleculeId(digit, sara + "-" + name) == Failure(BadSara(sara))
  {
    assert !IsNameChar('-') && !IsNameChar('\n');
    var id := sara + "-" + name;
    assert id[|id| - 1] == name[|name| - 1];
    JoinTwo(sara, name);
    SplitJoin([sara, name], '-');
    hide Split, Join;
  }

  /** An id followed by a line break parses, and does not print back. */
  lemma LineBreakIsLost(digit: char -> bool)
    ensures ParseMoleculeId(digit, "SA-X\n") == Success(MoleculeId(None, "SA", "X", None))
    ensures ParseMoleculeId(digit, "SA-X\n").value.FullId() == "SA-X" != "SA-X\n"
  {
    assert Body("SA-X\n") == "SA-X";
    assert "SA-X" == "SA" + ['-'] + "X";
    SplitFirst("SA", "X", '-');
    SplitPlain("X", '-');
  }
}
