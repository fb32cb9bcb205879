/** Experiment ids: {binder}_{size}_{aging}_{additive}_{temp}K_{hash} for binders, and
    {molecule}_{boundary}_{temp}K_d{density}_{hash} for amorphous cells. */
module ExperimentIds {
  import opened Common
  import opened Numeric
  import opened Strings

  function BinderAbbrev(binder: string): string {
    if binder == "AAA1" then "A1"
    else if binder == "AAK1" then "K1"
    else if binder == "AAM1" then "M1"
    else if binder == "custom" then "C"
    else if |binder| <= 2 then binder else binder[..2]
  }

  function BinderOf(abbrev: string): string {
    if abbrev == "A1" then "AAA1"
    else if abbrev == "K1" then "AAK1"
    else if abbrev == "M1" then "AAM1"
    else if abbrev == "C" then "custom"
    else abbrev
  }

  function AgingAbbrev(aging: string): string {
    if aging == "short_aging" then "SA" else if aging == "long_aging" then "LA" else "NA"
  }

  function AgingOf(abbrev: string): string {
    if abbrev == "NA" then "non_aging"
    else if abbrev == "SA" then "short_aging"
    else if abbrev == "LA" then "long_aging"
    else abbrev
  }

  predicate IsBoundary(s: string) {
    s == "ppp" || s == "ppf"
  }

  function OrElse(s: string, default: string): string {
    if s == "" then default else s
  }

  function TempText(temperature: real): string {
    IntString(Trunc(temperature)) + "K"
  }

  function GenerateExpId(binder: string, size: string, temperature: real, additive: string, aging: string,
                         hash: string): string {
    Join([BinderAbbrev(binder), size, AgingAbbrev(aging), OrElse(additive, "none"), TempText(temperature), hash], '_')
  }

  function GenerateAmorphousExpId(molId: string, boundary: string, temperature: real, density: real,
                                  hash: string): string {
    Join([molId, boundary, TempText(temperature), "d" + Fixed(density, 2), hash], '_')
  }

  // The dictionary that parsing fills; a missing entry is None.
  datatype Parsed = Parsed(binder: Option<string>, size: Option<string>, aging: Option<string>,
                           additive: Option<string>,
                           temperature: Option<real>, hash: Option<string>, density: Option<real>)

  const BLANK := Parsed(None, None, None, None, None, None, None)

  function ParseTemp(rd: Reader, part: string): Option<real> {
    if part != "" && part[|part| - 1] == 'K' then rd.readFloat(part[..|part| - 1]) else None
  }

  function ParseDensity(rd: Reader, part: string): Option<real> {
    if part != "" && part[0] == 'd' then rd.readFloat(part[1..]) else None
  }

  function ParseParts(rd: Reader, parts: seq<string>): Parsed {
    if |parts| >= 5 && IsBoundary(parts[1]) then
      Parsed(Some(parts[0]), Some(parts[1]), None, None, ParseTemp(rd, parts[2]), Some(parts[4]),
             ParseDensity(rd, parts[3]))
    else if |parts| >= 6 then
      Parsed(Some(parts[0]), Some(parts[1]), Some(AgingOf(parts[2])),
             if parts[3] == "none" then None else Some(parts[3]),
             ParseTemp(rd, parts[4]), Some(parts[5]), None)
    else BLANK
  }

  method ParseExpId(rd: Reader, id: string) returns (result: Parsed)
    ensures result == ParseParts(rd, Split(id, '_'))
  {
    result := BLANK;
    var parts := Split(id, '_');
    if |parts| >= 5 && IsBoundary(parts[1]) {
      result := result.(binder := Some(parts[0]));
      result := result.(size := Some(parts[1]));
      result := result.(temperature := ParseTemp(rd, parts[2]));
      result := result.(density := ParseDensity(rd, parts[3]));
      result := result.(hash := Some(parts[4]));
      return;
    }
    if |parts| >= 6 {
      result := result.(binder := Some(parts[0]));
      result := result.(size := Some(parts[1]));
      result := result.(aging := Some(AgingOf(parts[2])));
      result := result.(additive := if parts[3] == "none" then None else Some(parts[3]));
      result := result.(temperature := ParseTemp(rd, parts[4]));
      result := result.(hash := Some(parts[5]));
    }
  }

  function Text(o: Option<string>, default: string): string {
    if o.None? || o.value == "" then default else o.value
  }

  datatype Material = Molecule(id: string) | Binder(binder: string, size: string, aging: string)

  function MaterialOf(p: Parsed): Material {
    var size := Text(p.size, "X1");
    if IsBoundary(size) then Molecule(Text(p.binder, "unknown"))
    else Binder(BinderOf(Text(p.binder, "A1")), size, Text(p.aging, "non_aging"))
  }

  function MaterialText(m: Material): string {
    match m
    case Molecule(id) => id
    case Binder(binder, size, aging) => binder + "_" + size + "_" + aging
  }

  function ExpIdToMaterialId(rd: Reader, id: string): string {
    MaterialText(MaterialOf(ParseParts(rd, Split(id, '_'))))
  }

  // ---------------------------------------------------------------- the parts of a generated id

  lemma PlainTexts(temperature: real, density: real)
    ensures '_' !in TempText(temperature) && '_' !in "d" + Fixed(density, 2)
  {
    hide Fixed, Strings.IntString;
    IntRoundTrip(Trunc(temperature));
    FixedRoundTrip(density, 2);
  }

  lemma TempFacts(rd: Reader, temperature: real)
    requires rd.ReadsNumerals()
    ensures ParseTemp(rd, TempText(temperature)) == Some(Trunc(temperature) as real)
  {
    hide Strings.NeverStartsNumber, ParseFloat, Strings.IntString;
    var n := IntString(Trunc(temperature));
    IntRoundTrip(Trunc(temperature));
    assert TempText(temperature)[..|n|] == n;
    IntIsFloat(Trunc(temperature));
  }

  lemma IntIsFloat(n: int)
    ensures ParseFloat(IntString(n)) == Some(n as real)
  {
    if n < 0 {
      DigitsAreFloat(-n);
      assert IntString(n)[1..] == NatString(-n);
    } else {
      DigitsAreFloat(n);
      assert IsDigit(NatString(n)[0]);
    }
  }

  lemma DigitsAreFloat(n: nat)
    ensures ParseUnsigned(NatString(n)) == Some(n as real)
  {
    NatRoundTrip(n);
    assert '.' !in NatString(n);
    SplitPlain(NatString(n), '.');
  }

  lemma DensityFacts(rd: Reader, density: real)
    requires rd.ReadsNumerals()
    ensures ParseDensity(rd, "d" + Fixed(density, 2)) == Some(Rounded(density, 2))
  {
    hide Fixed, ParseFloat, Strings.NeverStartsNumber;
    FixedRoundTrip(density, 2);
    assert ("d" + Fixed(density, 2))[1..] == Fixed(density, 2);
  }

  // The parts of a joined list, when only the third-last part may contain the separator.
  lemma SplitSix(a: string, b: string, c: string, d: string, e: string, f: string)
    ensures Split(Join([a, b, c, d, e, f], '_'), '_')
      == Split(a, '_') + Split(b, '_') + Split(c, '_') + Split(d, '_') + Split(e, '_') + Split(f, '_')
  {
    hide Split;
    SplitJoined(a, [b, c, d, e, f]);
    SplitJoined(b, [c, d, e, f]);
    SplitJoined(c, [d, e, f]);
    SplitJoined(d, [e, f]);
    SplitJoined(e, [f]);
  }

  lemma SplitJoined(a: string, rest: seq<string>)
    requires rest != []
    ensures Split(Join([a] + rest, '_'), '_') == Split(a, '_') + Split(Join(rest, '_'), '_')
  {
    assert ([a] + rest)[1..] == rest;
    SplitAt(a, Join(rest, '_'), '_');
  }

  lemma SplitFive(a: string, b: string, c: string, d: string, e: string)
    ensures Split(Join([a, b, c, d, e], '_'), '_')
      == Split(a, '_') + Split(b, '_') + Split(c, '_') + Split(d, '_') + Split(e, '_')
  {
    hide Split;
    SplitJoined(a, [b, c, d, e]);
    SplitJoined(b, [c, d, e]);
    SplitJoined(c, [d, e]);
    SplitJoined(d, [e]);
  }

  // The parts of a binder id.
  lemma BinderParts(binder: string, size: string, temperature: real, additive: string, aging: string, hash: string)
    ensures var id := GenerateExpId(binder, size, temperature, additive, aging, hash);
      Split(id, '_') == Split(BinderAbbrev(binder), '_') + Split(size, '_') + [AgingAbbrev(aging)]
        + Split(OrElse(additive, "none"), '_') + [TempText(temperature)] + Split(hash, '_')
  {
    hide Split, Join, BinderAbbrev, TempText;
    SplitSix(BinderAbbrev(binder), size, AgingAbbrev(aging), OrElse(additive, "none"), TempText(temperature), hash);
    PlainTexts(temperature, 0.0);
    SplitPlain(TempText(temperature), '_');
    SplitPlain(AgingAbbrev(aging), '_');
  }

  /** Parsing a generated binder id recovers every field exactly when binder abbreviation, size and additive hold no
      underscore and the size is not a boundary mode. */
  lemma BinderIdParsesIff(rd: Reader, binder: string, size: string, temperature: real, additive: string,
                          aging: string, hash: string)
    requires rd.ReadsNumerals()
    requires '_' !in hash
    ensures var id := GenerateExpId(binder, size, temperature, additive, aging, hash);
      var expected := Parsed(Some(BinderAbbrev(binder)), Some(size), Some(AgingOf(AgingAbbrev(aging))),
                             if additive == "" || additive == "none" then None else Some(additive),
                             Some(Trunc(temperature) as real), Some(hash), None);
      ParseParts(rd, Split(id, '_')) == expected <==>
        && '_' !in BinderAbbrev(binder) && '_' !in size && '_' !in OrElse(additive, "none")
        && size != "ppp" && size != "ppf"
  {
    hide Split, BinderAbbrev, TempText, ParseTemp, AgingOf, AgingAbbrev, GenerateExpId;
    var parts := Split(GenerateExpId(binder, size, temperature, additive, aging, hash), '_');
    BinderParts(binder, size, temperature, additive, aging, hash);
    PartsPlain(GenerateExpId(binder, size, temperature, additive, aging, hash), '_');
    TempFacts(rd, temperature);
    SplitPlain(hash, '_');
    if '_' !in BinderAbbrev(binder) && '_' !in size && '_' !in OrElse(additive, "none") {
      SplitPlain(BinderAbbrev(binder), '_');
      SplitPlain(size, '_');
      SplitPlain(OrElse(additive, "none"), '_');
      assert parts == [BinderAbbrev(binder), size, AgingAbbrev(aging), OrElse(additive, "none"),
                       TempText(temperature), hash];
    }
  }

  // Binders that the abbreviation keeps apart: tabulated ones, and short ones that are not abbreviations themselves.
  predicate KeepsBinder(binder: string) {
    || binder in {"AAA1", "AAK1", "AAM1", "custom"}
    || (1 <= |binder| <= 2 && binder !in {"A1", "K1", "M1", "C"} && '_' !in binder)
  }

  predicate KnownAging(aging: string) {
    aging in {"non_aging", "short_aging", "long_aging"}
  }

  lemma AbbrevFacts(binder: string)
    ensures KeepsBinder(binder) ==>
      '_' !in BinderAbbrev(binder) && BinderAbbrev(binder) != "" && BinderOf(BinderAbbrev(binder)) == binder
    ensures !KeepsBinder(binder) && '_' !in binder ==>
      '_' !in BinderAbbrev(binder) && (BinderAbbrev(binder) == "" || BinderOf(BinderAbbrev(binder)) != binder)
    ensures BinderAbbrev(binder) == "" ==> binder == ""
    ensures '_' in BinderAbbrev(binder) ==> '_' in binder
    ensures BinderOf("A1") == "AAA1"
  {
  }

  lemma BinderOfPlain(abbrev: string)
    requires '_' !in abbrev
    ensures '_' !in BinderOf(abbrev)
  {
  }

  lemma AgingFacts(aging: string)
    ensures AgingOf(AgingAbbrev(aging)) == aging <==> KnownAging(aging)
    ensures AgingOf(AgingAbbrev(aging)) != ""
  {
  }

  /** Binder, size and aging survive in the material id for any additive, with or without underscores, exactly when the
      binder is kept by its abbreviation, the size is a plain non-empty word other than a boundary mode, and the aging
      state is a known one. */
  lemma MaterialSurvivesIff(rd: Reader, binder: string, size: string, temperature: real, additive: string,
                            aging: string, hash: string)
    ensures var id := GenerateExpId(binder, size, temperature, additive, aging, hash);
      MaterialOf(ParseParts(rd, Split(id, '_'))) == Binder(binder, size, aging) <==>
        KeepsBinder(binder) && size != "" && '_' !in size && size != "ppp" && size != "ppf" && KnownAging(aging)
  {
    hide Split, BinderAbbrev, BinderOf, TempText, ParseTemp, AgingOf, AgingAbbrev, GenerateExpId, KeepsBinder,
        KnownAging, ParseDensity, OrElse;
    var parts := Split(GenerateExpId(binder, size, temperature, additive, aging, hash), '_');
    BinderParts(binder, size, temperature, additive, aging, hash);
    PartsPlain(GenerateExpId(binder, size, temperature, additive, aging, hash), '_');
    assert |parts| >= 6;
    AbbrevFacts(binder);
    AgingFacts(aging);
    BinderOfPlain(Text(Some(parts[0]), "A1"));
    if '_' !in BinderAbbrev(binder) {
      SplitPlain(BinderAbbrev(binder), '_');
      assert parts[0] == BinderAbbrev(binder) && parts[1] == Split(size, '_')[0];
      if '_' !in size {
        SplitPlain(size, '_');
        assert parts[2] == AgingAbbrev(aging);
      }
    }
    if size == "X1" {
      SplitPlain("X1", '_');
    }
  }

  /** The material id of such an experiment is the text binder_size_aging. */
  lemma MaterialIdText(rd: Reader, binder: string, size: string, temperature: real, additive: string, aging: string,
                       hash: string)
    requires KeepsBinder(binder) && size != "" && '_' !in size && !IsBoundary(size) && KnownAging(aging)
    ensures ExpIdToMaterialId(rd, GenerateExpId(binder, size, temperature, additive, aging, hash))
      == binder + "_" + size + "_" + aging
  {
    MaterialSurvivesIff(rd, binder, size, temperature, additive, aging, hash);
    hide GenerateExpId, Split, ParseParts, MaterialOf, KeepsBinder;
  }

  /** The abbreviations, and the id of the documentation: A1_X1_NA_none_298K_ and a hash. */
  lemma DocumentedId(hash: string)
    ensures GenerateExpId("AAA1", "X1", 298.0, "", "non_aging", hash)
      == "A1" + "_" + ("X1" + "_" + ("NA" + "_" + ("none" + "_" + ("298K" + "_" + hash))))
    ensures BinderAbbrev("AAK1") == "K1" && BinderAbbrev("AAM1") == "M1" && BinderAbbrev("custom") == "C"
    ensures BinderAbbrev("other") == "ot"
    ensures AgingAbbrev("short_aging") == "SA" && AgingAbbrev("long_aging") == "LA"
  {
    Text298();
    JoinSix("A1", "X1", "NA", "none", "298K", hash);
    hide TempText, Join;
  }

  lemma JoinSix(a: string, b: string, c: string, d: string, e: string, f: string)
    ensures Join([a, b, c, d, e, f], '_') == a + "_" + (b + "_" + (c + "_" + (d + "_" + (e + "_" + f))))
  {
    JoinMore(a, [b, c, d, e, f]);
    JoinMore(b, [c, d, e, f]);
    JoinMore(c, [d, e, f]);
    JoinMore(d, [e, f]);
    JoinMore(e, [f]);
  }

  lemma JoinMore(a: string, rest: seq<string>)
    requires rest != []
    ensures Join([a] + rest, '_') == a + "_" + Join(rest, '_')
  {
    assert ([a] + rest)[1..] == rest;
  }

  lemma Text298()
    ensures TempText(298.0) == "298K"
  {
    assert NatString(2) == "2" && NatString(29) == "29" && NatString(298) == "298";
  }

  /** An id with too few parts stands for the default binder; a boundary mode without a molecule for an unknown one. */
  lemma DefaultMaterial(rd: Reader, id: string)
    ensures |Split(id, '_')| < 5 ==> ExpIdToMaterialId(rd, id) == "AAA1" + "_" + "X1" + "_" + "non_aging"
    ensures var parts := Split(id, '_');
      |parts| >= 5 && parts[0] == "" && (parts[1] == "ppp" || parts[1] == "ppf") ==>
        ExpIdToMaterialId(rd, id) == "unknown"
  {
    hide Split, ParseTemp, ParseDensity;
  }

  /** The documented amorphous id: H2O_ppp_298K_d1.00_ and a hash. */
  lemma DocumentedAmorphousId(rd: Reader, hash: string)
    requires rd.ReadsNumerals() && '_' !in hash
    ensures var id := GenerateAmorphousExpId("H2O", "ppp", 298.0, 1.0, hash);
      && id == "H2O" + "_" + ("ppp" + "_" + ("298K" + "_" + ("d1.00" + "_" + hash)))
      && ExpIdToMaterialId(rd, id) == "H2O"
  {
    Text298();
    DensityText();
    AmorphousIdParsesIff(rd, "H2O", "ppp", 298.0, 1.0, hash);
    JoinMore("H2O", ["ppp", "298K", "d1.00", hash]);
    JoinMore("ppp", ["298K", "d1.00", hash]);
    JoinMore("298K", ["d1.00", hash]);
    JoinMore("d1.00", [hash]);
    hide TempText, Fixed, Join, ExpIdToMaterialId;
  }

  lemma DensityText()
    ensures "d" + Fixed(1.0, 2) == "d1.00"
  {
    assert Pow10(2) == 100;
    assert Scaled(1.0, 2) == 100;
    assert NatString(10) == "10" && NatString(100) == "100";
    assert Digits(100, 2) == "100";
  }

  /** An amorphous id is recognised and all its fields recovered exactly when the molecule id holds no underscore. */
  lemma AmorphousIdParsesIff(rd: Reader, molId: string, boundary: string, temperature: real, density: real,
                             hash: string)
    requires rd.ReadsNumerals()
    requires IsBoundary(boundary) && '_' !in hash
    ensures var id := GenerateAmorphousExpId(molId, boundary, temperature, density, hash);
      var expected := Parsed(Some(molId), Some(boundary), None, None, Some(Trunc(temperature) as real), Some(hash),
                             Some(Rounded(density, 2)));
      && (ParseParts(rd, Split(id, '_')) == expected <==> '_' !in molId)
      && ('_' !in molId && molId != "" ==> ExpIdToMaterialId(rd, id) == molId)
  {
    hide Split, TempText, ParseTemp, ParseDensity, Fixed, GenerateAmorphousExpId;
    var id := GenerateAmorphousExpId(molId, boundary, temperature, density, hash);
    var parts := Split(id, '_');
    AmorphousParts(molId, boundary, temperature, density, hash);
    PartsPlain(id, '_');
    TempFacts(rd, temperature);
    DensityFacts(rd, density);
    if '_' !in molId {
      SplitPlain(molId, '_');
      assert parts == [molId, boundary, TempText(temperature), "d" + Fixed(density, 2), hash];
    }
  }

  lemma AmorphousParts(molId: string, boundary: string, temperature: real, density: real, hash: string)
    requires IsBoundary(boundary) && '_' !in hash
    ensures Split(GenerateAmorphousExpId(molId, boundary, temperature, density, hash), '_')
      == Split(molId, '_') + [boundary, TempText(temperature), "d" + Fixed(density, 2), hash]
  {
    hide Split, Join, TempText, Fixed;
    SplitFive(molId, boundary, TempText(temperature), "d" + Fixed(density, 2), hash);
    PlainTexts(temperature, density);
    SplitPlain(boundary, '_');
    SplitPlain(TempText(temperature), '_');
    SplitPlain("d" + Fixed(density, 2), '_');
    SplitPlain(hash, '_');
  }
}
